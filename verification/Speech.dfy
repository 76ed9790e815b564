/** Cutting a message into pieces to speak (app/tts.c:32-63, 161-184). */
module Speech {
  import opened Wire
  import opened Utf8

  const CHUNK_BYTES: nat := 240

  /** g_ascii_isspace. */
  predicate Space(b: u8) {
    b == 0x20 || 0x09 <= b <= 0x0A || 0x0C <= b <= 0x0D
  }

  /** The full stop, exclamation mark or question mark of Chinese and Japanese at position i. */
  predicate WideStop(s: Bytes, i: nat) {
    i + 3 <= |s|
    && (s[i..i + 3] == [0xE3, 0x80, 0x82] || s[i..i + 3] == [0xEF, 0xBC, 0x81] || s[i..i + 3] == [0xEF, 0xBC, 0x9F])
  }

  predicate Stop(b: u8) {
    b == 0x2E || b == 0x21 || b == 0x3F
  }

  /** Which characters these are. */
  lemma StopsAre(s: Bytes, i: nat, b: u8)
    ensures Stop(b) <==> b as char in ".!?"
    ensures Space(b) <==> b as char in " \t\n\U{0C}\r"
    ensures WideStop(s, i) <==>
            i + 3 <= |s| && exists c :: c in {0x3002, 0xFF01, 0xFF1F} && s[i..i + 3] == Encoded(c)
  {
    assert Encoded(0x3002) == [0xE3, 0x80, 0x82] && Encoded(0xFF01) == [0xEF, 0xBC, 0x81];
    assert Encoded(0xFF1F) == [0xEF, 0xBC, 0x9F];
  }

  /** A good place to cut: a whole piece of text of at most 240 bytes, not empty. */
  predicate Cut(s: Bytes, from: nat, n: nat) {
    0 < n <= CHUNK_BYTES && from + n <= |s| && Characters(s, from, from + n) && Characters(s, from + n, |s|)
  }

  lemma WideStopIsChar(s: Bytes, i: nat)
    requires WideStop(s, i)
    ensures CharAt(s, i, 3) && !Tail(s[i])
  {
    var c := s[i..i + 3];
    assert s[i] == c[0] && s[i + 1] == c[1] && s[i + 2] == c[2];
  }

  lemma WideStopCuts(s: Bytes, from: nat, i: nat)
    requires from <= i <= |s| && Characters(s, from, |s|) && WideStop(s, i)
    ensures Characters(s, from, i + 3) && Characters(s, i + 3, |s|)
  {
    WideStopIsChar(s, i);
    CutHere(s, from, i);
    AfterChar(s, i, 3);
    CutHere(s, from, i + 3);
  }

  lemma SpaceCuts(s: Bytes, from: nat, i: nat)
    requires from <= i < |s| && Characters(s, from, |s|) && Space(s[i])
    ensures Characters(s, from, i) && Characters(s, i, |s|)
    ensures Characters(s, from, i + 1) && Characters(s, i + 1, |s|)
  {
    CutHere(s, from, i);
    AfterChar(s, i, 1);
    CutHere(s, from, i + 1);
  }

  /** A wide stop whose three bytes fit the room. */
  predicate WideEnd(s: Bytes, from: nat, i: nat) {
    i + 3 <= CHUNK_BYTES && WideStop(s, from + i)
  }

  /** A sentence ends with the stop at i: a wide one, or one before white space; not with the last byte. */
  predicate Ends(s: Bytes, from: nat, i: nat) {
    from + i + 1 < |s| && i < CHUNK_BYTES
    && (WideEnd(s, from, i) || (Stop(s[from + i]) && Space(s[from + i + 1])))
  }

  function EndOf(s: Bytes, from: nat, i: nat): nat {
    if WideEnd(s, from, i) then i + 3 else i + 1
  }

  predicate NoneEnds(s: Bytes, from: nat, i: nat) {
    forall j :: 0 <= j < i ==> !Ends(s, from, j)
  }

  /** The first sentence that ends within the room. */
  ghost predicate FirstSentence(s: Bytes, from: nat, n: nat) {
    exists i: nat :: Ends(s, from, i) && NoneEnds(s, from, i) && n == EndOf(s, from, i)
  }

  /** The first sentence that ends within the room, 0 when none does. */
  method Sentence(s: Bytes, from: nat) returns (n: nat)
    requires from < |s| && Characters(s, from, |s|)
    ensures n > 0 ==> Cut(s, from, n) && FirstSentence(s, from, n)
    ensures n == 0 ==> NoneEnds(s, from, CHUNK_BYTES)
  {
    hide Characters;
    var rest := |s| - from;
    var i: nat := 0;
    while i + 1 < rest && i < CHUNK_BYTES
      invariant i <= rest && i <= CHUNK_BYTES && NoneEnds(s, from, i)
    {
      if i + 3 <= rest && i + 3 <= CHUNK_BYTES && WideStop(s, from + i) {
        WideStopCuts(s, from, from + i);
        assert Ends(s, from, i) && EndOf(s, from, i) == i + 3;
        return i + 3;
      }
      if Stop(s[from + i]) && Space(s[from + i + 1]) {
        SpaceCuts(s, from, from + i + 1);
        assert Ends(s, from, i) && EndOf(s, from, i) == i + 1;
        return i + 1;
      }
      i := i + 1;
    }
    return 0;
  }

  /** No more whole characters fit. */
  predicate Fullest(s: Bytes, from: nat, n: nat) {
    && from + CHUNK_BYTES < |s| && n <= CHUNK_BYTES
    && forall i :: from + n < i <= from + CHUNK_BYTES ==> Tail(s[i])
  }

  predicate NoSpace(s: Bytes, from: nat, to: nat) {
    forall i :: from <= i < to && i < |s| ==> !Space(s[i])
  }

  /** Behind the last white space of the n bytes, or all of them when there is none. */
  predicate LastBreak(s: Bytes, from: nat, n: nat, at: nat) {
    0 < at <= n && from + n <= |s| && NoSpace(s, from + at, from + n)
    && (Space(s[from + at - 1]) || (at == n && NoSpace(s, from, from + n)))
  }

  /** The most whole characters that fit, when not all do. */
  method Most(s: Bytes, from: nat) returns (n: nat)
    requires from + CHUNK_BYTES < |s| && Characters(s, from, |s|)
    ensures Cut(s, from, n) && Fullest(s, from, n)
  {
    ghost var k: nat :| 1 <= k <= |s| - from && CharAt(s, from, k) && Characters(s, from + k, |s|);
    AfterChar(s, from, k);
    n := CHUNK_BYTES;
    while Tail(s[from + n])
      invariant k <= n <= CHUNK_BYTES && Fullest(s, from, n)
      decreases n
    {
      n := n - 1;
    }
    CutHere(s, from, from + n);
  }

  /** What chunk_length chooses: the first sentence; else everything left when it is short; else as
      many whole characters as fit, back to the last white space among them. */
  ghost predicate Chosen(s: Bytes, from: nat, n: nat) {
    || FirstSentence(s, from, n)
    || (NoneEnds(s, from, CHUNK_BYTES) && from + n == |s|)
    || (NoneEnds(s, from, CHUNK_BYTES) && from + CHUNK_BYTES < |s|
        && exists most :: Cut(s, from, most) && Fullest(s, from, most) && LastBreak(s, from, most, n))
  }

  /** chunk_length on the text from a position where a character starts. */
  method ChunkLength(s: Bytes, from: nat) returns (n: nat)
    requires from < |s| && Characters(s, from, |s|)
    ensures Cut(s, from, n) && Chosen(s, from, n)
  {
    hide Characters, NoneEnds, FirstSentence, Fullest;
    n := Sentence(s, from);
    if n > 0 {
      return;
    }
    if |s| - from <= CHUNK_BYTES {
      CutHere(s, from, |s|);
      return |s| - from;
    }
    n := Most(s, from);
    var i := n;
    while i > 0
      invariant i <= n && NoSpace(s, from + i, from + n)
    {
      if Space(s[from + i - 1]) {
        SpaceCuts(s, from, from + i - 1);
        assert LastBreak(s, from, n, i);
        return i;
      }
      i := i - 1;
    }
    assert LastBreak(s, from, n, n);
  }

  datatype Piece = Piece(from: nat, to: nat)

  function End(pieces: seq<Piece>, n: nat): nat
    requires n <= |pieces|
  {
    if n == 0 then 0 else pieces[n - 1].to
  }

  /** Only white space lies between two positions. */
  predicate Blank(s: Bytes, from: nat, to: nat) {
    forall i :: from <= i < to && i < |s| ==> Space(s[i])
  }

  /** A piece is whole characters, short, and only white space is skipped before it. */
  predicate Follows(s: Bytes, end: nat, p: Piece) {
    && end <= p.from < p.to <= |s| && p.to - p.from <= CHUNK_BYTES
    && Blank(s, end, p.from) && !Space(s[p.from]) && Characters(s, p.from, p.to)
  }

  predicate Spoken(s: Bytes, pieces: seq<Piece>) {
    forall i :: 0 <= i < |pieces| ==> Follows(s, End(pieces, i), pieces[i])
  }

  method SkipSpace(s: Bytes, from: nat) returns (cursor: nat)
    requires from <= |s| && Characters(s, from, |s|)
    ensures from <= cursor <= |s| && Characters(s, cursor, |s|) && Blank(s, from, cursor)
    ensures cursor < |s| ==> !Space(s[cursor])
  {
    cursor := from;
    while cursor < |s| && Space(s[cursor])
      invariant from <= cursor <= |s| && Characters(s, cursor, |s|) && Blank(s, from, cursor)
    {
      Consume(s, cursor, 1, |s|);
      cursor := cursor + 1;
    }
  }

  /** The cursor loop: every byte that is not white space between pieces is spoken, in order. */
  method Speak(s: Bytes) returns (pieces: seq<Piece>)
    requires Characters(s, 0, |s|)
    ensures Spoken(s, pieces) && Blank(s, End(pieces, |pieces|), |s|)
  {
    hide Blank, Characters, Chosen;
    pieces := [];
    var cursor: nat := 0;
    NoGap(s, 0);
    while cursor < |s|
      invariant cursor <= |s| && Characters(s, cursor, |s|)
      invariant Spoken(s, pieces) && Blank(s, End(pieces, |pieces|), cursor)
      invariant cursor < |s| ==> cursor == End(pieces, |pieces|)
    {
      cursor := SkipSpace(s, cursor);
      if cursor == |s| {
        break;
      }
      var n := ChunkLength(s, cursor);
      AddPiece(s, pieces, Piece(cursor, cursor + n));
      pieces := pieces + [Piece(cursor, cursor + n)];
      cursor := cursor + n;
      NoGap(s, cursor);
    }
  }

  lemma NoGap(s: Bytes, i: nat)
    ensures Blank(s, i, i)
  {
  }

  lemma AddPiece(s: Bytes, pieces: seq<Piece>, p: Piece)
    requires Spoken(s, pieces) && Follows(s, End(pieces, |pieces|), p)
    ensures Spoken(s, pieces + [p])
  {
    hide Follows;
    var all := pieces + [p];
    forall i | 0 <= i < |all|
      ensures Follows(s, End(all, i), all[i])
    {
      assert End(all, i) == End(pieces, i);
      assert i < |pieces| ==> Follows(s, End(pieces, i), pieces[i]);
    }
  }
}
