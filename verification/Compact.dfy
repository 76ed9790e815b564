/** Relay messages on one line each: white space outside JSON strings is removed in place
    (app/ws_shim.c:220-239). */
module Compact {
  import opened Wire

  type Bytes = seq<u8>

  const QUOTE: u8 := 0x22
  const BACKSLASH: u8 := 0x5C

  predicate White(b: u8) {
    b == 0x20 || b == 0x09 || b == 0x0D || b == 0x0A
  }

  datatype Scan = Scan(quoted: bool, escaped: bool)

  predicate Kept(st: Scan, b: u8) {
    st.quoted || !White(b)
  }

  function Next(st: Scan, b: u8): Scan {
    if !Kept(st, b) then st
    else if st.escaped then st.(escaped := false)
    else if st.quoted && b == BACKSLASH then st.(escaped := true)
    else if b == QUOTE then st.(quoted := !st.quoted)
    else st
  }

  /** The scanner's state behind the first n bytes, and what it has kept of them. */
  function After(s: Bytes, n: nat): Scan
    requires n <= |s|
  {
    if n == 0 then Scan(false, false) else Next(After(s, n - 1), s[n - 1])
  }

  function Compacted(s: Bytes, n: nat): (r: Bytes)
    requires n <= |s|
    ensures |r| <= n
  {
    if n == 0 then [] else Compacted(s, n - 1) + if Kept(After(s, n - 1), s[n - 1]) then [s[n - 1]] else []
  }

  /** The bytes inside strings, with their opening quotes left out and their closing ones kept. */
  function Inside(s: Bytes, n: nat): Bytes
    requires n <= |s|
  {
    if n == 0 then [] else Inside(s, n - 1) + if After(s, n - 1).quoted then [s[n - 1]] else []
  }

  /** The bytes outside strings that are not white space. */
  function Outside(s: Bytes, n: nat): Bytes
    requires n <= |s|
  {
    if n == 0 then []
    else Outside(s, n - 1) + if !After(s, n - 1).quoted && !White(s[n - 1]) then [s[n - 1]] else []
  }

  /** ws_compact_json: written never overtakes the byte being read, so in place is safe. */
  method CompactJson(message: array<u8>, length: nat) returns (written: nat)
    requires length <= message.Length
    modifies message
    ensures written <= length && message[..written] == Compacted(old(message[..length]), length)
    ensures message[length..] == old(message[length..])
  {
    written := 0;
    var quoted, escaped := false, false;
    ghost var s := message[..length];
    for i := 0 to length
      invariant written <= i && Scan(quoted, escaped) == After(s, i)
      invariant message[..written] == Compacted(s, i)
      invariant forall j :: i <= j < message.Length ==> message[j] == old(message[j])
    {
      var byte := message[i];
      assert byte == s[i];
      if !quoted && White(byte) {
        continue;
      }
      message[written] := byte;
      written := written + 1;
      if escaped {
        escaped := false;
      } else if quoted && byte == BACKSLASH {
        escaped := true;
      } else if byte == QUOTE {
        quoted := !quoted;
      }
    }
  }

  lemma {:induction false} Prefix(s: Bytes, more: Bytes, n: nat)
    requires n <= |s|
    ensures After(s + more, n) == After(s, n) && Compacted(s + more, n) == Compacted(s, n)
    ensures Inside(s + more, n) == Inside(s, n) && Outside(s + more, n) == Outside(s, n)
  {
    if n > 0 {
      Prefix(s, more, n - 1);
    }
  }

  lemma ByteMore(s: Bytes, b: u8)
    ensures
      var more, st, n := s + [b], After(s, |s|), |s| + 1;
      && After(more, n) == Next(st, b)
      && Compacted(more, n) == (if Kept(st, b) then Compacted(s, |s|) + [b] else Compacted(s, |s|))
      && Inside(more, n) == (if st.quoted then Inside(s, |s|) + [b] else Inside(s, |s|))
      && Outside(more, n) == if !st.quoted && !White(b) then Outside(s, |s|) + [b] else Outside(s, |s|)
  {
    hide White;
    Prefix(s, [b], |s|);
  }

  lemma LastByte(s: Bytes, n: nat)
    requires 0 < n <= |s|
    ensures
      var b, st := s[n - 1], After(s, n - 1);
      && After(s, n) == Next(st, b)
      && Compacted(s, n) == (if Kept(st, b) then Compacted(s, n - 1) + [b] else Compacted(s, n - 1))
      && Inside(s, n) == (if st.quoted then Inside(s, n - 1) + [b] else Inside(s, n - 1))
      && Outside(s, n) == if !st.quoted && !White(b) then Outside(s, n - 1) + [b] else Outside(s, n - 1)
  {
    hide White;
  }

  /** Compacting changes neither the strings nor the rest of the message, and doing it again
      changes nothing. */
  lemma {:induction false} CompactKeepsContent(s: Bytes, n: nat)
    requires n <= |s|
    ensures
      var c := Compacted(s, n);
      && After(c, |c|) == After(s, n) && Compacted(c, |c|) == c
      && Inside(c, |c|) == Inside(s, n) && Outside(c, |c|) == Outside(s, n)
  {
    if n > 0 {
      hide White, After, Compacted, Inside, Outside;
      CompactKeepsContent(s, n - 1);
      ByteMore(Compacted(s, n - 1), s[n - 1]);
      LastByte(s, n);
    }
  }

  /** When no string holds a raw line break, the compacted message is one line. */
  lemma {:induction false} CompactIsOneLine(s: Bytes, n: nat)
    requires n <= |s| && 0x0A !in Inside(s, n)
    ensures 0x0A !in Compacted(s, n)
  {
    if n > 0 {
      assert forall b :: b in Inside(s, n - 1) ==> b in Inside(s, n);
      CompactIsOneLine(s, n - 1);
    }
  }

  // ----- what a message consists of -----

  /** A character inside a string: itself, or a backslash and any byte. */
  datatype Item = Plain(b: u8) | Pair(b: u8)

  /** White space, a byte of structure, or a string. */
  datatype Token = Blank(b: u8) | Mark(b: u8) | Str(items: seq<Item>)

  predicate GoodItem(i: Item) {
    i.Plain? ==> i.b != 0x22 && i.b != 0x5C
  }

  predicate GoodToken(t: Token) {
    match t
    case Blank(b) => b == 0x20 || b == 0x09 || b == 0x0D || b == 0x0A
    case Mark(b) => b != 0x20 && b != 0x09 && b != 0x0D && b != 0x0A && b != 0x22
    case Str(items) => forall i :: 0 <= i < |items| ==> GoodItem(items[i])
  }

  predicate AllGood(tokens: seq<Token>) {
    forall i :: 0 <= i < |tokens| ==> GoodToken(tokens[i])
  }

  function ItemBytes(i: Item): Bytes {
    if i.Plain? then [i.b] else [0x5C, i.b]
  }

  function ItemsBytes(items: seq<Item>): Bytes {
    if items == [] then [] else ItemsBytes(items[..|items| - 1]) + ItemBytes(items[|items| - 1])
  }

  function TokenBytes(t: Token): Bytes {
    match t
    case Blank(b) => [b]
    case Mark(b) => [b]
    case Str(items) => [0x22] + ItemsBytes(items) + [0x22]
  }

  function Text(tokens: seq<Token>): Bytes {
    if tokens == [] then [] else Text(tokens[..|tokens| - 1]) + TokenBytes(tokens[|tokens| - 1])
  }

  function WithoutBlanks(tokens: seq<Token>): seq<Token> {
    if tokens == [] then []
    else
      var init, last := tokens[..|tokens| - 1], tokens[|tokens| - 1];
      WithoutBlanks(init) + if last.Blank? then [] else [last]
  }

  function All(s: Bytes): Bytes {
    Compacted(s, |s|)
  }

  function End(s: Bytes): Scan {
    After(s, |s|)
  }

  lemma OneMore(s: Bytes, b: u8)
    ensures End(s + [b]) == Next(End(s), b)
    ensures All(s + [b]) == All(s) + if Kept(End(s), b) then [b] else []
  {
    ByteMore(s, b);
  }

  lemma {:induction false} ItemsInside(s: Bytes, items: seq<Item>)
    requires End(s) == Scan(true, false) && forall i :: 0 <= i < |items| ==> GoodItem(items[i])
    ensures End(s + ItemsBytes(items)) == Scan(true, false) && All(s + ItemsBytes(items)) == All(s) + ItemsBytes(items)
    decreases |items|
  {
    hide All, End;
    if items == [] {
      assert s + [] == s;
    } else {
      var init, last := items[..|items| - 1], items[|items| - 1];
      ItemsInside(s, init);
      var x := s + ItemsBytes(init);
      if last.Plain? {
        OneMore(x, last.b);
        assert x + [last.b] == s + ItemsBytes(items);
      } else {
        OneMore(x, BACKSLASH);
        OneMore(x + [BACKSLASH], last.b);
        assert x + [BACKSLASH] + [last.b] == s + ItemsBytes(items);
      }
    }
  }

  lemma StringMore(s: Bytes, items: seq<Item>)
    requires End(s) == Scan(false, false) && forall i :: 0 <= i < |items| ==> GoodItem(items[i])
    ensures
      var x := TokenBytes(Str(items));
      End(s + x) == Scan(false, false) && All(s + x) == All(s) + x
  {
    hide All, End, ItemsBytes, GoodItem;
    OneMore(s, QUOTE);
    ItemsInside(s + [QUOTE], items);
    var x := s + [QUOTE] + ItemsBytes(items);
    OneMore(x, QUOTE);
    assert x + [QUOTE] == s + TokenBytes(Str(items));
    assert All(s) + [QUOTE] + ItemsBytes(items) + [QUOTE] == All(s) + TokenBytes(Str(items));
  }

  lemma TokenMore(s: Bytes, t: Token)
    requires End(s) == Scan(false, false) && GoodToken(t)
    ensures End(s + TokenBytes(t)) == Scan(false, false)
    ensures All(s + TokenBytes(t)) == All(s) + if t.Blank? then [] else TokenBytes(t)
  {
    hide All, End, ItemsBytes, GoodItem;
    match t
    case Blank(b) => OneMore(s, b);
    case Mark(b) => OneMore(s, b);
    case Str(items) => StringMore(s, items);
  }

  /** Compacting takes away exactly the white space between tokens; inside strings nothing changes. */
  lemma {:induction false} CompactDropsBlanks(tokens: seq<Token>)
    requires AllGood(tokens)
    ensures End(Text(tokens)) == Scan(false, false) && All(Text(tokens)) == Text(WithoutBlanks(tokens))
    decreases |tokens|
  {
    hide All, End, TokenBytes;
    if tokens == [] {
      NoText();
    } else {
      var init, last := tokens[..|tokens| - 1], tokens[|tokens| - 1];
      CompactDropsBlanks(init);
      TokenMore(Text(init), last);
      TextSnoc(WithoutBlanks(init), last);
      assert All(Text(init)) + [] == All(Text(init));
      assert WithoutBlanks(init) + [] == WithoutBlanks(init);
    }
  }

  lemma TextSnoc(tokens: seq<Token>, t: Token)
    ensures Text(tokens + [t]) == Text(tokens) + TokenBytes(t)
  {
    assert (tokens + [t])[..|tokens|] == tokens;
  }

  lemma NoText()
    ensures End([]) == Scan(false, false) && All([]) == []
  {
  }

  function OpenBytes(st: Scan, items: seq<Item>): Bytes {
    (if st.quoted then [0x22] + ItemsBytes(items) else []) + if st.escaped then [0x5C] else []
  }

  /** Every message is read as tokens, and if it ends in a string, that one's characters so far. */
  ghost predicate Reads(s: Bytes, tokens: seq<Token>, items: seq<Item>) {
    && AllGood(tokens) && (forall i :: 0 <= i < |items| ==> GoodItem(items[i]))
    && s == Text(tokens) + OpenBytes(End(s), items) && (End(s).escaped ==> End(s).quoted)
  }

  lemma Regroup(x: Bytes, items: Bytes, b: u8)
    ensures x + ([0x22] + items + [0x5C]) + [b] == x + ([0x22] + (items + [0x5C, b]) + [])
    ensures x + ([0x22] + items + []) + [b] == x + ([0x22] + (items + [b]) + [])
    ensures x + ([0x22] + items + []) + [0x22] == x + ([0x22] + items + [0x22]) + ([] + [])
    ensures x + ([0x22] + items + []) + [0x5C] == x + ([0x22] + items + [0x5C])
    ensures x + ([] + []) + [b] == x + [b] + ([] + [])
    ensures x + ([] + []) + [0x22] == x + ([0x22] + [] + [])
  {
  }

  lemma ReadOneMore(s: Bytes, b: u8, tokens: seq<Token>, items: seq<Item>)
    returns (tokens': seq<Token>, items': seq<Item>)
    requires Reads(s, tokens, items)
    ensures Reads(s + [b], tokens', items')
  {
    hide End, All, Text, AllGood;
    OneMore(s, b);
    Regroup(Text(tokens), ItemsBytes(items), b);
    tokens', items' := tokens, items;
    if End(s).escaped {
      items' := ItemMore(items, Pair(b));
    } else if End(s).quoted && b == QUOTE {
      tokens' := TokenSnoc(tokens, Str(items));
    } else if End(s).quoted && b != BACKSLASH {
      items' := ItemMore(items, Plain(b));
    } else if !End(s).quoted && b == QUOTE {
      items' := [];
    } else if !End(s).quoted {
      var t := if White(b) then Blank(b) else Mark(b);
      OutsideGood(b);
      tokens' := TokenSnoc(tokens, t);
    }
  }

  lemma OutsideGood(b: u8)
    requires b != QUOTE
    ensures GoodToken(if White(b) then Blank(b) else Mark(b))
  {
  }

  lemma NothingReads()
    ensures Reads([], [], [])
  {
    hide All, End;
    NoText();
  }

  lemma {:induction false} EveryMessage(s: Bytes) returns (tokens: seq<Token>, items: seq<Item>)
    ensures Reads(s, tokens, items)
    decreases |s|
  {
    hide Reads;
    if s == [] {
      tokens, items := [], [];
      NothingReads();
    } else {
      tokens, items := EveryMessage(s[..|s| - 1]);
      tokens, items := ReadOneMore(s[..|s| - 1], s[|s| - 1], tokens, items);
      assert s == s[..|s| - 1] + [s[|s| - 1]];
    }
  }

  lemma ItemMore(items: seq<Item>, i: Item) returns (more: seq<Item>)
    requires GoodItem(i) && forall k :: 0 <= k < |items| ==> GoodItem(items[k])
    ensures forall k :: 0 <= k < |more| ==> GoodItem(more[k])
    ensures ItemsBytes(more) == ItemsBytes(items) + ItemBytes(i)
  {
    more := items + [i];
    assert more[..|more| - 1] == items;
  }

  lemma TokenSnoc(tokens: seq<Token>, t: Token) returns (more: seq<Token>)
    requires GoodToken(t) && AllGood(tokens)
    ensures AllGood(more) && Text(more) == Text(tokens) + TokenBytes(t)
  {
    more := tokens + [t];
    TextSnoc(tokens, t);
  }
}
