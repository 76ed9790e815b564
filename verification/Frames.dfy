/** WebSocket frames of the relay client (app/ws_shim.c:97-196), after sections 5.2 to 5.4 of RFC 6455. */
module Frames {
  import opened Collections
  import opened Options
  import opened Wire
  import opened XorWords
  import opened Radix

  type Bytes = seq<u8>

  // ----- big-endian lengths -----

  function Big(k: nat, v: nat): (s: Bytes)
    ensures |s| == k
  {
    if k == 0 then [] else Big(k - 1, v / 256) + [v % 256]
  }

  function BigValue(s: Bytes): nat {
    if s == [] then 0
    else
      var last: nat := s[|s| - 1];
      BigValue(s[..|s| - 1]) * 256 + last
  }

  function Limit(k: nat): (r: nat)
    ensures r > 0
  {
    if k == 0 then 1 else 256 * Limit(k - 1)
  }

  lemma {:induction false} BigReads(k: nat, v: nat)
    requires v < Limit(k)
    ensures BigValue(Big(k, v)) == v
  {
    if k > 0 {
      BigReads(k - 1, v / 256);
      assert Big(k, v)[..k - 1] == Big(k - 1, v / 256);
    }
  }

  lemma {:induction false} BigWrites(s: Bytes)
    ensures BigValue(s) < Limit(|s|) && Big(|s|, BigValue(s)) == s
  {
    if s != [] {
      BigWrites(s[..|s| - 1]);
      var q, d: nat := BigValue(s[..|s| - 1]), s[|s| - 1];
      assert (q * 256 + d) / 256 == q && (q * 256 + d) % 256 == d;
    }
  }

  // ----- masking -----

  predicate IsMask(mask: Bytes) {
    mask == [] || |mask| == 4
  }

  lemma ByteLimit()
    ensures Pow2(8) == 256
  {
    assert Pow2(4) == 16;
    Pow2Add(4, 4);
  }

  function MaskByte(b: u8, m: u8): (r: u8) {
    ByteLimit();
    XorBelow(b, m, 8);
    Xor(b, m)
  }

  /** A bit of a masked byte is set exactly when the bits of byte and mask differ; this says which
      byte it is. */
  lemma MaskBits(b: u8, m: u8, r: u8)
    ensures r == MaskByte(b, m) <==> forall k :: 0 <= k < 8 ==> Bit(r, k) == (Bit(b, k) != Bit(m, k))
  {
    hide Bit;
    ByteLimit();
    forall k | 0 <= k < 8
      ensures Bit(MaskByte(b, m), k) == (Bit(b, k) != Bit(m, k))
    {
      BitLinear(b, m, k);
    }
    if forall k :: 0 <= k < 8 ==> Bit(r, k) == (Bit(b, k) != Bit(m, k)) {
      SameBits(r, MaskByte(b, m), 8);
    }
  }

  /** The masked form of data, bit by bit: byte i is combined with key byte i modulo four. */
  predicate MaskedBits(body: Bytes, data: Bytes, mask: Bytes)
    requires |mask| == 4
  {
    |body| == |data| &&
    forall i, k :: 0 <= i < |data| && 0 <= k < 8 ==> Bit(body[i], k) == (Bit(data[i], k) != Bit(mask[i % 4], k))
  }

  lemma MaskedIsBits(body: Bytes, data: Bytes, mask: Bytes)
    requires |mask| == 4
    ensures body == Masked(data, mask) <==> MaskedBits(body, data, mask)
  {
    hide Bit, MaskByte;
    if |body| == |data| {
      forall i | 0 <= i < |data|
        ensures body[i] == Masked(data, mask)[i] <==>
                forall k :: 0 <= k < 8 ==> Bit(body[i], k) == (Bit(data[i], k) != Bit(mask[i % 4], k))
      {
        MaskBits(data[i], mask[i % 4], body[i]);
      }
    }
  }

  /** Each byte combined with the mask byte of its position modulo four; no mask changes nothing. */
  function Masked(data: Bytes, mask: Bytes): (r: Bytes)
    requires IsMask(mask)
    ensures |r| == |data|
  {
    if mask == [] then data else seq(|data|, i requires 0 <= i < |data| => MaskByte(data[i], mask[i % 4]))
  }

  lemma MaskTwice(data: Bytes, mask: Bytes)
    requires IsMask(mask)
    ensures Masked(Masked(data, mask), mask) == data
  {
    if mask != [] {
      forall i | 0 <= i < |data|
        ensures Masked(Masked(data, mask), mask)[i] == data[i]
      {
        XorCancel(data[i], mask[i % 4]);
      }
    }
  }

  // ----- frames -----

  /** The three ways to write a length; a sender need not choose the shortest. */
  datatype Form = Short | Medium | Long

  datatype Frame = Frame(fin: bool, reserved: nat, op: nat, form: Form, mask: Bytes, payload: Bytes)

  const CONTINUATION: nat := 0
  const TEXT: nat := 1
  const CLOSE: nat := 8

  function LengthBytes(form: Form): nat {
    match form
    case Short => 0
    case Medium => 2
    case Long => 8
  }

  predicate ValidFrame(f: Frame) {
    && f.reserved < 8 && f.op < 16 && IsMask(f.mask)
    && |f.payload| < (if f.form.Short? then 126 else Limit(LengthBytes(f.form)))
  }

  function First(f: Frame): u8
    requires ValidFrame(f)
  {
    (if f.fin then 128 else 0) + f.reserved * 16 + f.op
  }

  function Second(f: Frame): u8
    requires ValidFrame(f)
  {
    (if f.mask == [] then 0 else 128)
    + match f.form { case Short => |f.payload| case Medium => 126 case Long => 127 }
  }

  function HeadBytes(f: Frame): Bytes
    requires ValidFrame(f)
  {
    [First(f), Second(f)] + Big(LengthBytes(f.form), |f.payload|) + f.mask
  }

  function Encode(f: Frame): (s: Bytes)
    requires ValidFrame(f)
    ensures |s| == 2 + LengthBytes(f.form) + |f.mask| + |f.payload|
  {
    HeadBytes(f) + Masked(f.payload, f.mask)
  }

  function FormOf(second: u8): Form {
    if second % 128 == 126 then Medium else if second % 128 == 127 then Long else Short
  }

  /** What a frame says before its payload, and where the payload starts. */
  datatype Head = Head(fin: bool, reserved: nat, op: nat, form: Form, mask: Bytes, n: nat, body: nat)

  function HeadAt(s: Bytes, i: nat): (r: Option<Head>)
    requires i <= |s|
    ensures r.Some? ==> i + 2 <= r.value.body <= |s| && IsMask(r.value.mask)
  {
    if i + 2 > |s| then None
    else
      var form := FormOf(s[i + 1]);
      var j := i + 2 + LengthBytes(form);
      var k := j + if s[i + 1] >= 128 then 4 else 0;
      if k > |s| then None
      else
        var n := if form.Short? then s[i + 1] % 128 else BigValue(s[i + 2..j]);
        Some(Head(s[i] >= 128, s[i] / 16 % 8, s[i] % 16, form, s[j..k], n, k))
  }

  /** The frame with that head, once its payload is there. */
  function FrameOf(s: Bytes, h: Head): Frame
    requires h.body + h.n <= |s| && IsMask(h.mask)
  {
    Frame(h.fin, h.reserved, h.op, h.form, h.mask, Masked(s[h.body..h.body + h.n], h.mask))
  }

  /** The whole frame that starts at position i, and the position behind it. */
  function FrameAt(s: Bytes, i: nat): (r: Option<(Frame, nat)>)
    requires i <= |s|
    ensures r.Some? ==> i + 2 <= r.value.1 <= |s|
  {
    match HeadAt(s, i)
    case None => None
    case Some(h) => if h.body + h.n > |s| then None else Some((FrameOf(s, h), h.body + h.n))
  }

  lemma FirstParts(f: Frame)
    requires ValidFrame(f)
    ensures (First(f) >= 128) == f.fin && First(f) / 16 % 8 == f.reserved && First(f) % 16 == f.op
    ensures (Second(f) >= 128) == (f.mask != []) && FormOf(Second(f)) == f.form
    ensures f.form.Short? ==> Second(f) % 128 == |f.payload|
  {
  }

  lemma EncodeParts(f: Frame)
    requires ValidFrame(f)
    ensures
      var s := Encode(f);
      var j := 2 + LengthBytes(f.form);
      var k := j + |f.mask|;
      && s[0] == First(f) && s[1] == Second(f) && s[2..j] == Big(LengthBytes(f.form), |f.payload|)
      && s[j..k] == f.mask && s[k..] == Masked(f.payload, f.mask)
  {
    hide Big, First, Second;
    var s := Encode(f);
    var big := Big(LengthBytes(f.form), |f.payload|);
    var j := 2 + LengthBytes(f.form);
    assert s == [First(f), Second(f)] + (big + (f.mask + Masked(f.payload, f.mask)));
  }

  lemma EncodeHeads(s: Bytes, i: nat, f: Frame)
    requires ValidFrame(f) && i + |Encode(f)| <= |s| && s[i..i + |Encode(f)|] == Encode(f)
    ensures HeadAt(s, i)
         == Some(Head(f.fin, f.reserved, f.op, f.form, f.mask, |f.payload|, i + |Encode(f)| - |f.payload|))
  {
    hide Encode;
    var x := Encode(f);
    var j := 2 + LengthBytes(f.form);
    EncodeParts(f);
    FirstParts(f);
    assert s[i] == x[0] && s[i + 1] == x[1];
    SliceOfSlice(s, i, x, 2, j);
    SliceOfSlice(s, i, x, j, j + |f.mask|);
    if !f.form.Short? {
      BigReads(LengthBytes(f.form), |f.payload|);
    }
  }

  /** Any frame that is written is read back, wherever it lies in the stream. */
  lemma EncodeReads(s: Bytes, i: nat, f: Frame)
    requires ValidFrame(f) && i + |Encode(f)| <= |s| && s[i..i + |Encode(f)|] == Encode(f)
    ensures FrameAt(s, i) == Some((f, i + |Encode(f)|))
  {
    hide HeadAt, Encode;
    EncodeHeads(s, i, f);
    EncodeParts(f);
    SliceOfSlice(s, i, Encode(f), |Encode(f)| - |f.payload|, |Encode(f)|);
    MaskTwice(f.payload, f.mask);
  }

  lemma ByteParts(b: u8)
    ensures b == (if b >= 128 then 128 else 0) + b / 16 % 8 * 16 + b % 16
    ensures b == (if b >= 128 then 128 else 0) + b % 128
  {
  }

  lemma ReadFields(s: Bytes, i: nat, f: Frame, e: nat)
    requires i <= |s| && FrameAt(s, i) == Some((f, e))
    ensures f.fin == (s[i] >= 128) && f.reserved == s[i] / 16 % 8 && f.op == s[i] % 16 && f.form == FormOf(s[i + 1])
    ensures
      var j := i + 2 + LengthBytes(f.form);
      var k := j + if s[i + 1] >= 128 then 4 else 0;
      && k <= e == k + |f.payload| && f.mask == s[j..k] && f.payload == Masked(s[k..e], f.mask)
      && |f.payload| == if f.form.Short? then s[i + 1] % 128 else BigValue(s[i + 2..j])
  {
  }

  lemma ReadHead(s: Bytes, i: nat, f: Frame, e: nat)
    requires i <= |s| && FrameAt(s, i) == Some((f, e))
    ensures ValidFrame(f) && First(f) == s[i] && Second(f) == s[i + 1]
    ensures
      var j := i + 2 + LengthBytes(f.form);
      var k := j + |f.mask|;
      k <= e == k + |f.payload| && s[i + 2..j] == Big(LengthBytes(f.form), |f.payload|)
      && s[j..k] == f.mask && f.payload == Masked(s[k..e], f.mask)
  {
    hide FrameAt, Masked;
    ReadFields(s, i, f, e);
    BigWrites(s[i + 2..i + 2 + LengthBytes(f.form)]);
    ByteParts(s[i]);
    ByteParts(s[i + 1]);
  }

  lemma Reassemble(s: Bytes, i: nat, j: nat, k: nat, e: nat)
    requires i + 2 <= j <= k <= e <= |s|
    ensures s[i..e] == ([s[i], s[i + 1]] + s[i + 2..j] + s[j..k]) + s[k..e]
  {
  }

  /** And nothing else reads as that frame: what was read is the encoding of the result. */
  lemma ReadsEncode(s: Bytes, i: nat, f: Frame, e: nat)
    requires i <= |s| && FrameAt(s, i) == Some((f, e))
    ensures ValidFrame(f) && e == i + |Encode(f)| && s[i..e] == Encode(f)
  {
    ReadHead(s, i, f, e);
    var j := i + 2 + LengthBytes(f.form);
    var k := j + |f.mask|;
    MaskTwice(s[k..e], f.mask);
    Reassemble(s, i, j, k, e);
  }

  // ----- messages -----

  /** What recv_message holds after one more frame: text and continuations that still fit are
      appended, and everything else throws away what was there. */
  function Taken(kept: Bytes, f: Frame, cap: nat): (r: Bytes)
    requires |kept| <= cap
    ensures |r| <= cap
  {
    if (f.op == TEXT || f.op == CONTINUATION) && |f.payload| <= cap - |kept| then kept + f.payload else []
  }

  /** The result of recv_message on the stream from position i, and where it stops; None is -1. */
  function Message(s: Bytes, i: nat, kept: Bytes, cap: nat): (r: Option<(Bytes, nat)>)
    requires i <= |s| && |kept| <= cap
    ensures r.Some? ==> |r.value.0| <= cap && r.value.1 <= |s|
    decreases |s| - i
  {
    match FrameAt(s, i)
    case None => None
    case Some((f, e)) =>
      if f.op == CLOSE then None
      else if f.fin then Some((Taken(kept, f, cap), e))
      else Message(s, e, Taken(kept, f, cap), cap)
  }

  /** The same in terms of the head that comes first. */
  lemma MessageAtHead(s: Bytes, i: nat, kept: Bytes, cap: nat)
    requires i <= |s| && |kept| <= cap
    ensures
      match HeadAt(s, i)
      case None => Message(s, i, kept, cap) == None
      case Some(h) =>
        if h.op == CLOSE || h.body + h.n > |s| then Message(s, i, kept, cap) == None
        else
          var e := h.body + h.n;
          var taken := if (h.op == TEXT || h.op == CONTINUATION) && h.n <= cap - |kept|
                       then kept + Masked(s[h.body..e], h.mask) else [];
          Message(s, i, kept, cap) == if h.fin then Some((taken, e)) else Message(s, e, taken, cap)
  {
    hide HeadAt;
  }

  function EncodeAll(frames: seq<Frame>): Bytes
    requires forall k :: 0 <= k < |frames| ==> ValidFrame(frames[k])
  {
    if frames == [] then [] else Encode(frames[0]) + EncodeAll(frames[1..])
  }

  /** The frames of one message as section 5.4 of RFC 6455 lays them out, except that control frames
      may stand anywhere: only the last has the FIN bit, and none closes the connection. */
  predicate Proper(frames: seq<Frame>) {
    && frames != []
    && forall k :: 0 <= k < |frames| ==>
         ValidFrame(frames[k]) && frames[k].op != CLOSE && frames[k].fin == (k == |frames| - 1)
  }

  function Fold(kept: Bytes, frames: seq<Frame>, cap: nat): (r: Bytes)
    requires |kept| <= cap
    ensures |r| <= cap
    decreases |frames|
  {
    if frames == [] then kept else Fold(Taken(kept, frames[0], cap), frames[1..], cap)
  }

  lemma SplitEncoding(s: Bytes, i: nat, x: Bytes, y: Bytes)
    requires i + |x + y| <= |s| && s[i..i + |x + y|] == x + y
    ensures s[i..i + |x|] == x && s[i + |x|..i + |x| + |y|] == y
  {
    SliceOfSlice(s, i, x + y, 0, |x|);
    SliceOfSlice(s, i, x + y, |x|, |x| + |y|);
  }

  lemma MessageStep(s: Bytes, i: nat, kept: Bytes, cap: nat, f: Frame, e: nat)
    requires i <= |s| && |kept| <= cap && FrameAt(s, i) == Some((f, e)) && f.op != CLOSE
    ensures Message(s, i, kept, cap)
         == if f.fin then Some((Taken(kept, f, cap), e)) else Message(s, e, Taken(kept, f, cap), cap)
  {
    hide FrameAt, Encode;
  }

  lemma ProperHead(frames: seq<Frame>)
    requires Proper(frames)
    ensures ValidFrame(frames[0]) && frames[0].op != CLOSE && frames[0].fin == (|frames| == 1)
    ensures EncodeAll(frames) == Encode(frames[0]) + EncodeAll(frames[1..])
    ensures if |frames| == 1 then EncodeAll(frames) == Encode(frames[0]) else Proper(frames[1..])
  {
  }

  lemma FirstFrameReads(s: Bytes, i: nat, frames: seq<Frame>)
    requires Proper(frames)
    requires i + |EncodeAll(frames)| <= |s| && s[i..i + |EncodeAll(frames)|] == EncodeAll(frames)
    ensures ValidFrame(frames[0]) && i + |Encode(frames[0])| <= |s|
    ensures FrameAt(s, i) == Some((frames[0], i + |Encode(frames[0])|))
    ensures
      var j, rest := i + |Encode(frames[0])|, EncodeAll(frames[1..]);
      j + |rest| == i + |EncodeAll(frames)| && s[j..j + |rest|] == rest
  {
    hide FrameAt, Encode;
    ProperHead(frames);
    SplitEncoding(s, i, Encode(frames[0]), EncodeAll(frames[1..]));
    EncodeReads(s, i, frames[0]);
  }

  /** A stream that starts with the frames of a message yields it and stops behind the last frame. */
  lemma {:induction false} MessageReads(s: Bytes, i: nat, frames: seq<Frame>, kept: Bytes, cap: nat)
    requires Proper(frames) && |kept| <= cap
    requires i + |EncodeAll(frames)| <= |s| && s[i..i + |EncodeAll(frames)|] == EncodeAll(frames)
    ensures Message(s, i, kept, cap) == Some((Fold(kept, frames, cap), i + |EncodeAll(frames)|))
    decreases |frames|
  {
    hide FrameAt, Encode;
    var f, rest := frames[0], frames[1..];
    ProperHead(frames);
    FirstFrameReads(s, i, frames);
    var e := i + |Encode(f)|;
    MessageStep(s, i, kept, cap, f, e);
    if |frames| > 1 {
      MessageReads(s, e, rest, Taken(kept, f, cap), cap);
    }
  }

  lemma JoinSlices(s: Bytes, i: nat, m: nat, e: nat)
    requires i <= m <= e <= |s|
    ensures s[i..m] + s[m..e] == s[i..e]
  {
  }

  /** On any stream at all: when a message comes out, the bytes used are whole frames of one message. */
  lemma {:induction false} MessageWasFrames(s: Bytes, i: nat, kept: Bytes, cap: nat) returns (frames: seq<Frame>)
    requires i <= |s| && |kept| <= cap && Message(s, i, kept, cap).Some?
    ensures
      var (m, e) := Message(s, i, kept, cap).value;
      Proper(frames) && i <= e && s[i..e] == EncodeAll(frames) && m == Fold(kept, frames, cap)
    decreases |s| - i
  {
    hide FrameAt, Encode;
    var (f, e) := FrameAt(s, i).value;
    ReadsEncode(s, i, f, e);
    if f.fin {
      frames := [f];
      assert EncodeAll([f]) == Encode(f) + [];
    } else {
      var rest := MessageWasFrames(s, e, Taken(kept, f, cap), cap);
      frames := [f] + rest;
      assert frames[1..] == rest;
      JoinSlices(s, i, e, Message(s, i, kept, cap).value.1);
    }
  }

  function Total(frames: seq<Frame>): Bytes {
    if frames == [] then [] else frames[0].payload + Total(frames[1..])
  }

  /** Without control frames, and when all of it fits, nothing is thrown away. */
  lemma {:induction false} FoldIsTotal(kept: Bytes, frames: seq<Frame>, cap: nat)
    requires |kept| + |Total(frames)| <= cap
    requires forall k :: 0 <= k < |frames| ==> frames[k].op == TEXT || frames[k].op == CONTINUATION
    ensures Fold(kept, frames, cap) == kept + Total(frames)
    decreases |frames|
  {
    if frames == [] {
    } else {
      var f, rest := frames[0], frames[1..];
      FoldIsTotal(kept + f.payload, rest, cap);
      assert (kept + f.payload) + Total(rest) == kept + (f.payload + Total(rest));
    }
  }

  /** A fragmented text arrives whole, however its frames are masked and their lengths written. */
  lemma FragmentsArriveWhole(before: Bytes, frames: seq<Frame>, after: Bytes, cap: nat)
    requires Proper(frames) && |Total(frames)| <= cap
    requires forall k :: 0 <= k < |frames| ==> frames[k].op == TEXT || frames[k].op == CONTINUATION
    ensures Message(before + EncodeAll(frames) + after, |before|, [], cap)
         == Some((Total(frames), |before| + |EncodeAll(frames)|))
  {
    hide FrameAt, Encode;
    var s := before + EncodeAll(frames) + after;
    MessageReads(s, |before|, frames, [], cap);
    FoldOfAll(frames, cap);
  }

  lemma FoldOfAll(frames: seq<Frame>, cap: nat)
    requires |Total(frames)| <= cap
    requires forall k :: 0 <= k < |frames| ==> frames[k].op == TEXT || frames[k].op == CONTINUATION
    ensures Fold([], frames, cap) == Total(frames)
  {
    FoldIsTotal([], frames, cap);
    assert [] + Total(frames) == Total(frames);
  }

  // ----- the two ends -----

  /** What send_text puts on the wire: one masked text frame with the shortest length form. */
  function TextFrame(text: Bytes, mask: Bytes): Frame {
    Frame(true, 0, TEXT, if |text| < 126 then Short else if |text| < 65536 then Medium else Long, mask, text)
  }

  lemma TextFrameIsProper(text: Bytes, mask: Bytes)
    requires |mask| == 4 && |text| < Limit(8)
    ensures var f := TextFrame(text, mask); Proper([f]) && EncodeAll([f]) == Encode(f) && Total([f]) == text
  {
    var f := TextFrame(text, mask);
    assert Limit(2) == 65536 by { assert Limit(1) == 256; }
    assert ValidFrame(f);
    assert EncodeAll([f]) == Encode(f) + [];
    assert Total([f]) == text + [];
  }

  /** What one end sends the other end receives, and the stream is left behind the frame. */
  /** Section 5.2 of RFC 6455, for one text frame with FIN and a mask: the shortest length form, the
      key, and every bit of the body. */
  predicate OnTheWire(s: Bytes, text: Bytes, mask: Bytes)
    requires |mask| == 4
  {
    var n := |text|;
    var h: nat := if n < 126 then 2 else if n < 65536 then 4 else 10;
    && |s| == h + 4 + n && s[0] == 0x81
    && s[1] == (if h == 2 then 0x80 + n else if h == 4 then 0xFE else 0xFF) && LengthBits(s, h, n)
    && s[h..h + 4] == mask && MaskedBits(s[h + 4..], text, mask)
  }

  /** The length field that ends at h, highest byte first; in the short form there is none. */
  predicate LengthBits(s: Bytes, h: nat, n: nat)
    requires h <= |s| && (h == 2 || h == 4 || h == 10)
  {
    || h == 2
    || (h == 4 && TwoBytes(s, 2) == n)
    || (h == 10
        && ((TwoBytes(s, 2) * 65536 + TwoBytes(s, 4)) * 65536 + TwoBytes(s, 6)) * 65536 + TwoBytes(s, 8) == n)
  }

  function TwoBytes(s: Bytes, i: nat): int
    requires i + 2 <= |s|
  {
    var high: int, low: int := s[i], s[i + 1];
    high * 256 + low
  }

  lemma BigOfTwo(s: Bytes)
    requires |s| == 2
    ensures BigValue(s) == TwoBytes(s, 0)
  {
    assert s[..1][..0] == [];
    assert BigValue(s[..1]) == s[0];
  }

  lemma BigOfMore(s: Bytes)
    requires |s| >= 2
    ensures BigValue(s) == BigValue(s[..|s| - 2]) * 65536 + TwoBytes(s, |s| - 2)
  {
    var n := |s|;
    assert s[..n - 1][..n - 2] == s[..n - 2] && s[..n - 1][n - 2] == s[n - 2];
  }

  lemma BigOfEight(s: Bytes)
    requires |s| == 8
    ensures BigValue(s)
         == ((TwoBytes(s, 0) * 65536 + TwoBytes(s, 2)) * 65536 + TwoBytes(s, 4)) * 65536 + TwoBytes(s, 6)
  {
    hide BigValue;
    BigOfMore(s);
    BigOfMore(s[..6]);
    assert s[..6][..4] == s[..4];
    BigOfMore(s[..4]);
    assert s[..4][..2] == s[..2];
    BigOfTwo(s[..2]);
  }

  /** The length field of a text frame, as written and as the standard reads it. */
  lemma LengthOnTheWire(s: Bytes, k: nat, n: nat)
    requires |s| == k && (k == 2 || k == 8) && n < Limit(k)
    ensures s == Big(k, n) <==>
            n == if k == 2 then TwoBytes(s, 0)
                 else ((TwoBytes(s, 0) * 65536 + TwoBytes(s, 2)) * 65536 + TwoBytes(s, 4)) * 65536 + TwoBytes(s, 6)
  {
    hide TwoBytes, Big, BigValue, Limit;
    BigReads(k, n);
    BigWrites(s);
    if k == 2 {
      BigOfTwo(s);
    } else {
      BigOfEight(s);
    }
  }

  lemma SamePieces(s: Bytes, e: Bytes, h: nat)
    requires 2 <= h && h + 4 <= |s| == |e|
    ensures s == e <==>
      s[0] == e[0] && s[1] == e[1] && s[2..h] == e[2..h] && s[h..h + 4] == e[h..h + 4] && s[h + 4..] == e[h + 4..]
  {
    assert s == [s[0], s[1]] + s[2..h] + s[h..h + 4] + s[h + 4..];
    assert e == [e[0], e[1]] + e[2..h] + e[h..h + 4] + e[h + 4..];
  }

  lemma TextHeadBytes(text: Bytes, mask: Bytes)
    requires |mask| == 4 && |text| < Limit(8)
    ensures
      var f := TextFrame(text, mask);
      && ValidFrame(f) && First(f) == 0x81
      && Second(f) == (if |text| < 126 then 0x80 + |text| else if |text| < 65536 then 0xFE else 0xFF)
      && LengthBytes(f.form) == (if |text| < 126 then 0 else if |text| < 65536 then 2 else 8)
  {
    TextFrameIsProper(text, mask);
  }

  lemma LengthPiece(s: Bytes, h: nat, n: nat)
    requires h <= |s| && (h == 2 || h == 4 || h == 10) && n < Limit(8) && (h == 4 ==> n < 65536)
    ensures s[2..h] == Big(h - 2, n) <==> LengthBits(s, h, n)
  {
    hide Big;
    if h == 4 {
      assert Limit(2) == 65536 by { assert Limit(1) == 256; }
    }
    var field := s[2..h];
    if h == 2 {
      assert |Big(0, n)| == 0;
    } else {
      LengthOnTheWire(field, h - 2, n);
      assert TwoBytes(field, 0) == TwoBytes(s, 2);
      if h == 10 {
        assert TwoBytes(field, 2) == TwoBytes(s, 4) && TwoBytes(field, 4) == TwoBytes(s, 6);
        assert TwoBytes(field, 6) == TwoBytes(s, 8);
      }
    }
  }

  /** What is sent for a text is what the standard demands, and nothing else meets that. */
  lemma TextOnTheWire(s: Bytes, text: Bytes, mask: Bytes)
    requires |mask| == 4 && |text| < Limit(8)
    ensures ValidFrame(TextFrame(text, mask))
    ensures OnTheWire(s, text, mask) <==> s == Encode(TextFrame(text, mask))
  {
    hide First, Second, Encode, Masked, MaskedBits, LengthBits, Limit, Big, ValidFrame;
    var f := TextFrame(text, mask);
    var h: nat := 2 + LengthBytes(f.form);
    TextHeadBytes(text, mask);
    EncodeParts(f);
    if |s| == h + 4 + |text| {
      SamePieces(s, Encode(f), h);
      LengthPiece(s, h, |text|);
      MaskedIsBits(s[h + 4..], text, mask);
    }
  }

  lemma SentTextReads(text: Bytes, mask: Bytes, before: Bytes, after: Bytes, cap: nat)
    requires |mask| == 4 && |text| < Limit(8) && |text| <= cap && ValidFrame(TextFrame(text, mask))
    ensures var wire := Encode(TextFrame(text, mask));
            Message(before + wire + after, |before|, [], cap) == Some((text, |before| + |wire|))
  {
    hide FrameAt, Encode;
    TextFrameIsProper(text, mask);
    FragmentsArriveWhole(before, [TextFrame(text, mask)], after, cap);
  }

  /** Whatever has that form arrives as the text, wherever it lies in the stream. */
  lemma WireTextArrives(input: Bytes, at: nat, end: nat, text: Bytes, mask: Bytes, cap: nat)
    requires at <= end <= |input| && |mask| == 4 && |text| < Limit(8) && |text| <= cap
    requires OnTheWire(input[at..end], text, mask)
    ensures Message(input, at, [], cap) == Some((text, end))
  {
    hide OnTheWire, Encode, Message, Limit;
    TextOnTheWire(input[at..end], text, mask);
    SentTextReads(text, mask, input[..at], input[end..], cap);
    assert input[..at] + input[at..end] + input[end..] == input;
  }

  /** One connection: the bytes the peer sends before it closes or the deadline passes, the
      position read so far, and the bytes written. */
  class Connection {
    const input: Bytes
    var at: nat
    var sent: Bytes

    constructor (input: Bytes)
      ensures this.input == input && at == 0 && sent == []
    {
      this.input := input;
      at, sent := 0, [];
    }

    /** recv_all: n bytes, or failure when the stream ends before them. */
    method RecvAll(n: nat) returns (ok: bool, bytes: Bytes)
      requires at <= |input|
      modifies this`at
      ensures at <= |input| && ok == (old(at) + n <= |input|)
      ensures ok ==> at == old(at) + n && bytes == input[old(at)..at]
    {
      if n > |input| - at {
        at := |input|;
        return false, [];
      }
      at := at + n;
      return true, input[at - n..at];
    }

    /** The extended length, eight bits at a time. */
    method RecvLength(second: u8) returns (ok: bool, n: nat)
      requires at <= |input|
      modifies this`at
      ensures at <= |input| && ok == (old(at) + LengthBytes(FormOf(second)) <= |input|)
      ensures ok ==> at == old(at) + LengthBytes(FormOf(second))
      ensures ok ==> n == if FormOf(second).Short? then second % 128 else BigValue(input[old(at)..at])
    {
      n := second % 128;
      ok := true;
      if n >= 126 {
        var e;
        ok, e := RecvAll(if n == 126 then 2 else 8);
        if ok {
          n := 0;
          for i := 0 to |e|
            invariant n == BigValue(e[..i])
          {
            assert e[..i + 1][..i] == e[..i];
            n := n * 256 + e[i];
          }
          assert e[..|e|] == e;
        }
      }
    }

    /** The two fixed bytes, the extended length and the mask. */
    method RecvHead() returns (head: Option<Head>)
      requires at <= |input|
      modifies this`at
      ensures at <= |input| && head == HeadAt(input, old(at)) && (head.Some? ==> at == head.value.body)
    {
      var ok, h := RecvAll(2);
      if !ok {
        return None;
      }
      var n;
      ok, n := RecvLength(h[1]);
      if !ok {
        return None;
      }
      var mask := [];
      if h[1] >= 128 {
        ok, mask := RecvAll(4);
        if !ok {
          return None;
        }
      }
      return Some(Head(h[0] >= 128, h[0] / 16 % 8, h[0] % 16, FormOf(h[1]), mask, n, at));
    }

    /** Reads and forgets a payload, in pieces of at most 4096 bytes. */
    method Drain(size: nat) returns (ok: bool)
      requires at <= |input|
      modifies this`at
      ensures at <= |input| && ok == (old(at) + size <= |input|) && (ok ==> at == old(at) + size)
    {
      var n := size;
      ok := true;
      while n > 0
        invariant at <= |input| && at + n == old(at) + size
      {
        var chunk := if n < 4096 then n else 4096;
        var sink;
        ok, sink := RecvAll(chunk);
        if !ok {
          return;
        }
        n := n - chunk;
      }
    }

    /** recv_message: -1 when the stream ends or closes first, else the length of what is in out. */
    method RecvMessage(out: array<u8>) returns (r: int)
      requires at <= |input|
      modifies this`at, out
      ensures at <= |input|
      ensures
        match Message(input, old(at), [], out.Length)
        case None => r == -1
        case Some((m, e)) => r == |m| && at == e && out[..r] == m
    {
      hide Message, HeadAt, Masked;
      var len: nat := 0;
      while true
        invariant at <= |input| && len <= out.Length
        invariant Message(input, old(at), [], out.Length) == Message(input, at, out[..len], out.Length)
        decreases |input| - at
      {
        ghost var from, kept := at, out[..len];
        var head := RecvHead();
        MessageAtHead(input, from, kept, out.Length);
        if head.None? {
          return -1;
        }
        var h := head.value;
        if h.op == CLOSE {
          return -1;
        }
        var ok;
        if (h.op == TEXT || h.op == CONTINUATION) && h.n <= out.Length - len {
          var data;
          ok, data := RecvAll(h.n);
          if !ok {
            return -1;
          }
          Keep(out, len, data, h.mask);
          len := len + h.n;
        } else {
          ok := Drain(h.n);
          if !ok {
            return -1;
          }
          len := 0;
        }
        if h.fin {
          return len;
        }
      }
    }

    static method Copy(out: array<u8>, len: nat, data: Bytes)
      requires len + |data| <= out.Length
      modifies out
      ensures out[..len] == old(out[..len]) && out[len..len + |data|] == data
    {
      for i := 0 to |data|
        invariant out[..len] == old(out[..len]) && out[len..len + i] == data[..i]
      {
        out[len + i] := data[i];
      }
    }

    /** Copies the data behind what is already there and takes the mask off in place. */
    static method Keep(out: array<u8>, len: nat, data: Bytes, mask: Bytes)
      requires IsMask(mask) && len + |data| <= out.Length
      modifies out
      ensures out[..len + |data|] == old(out[..len]) + Masked(data, mask)
      ensures mask == [] ==> out[len..len + |data|] == data
      ensures mask != [] ==> MaskedBits(out[len..len + |data|], data, mask)
    {
      Copy(out, len, data);
      if mask != [] {
        Unmask(out, len, |data|, mask);
      }
      assert out[..len + |data|] == out[..len] + out[len..len + |data|];
      forall j | 0 <= j < |data|
        ensures out[len..len + |data|][j] == Masked(data, mask)[j]
      {
        assert out[len + j] == out[len..len + |data|][j];
      }
      assert out[len..len + |data|] == Masked(data, mask);
      if mask != [] {
        MaskedIsBits(out[len..len + |data|], data, mask);
      }
    }

    static method Unmask(out: array<u8>, len: nat, n: nat, mask: Bytes)
      requires |mask| == 4 && len + n <= out.Length
      modifies out
      ensures out[..len] == old(out[..len])
      ensures forall p :: len <= p < len + n ==> out[p] == MaskByte(old(out[p]), mask[(p - len) % 4])
    {
      hide MaskByte;
      for i := len to len + n
        invariant out[..len] == old(out[..len])
        invariant forall p :: len <= p < len + n ==>
          out[p] == if p < i then MaskByte(old(out[p]), mask[(p - len) % 4]) else old(out[p])
      {
        out[i] := MaskByte(out[i], mask[(i - len) % 4]);
      }
    }

    /** send_text: the header, the mask and the masked body of one text frame. */
    method SendText(text: Bytes, mask: Bytes)
      requires |mask| == 4 && |text| < Limit(8)
      modifies this`sent
      ensures ValidFrame(TextFrame(text, mask)) && sent == old(sent) + Encode(TextFrame(text, mask))
      ensures old(sent) <= sent && OnTheWire(sent[|old(sent)|..], text, mask)
    {
      hide Masked, Limit, OnTheWire;
      TextFrameIsProper(text, mask);
      var header := TextHeader(text, mask);
      var body := MaskBody(text, mask);
      ghost var before := sent;
      sent := sent + (header + body);
      assert sent[|before|..] == header + body;
      TextOnTheWire(header + body, text, mask);
    }

    static method TextHeader(text: Bytes, mask: Bytes) returns (header: Bytes)
      requires |mask| == 4 && ValidFrame(TextFrame(text, mask))
      ensures header == HeadBytes(TextFrame(text, mask))
    {
      hide Limit;
      var n := |text|;
      header := [0x81];
      if n < 126 {
        header := header + [0x80 + n];
      } else if n < 65536 {
        header := header + [0x80 + 126, n / 256 % 256, n % 256];
        BigTwo(n);
      } else {
        header := header + [0x80 + 127];
        var bytes := [];
        for i := 0 to 8
          invariant bytes == Big(8, n)[..i]
        {
          BigByte(8, n, i);
          bytes := bytes + [n / Limit(7 - i) % 256];
        }
        header := header + bytes;
      }
      header := header + mask;
    }

    static method MaskBody(text: Bytes, mask: Bytes) returns (body: Bytes)
      requires |mask| == 4
      ensures body == Masked(text, mask)
    {
      body := [];
      for i := 0 to |text|
        invariant |body| == i && forall j :: 0 <= j < i ==> body[j] == MaskByte(text[j], mask[j % 4])
      {
        body := body + [MaskByte(text[i], mask[i % 4])];
      }
    }
  }

  lemma BigTwo(n: nat)
    ensures Big(2, n) == [n / 256 % 256, n % 256]
  {
    assert Big(1, n / 256) == [] + [n / 256 % 256];
  }

  /** Byte i of the big-endian form is what shifting the number right leaves in its low byte. */
  lemma {:induction false} BigByte(k: nat, v: nat, i: nat)
    requires i < k
    ensures Big(k, v)[i] == v / Limit(k - 1 - i) % 256
    decreases k
  {
    if i < k - 1 {
      BigByte(k - 1, v / 256, i);
      DivDiv(v, 256, Limit(k - 2 - i));
    }
  }
}
