/** The replies the decoder helpers write, field by field (app/image.c:73-78, app/pdf.c:83-110,
    app/math_shim.cpp:409-415, app/fbx_helper.c:138-146, app/archive.c:196-201; the formats in
    app/decoder_ipc.h:52-85), and that the transport takes these and nothing else. */
module ReplyForms {
  import opened Wire
  import opened Reply

  /** What a helper says: two numbers, for a document its page count, and the data. */
  datatype Answer = Answer(first: u32, second: u32, pages: seq<u32>, data: seq<u8>)

  /** The reply: magic, the two numbers, the size of what follows, and that. */
  function Written(kind: Kind, a: Answer): seq<u8>
    requires |a.pages| <= 1 && 4 * |a.pages| + |a.data| < 0x1_0000_0000
  {
    var body := (if a.pages == [] then [] else Put32(a.pages[0])) + a.data;
    Magic(kind) + Put32(a.first) + Put32(a.second) + Put32(|body|) + body
  }

  /** Pixels of four bytes each, no side empty or beyond its limit. */
  predicate Picture(a: Answer, width: nat, height: nat, cap: nat) {
    && 0 < a.first <= width && 0 < a.second <= height
    && |a.data| == 4 * (a.first * a.second) && |a.data| <= cap
  }

  /** The answer is one to the question that was asked. */
  predicate Meets(e: Wanted, a: Answer) {
    && 4 * |a.pages| + |a.data| < 0x1_0000_0000
    && (if e.kind.Pdf? then |a.pages| == 1 && e.index < a.pages[0] <= 10000 else a.pages == [])
    && match e.kind {
         case Image => Picture(a, e.dimension, e.dimension, e.cap)
         case Math => Picture(a, e.dimension, e.dimension, e.cap)
         case Pdf =>
           Picture(a, e.dimension, if 0 < e.targetHeight < 32768 then e.targetHeight else 32768, e.cap)
         case Mesh => a.first == 1 && a.second == 0 && |a.data| <= e.cap
         case Model => a.first == e.index && a.second == e.sequence && |a.data| <= e.cap
         case Archive =>
           && |a.data| <= e.cap
           && if e.op.List?
              then a.first <= 2000 && a.second == 0 && 17 * a.first <= |a.data| && (a.first == 0 ==> a.data == [])
              else a.first == 0 && a.second == e.index
       }
  }

  ghost predicate IsWritten(e: Wanted, s: seq<u8>) {
    exists a :: Meets(e, a) && s == Written(e.kind, a)
  }

  /** The answer that a stream spells. */
  function Read(kind: Kind, s: seq<u8>): Answer
    requires |s| >= HEADER + Prefix(kind)
  {
    Answer(U32At(s, 4), U32At(s, 8), if kind.Pdf? then [U32At(s, HEADER)] else [], s[HEADER + Prefix(kind)..])
  }

  lemma FieldReads(s: seq<u8>, i: nat, n: u32)
    requires i + 4 <= |s| && s[i..i + 4] == Put32(n)
    ensures U32At(s, i) == n
  {
    PutGet(n);
    U32Slice(s, i, i + 4, 0);
  }

  lemma WrittenReads(kind: Kind, a: Answer)
    requires 4 * |a.pages| + |a.data| < 0x1_0000_0000 && |a.pages| == (if kind.Pdf? then 1 else 0)
    ensures
      var s := Written(kind, a);
      && |s| == HEADER + Prefix(kind) + |a.data| && s[..4] == Magic(kind)
      && U32At(s, 12) == Prefix(kind) + |a.data| && Read(kind, s) == a
  {
    hide Magic, Put32, U32At;
    var s := Written(kind, a);
    var size := 4 * |a.pages| + |a.data|;
    assert s[4..8] == Put32(a.first) && s[8..12] == Put32(a.second) && s[12..16] == Put32(size);
    FieldReads(s, 4, a.first);
    FieldReads(s, 8, a.second);
    FieldReads(s, 12, size);
    if kind.Pdf? {
      assert s[16..20] == Put32(a.pages[0]);
      FieldReads(s, 16, a.pages[0]);
    }
  }

  lemma ReadWrites(kind: Kind, s: seq<u8>)
    requires |s| >= HEADER + Prefix(kind) && s[..4] == Magic(kind) && |s| == HEADER + U32At(s, 12)
    ensures Written(kind, Read(kind, s)) == s
  {
    hide Magic, Put32, U32At;
    GetPut(s, 4);
    GetPut(s, 8);
    GetPut(s, 12);
    if kind.Pdf? {
      GetPut(s, 16);
      assert s[16..] == s[16..20] + s[20..];
    }
    assert s == s[..4] + s[4..8] + s[8..12] + s[12..16] + s[16..];
  }

  lemma AreaOfFour(a: int, b: int)
    ensures a * b * 4 == 4 * (a * b)
  {
  }

  /** A stream is valid when what it spells meets the question. */
  lemma ValidIffMeets(e: Wanted, s: seq<u8>)
    requires |s| >= HEADER + Prefix(e.kind) && |s| == HEADER + U32At(s, 12)
    ensures ValidReply(e, s) <==> s[..4] == Magic(e.kind) && Meets(e, Read(e.kind, s))
  {
    hide Magic, U32At;
    AreaOfFour(U32At(s, 4), U32At(s, 8));
  }

  lemma ValidIsLong(e: Wanted, s: seq<u8>)
    requires ValidReply(e, s)
    ensures |s| >= HEADER + Prefix(e.kind) && s[..4] == Magic(e.kind) && |s| == HEADER + U32At(s, 12)
  {
  }

  lemma MeetsShape(e: Wanted, a: Answer)
    requires Meets(e, a)
    ensures 4 * |a.pages| + |a.data| < 0x1_0000_0000 && |a.pages| == (if e.kind.Pdf? then 1 else 0)
  {
  }

  /** A written answer to the question is accepted, and its data handed on. */
  lemma WrittenIsTaken(e: Wanted, a: Answer)
    requires Meets(e, a)
    ensures ValidReply(e, Written(e.kind, a)) && Payload(e, Written(e.kind, a)) == a.data
  {
    hide ValidReply, Meets, Written;
    MeetsShape(e, a);
    WrittenReads(e.kind, a);
    ValidIffMeets(e, Written(e.kind, a));
  }

  /** And nothing else is accepted. */
  lemma ValidIffWritten(e: Wanted, s: seq<u8>)
    ensures ValidReply(e, s) <==> IsWritten(e, s)
  {
    hide ValidReply, Meets, Written;
    if ValidReply(e, s) {
      ValidIsLong(e, s);
      ReadWrites(e.kind, s);
      ValidIffMeets(e, s);
      assert Meets(e, Read(e.kind, s));
    } else {
      UnwrittenIsRefused(e, s);
    }
  }

  lemma UnwrittenIsRefused(e: Wanted, s: seq<u8>)
    requires !ValidReply(e, s)
    ensures !IsWritten(e, s)
  {
    hide ValidReply, Written;
    if IsWritten(e, s) {
      var a :| Meets(e, a) && s == Written(e.kind, a);
      WrittenIsTaken(e, a);
    }
  }
}
