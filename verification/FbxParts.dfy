/** The parts of the model helper's scene description: how the app reads each (app/fbx.odin:74-133,
    187-212), and that it reads exactly what is written. */
module FbxParts {
  import opened Options
  import opened Wire
  import opened FbxWriter

  /** What was read, and where the next thing starts. */
  datatype Parsed<T> = Parsed(value: T, next: nat)

  // ----- stretches of a stream -----

  predicate Here(s: Bytes, at: nat, x: Bytes) {
    at + |x| <= |s| && s[at..at + |x|] == x
  }

  lemma HereJoin(s: Bytes, at: nat, x: Bytes, y: Bytes)
    ensures Here(s, at, x + y) <==> Here(s, at, x) && Here(s, at + |x|, y)
  {
    if Here(s, at, x + y) {
      assert s[at..at + |x|] == s[at..at + |x + y|][..|x|];
      assert s[at + |x|..at + |x| + |y|] == s[at..at + |x + y|][|x|..];
    }
  }

  // ----- the reader, piece by piece -----

  function ReadU32(s: Bytes, at: nat): Option<Parsed<u32>> {
    if at + 4 <= |s| then Some(Parsed(U32At(s, at), at + 4)) else None
  }

  function ReadWords(s: Bytes, at: nat, n: nat): Option<Parsed<seq<u32>>> {
    if n == 0 then if at <= |s| then Some(Parsed([], at)) else None
    else
      match ReadWords(s, at, n - 1)
      case None => None
      case Some(r) =>
        match ReadU32(s, r.next)
        case None => None
        case Some(v) => Some(Parsed(r.value + [v.value], v.next))
  }

  predicate AllFinite(bits: seq<u32>) {
    forall i :: 0 <= i < |bits| ==> Finite32(bits[i])
  }

  /** An index of -1 means none; the bits of -1 are all ones. */
  predicate Index(bits: u32, count: nat) {
    bits == 0xFFFF_FFFF || bits < count
  }

  predicate AllIndices(bits: seq<u32>, count: nat) {
    forall i :: 0 <= i < |bits| ==> Index(bits[i], count)
  }

  function ReadFloats(s: Bytes, at: nat, n: nat): Option<Parsed<seq<u32>>> {
    match ReadWords(s, at, n)
    case None => None
    case Some(r) => if AllFinite(r.value) then Some(r) else None
  }

  function ReadIndices(s: Bytes, at: nat, n: nat, count: nat): Option<Parsed<seq<u32>>> {
    match ReadWords(s, at, n)
    case None => None
    case Some(r) => if AllIndices(r.value, count) then Some(r) else None
  }

  function ReadDouble(s: Bytes, at: nat): Option<Parsed<(u32, u32)>> {
    if at + 8 > |s| then None
    else
      var low, high := U32At(s, at), U32At(s, at + 4);
      if Finite64(low, high) then Some(Parsed((low, high), at + 8)) else None
  }

  predicate GoodText(utf8: Bytes -> bool, text: Bytes) {
    |text| <= 4096 && utf8(text) && forall i :: 0 <= i < |text| ==> text[i] != 0
  }

  function ReadText(utf8: Bytes -> bool, s: Bytes, at: nat): Option<Parsed<Bytes>> {
    if at + 4 > |s| then None
    else
      var n := U32At(s, at);
      if at + 4 + n > |s| || !GoodText(utf8, s[at + 4..at + 4 + n]) then None
      else Some(Parsed(s[at + 4..at + 4 + n], at + 4 + n))
  }

  /** The order of finite doubles by their bits: sign and magnitude. */
  function Rank(low: u32, high: u32): int {
    var magnitude := high % 0x8000_0000 * 0x1_0000_0000 + low;
    if high >= 0x8000_0000 then -magnitude else magnitude
  }

  predicate Ordered(begin: (u32, u32), end: (u32, u32)) {
    Rank(begin.0, begin.1) <= Rank(end.0, end.1)
  }

  function ReadTake(utf8: Bytes -> bool, s: Bytes, at: nat): Option<Parsed<Take>> {
    match ReadDouble(s, at)
    case None => None
    case Some(begin) =>
      match ReadDouble(s, begin.next)
      case None => None
      case Some(end) =>
        if !Ordered(begin.value, end.value) then None
        else
          match ReadText(utf8, s, end.next)
          case None => None
          case Some(name) => Some(Parsed(Take(begin.value, end.value, name.value), name.next))
  }

  predicate GoodReference(t: Texture) {
    && (t.reference <= 1 || t.reference == 0xFFFF_FFFF) && t.clampU <= 1 && t.clampV <= 1
    && (t.reference == 1 ==> t.path != [])
  }

  function ReadTexture(utf8: Bytes -> bool, s: Bytes, at: nat): Option<Parsed<Texture>> {
    if at + 12 > |s| then None
    else
      match ReadFloats(s, at + 12, 6)
      case None => None
      case Some(uv) =>
        match ReadFloats(s, uv.next, 4)
        case None => None
        case Some(tint) =>
          match ReadText(utf8, s, tint.next)
          case None => None
          case Some(path) =>
            var t := Texture(U32At(s, at), U32At(s, at + 4), U32At(s, at + 8), uv.value, tint.value, path.value);
            if GoodReference(t) then Some(Parsed(t, path.next)) else None
  }

  /** One thing after another, n times. */
  function ReadMany<T>(read: nat -> Option<Parsed<T>>, end: nat, at: nat, n: nat): Option<Parsed<seq<T>>> {
    if n == 0 then if at <= end then Some(Parsed([], at)) else None
    else
      match ReadMany(read, end, at, n - 1)
      case None => None
      case Some(r) =>
        match read(r.next)
        case None => None
        case Some(x) => Some(Parsed(r.value + [x.value], x.next))
  }

  function TakeReader(utf8: Bytes -> bool, s: Bytes): nat -> Option<Parsed<Take>> {
    (at: nat) => ReadTake(utf8, s, at)
  }

  function TextureReader(utf8: Bytes -> bool, s: Bytes): nat -> Option<Parsed<Texture>> {
    (at: nat) => ReadTexture(utf8, s, at)
  }

  function ReadMaterial(utf8: Bytes -> bool, s: Bytes, at: nat): Option<Parsed<Material>> {
    match ReadText(utf8, s, at)
    case None => None
    case Some(name) =>
      match ReadMany(TextureReader(utf8, s), |s|, name.next, 6)
      case None => None
      case Some(channels) => Some(Parsed(Material(name.value, channels.value), channels.next))
  }

  function MaterialReader(utf8: Bytes -> bool, s: Bytes): nat -> Option<Parsed<Material>> {
    (at: nat) => ReadMaterial(utf8, s, at)
  }

  // ----- the bytes of each part -----

  function TextBytes(text: Bytes): (s: Bytes)
    ensures |s| == 4 + |text|
  {
    Put32(|text| % 0x1_0000_0000) + text
  }

  function TakeBytes(t: Take): Bytes {
    Put32(t.begin.0) + Put32(t.begin.1) + (Put32(t.end.0) + Put32(t.end.1)) + TextBytes(t.name)
  }

  function TextureBytes(t: Texture): Bytes {
    Put32(t.reference) + Put32(t.clampU) + Put32(t.clampV) + (Words(t.uv) + Words(t.tint) + TextBytes(t.path))
  }

  // ----- reading and writing agree, part by part -----

  /** A reader takes exactly the good things that are written there. */
  ghost predicate Agrees<T(!new)>(read: nat -> Option<Parsed<T>>, s: Bytes, good: T -> bool, bytes: T -> Bytes) {
    forall at: nat, r :: read(at) == Some(r) <==>
                    good(r.value) && Here(s, at, bytes(r.value)) && r.next == at + |bytes(r.value)|
  }

  lemma U32Iff(s: Bytes, at: nat, v: u32)
    ensures ReadU32(s, at) == Some(Parsed(v, at + 4)) <==> Here(s, at, Put32(v))
  {
    PutGet(v);
    if at + 4 <= |s| {
      GetPut(s, at);
      U32Slice(s, at, at + 4, 0);
    }
  }

  lemma {:induction false} WordsLength(s: Bytes, at: nat, n: nat)
    ensures ReadWords(s, at, n).Some? <==> at + 4 * n <= |s|
    ensures ReadWords(s, at, n).Some? ==>
              |ReadWords(s, at, n).value.value| == n && ReadWords(s, at, n).value.next == at + 4 * n
  {
    if n > 0 {
      WordsLength(s, at, n - 1);
    }
  }

  lemma {:induction false} WordsIff(s: Bytes, at: nat, v: seq<u32>)
    ensures ReadWords(s, at, |v|) == Some(Parsed(v, at + 4 * |v|)) <==> Here(s, at, Words(v))
    decreases |v|
  {
    hide U32At;
    if v != [] {
      var init, last := v[..|v| - 1], v[|v| - 1];
      WordsLength(s, at, |init|);
      WordsIff(s, at, init);
      U32Iff(s, at + 4 * |init|, last);
      HereJoin(s, at, Words(init), Put32(last));
      assert v == init + [last];
    }
  }

  lemma DoubleIff(s: Bytes, at: nat, d: (u32, u32))
    ensures ReadDouble(s, at) == Some(Parsed(d, at + 8)) <==>
            Finite64(d.0, d.1) && Here(s, at, Put32(d.0) + Put32(d.1))
  {
    hide U32At, Put32, Finite64;
    U32Iff(s, at, d.0);
    U32Iff(s, at + 4, d.1);
    HereJoin(s, at, Put32(d.0), Put32(d.1));
  }

  lemma TextIff(utf8: Bytes -> bool, s: Bytes, at: nat, text: Bytes)
    ensures ReadText(utf8, s, at) == Some(Parsed(text, at + 4 + |text|)) <==>
            GoodText(utf8, text) && Here(s, at, TextBytes(text))
  {
    hide U32At, Put32;
    U32Iff(s, at, |text| % 0x1_0000_0000);
    HereJoin(s, at, Put32(|text| % 0x1_0000_0000), text);
  }

  predicate GoodTake(utf8: Bytes -> bool, t: Take) {
    && Finite64(t.begin.0, t.begin.1) && Finite64(t.end.0, t.end.1) && Ordered(t.begin, t.end)
    && GoodText(utf8, t.name)
  }

  lemma TakeIff(utf8: Bytes -> bool, s: Bytes, at: nat, r: Parsed<Take>)
    ensures ReadTake(utf8, s, at) == Some(r) <==>
            GoodTake(utf8, r.value) && Here(s, at, TakeBytes(r.value)) && r.next == at + |TakeBytes(r.value)|
  {
    hide ReadDouble, Ordered, Finite64, Put32, TextBytes, Here;
    var t := r.value;
    DoubleShape(s, at);
    DoubleShape(s, at + 8);
    TextShape(utf8, s, at + 16);
    DoubleIff(s, at, t.begin);
    DoubleIff(s, at + 8, t.end);
    TextIff(utf8, s, at + 16, t.name);
    var b, e := Put32(t.begin.0) + Put32(t.begin.1), Put32(t.end.0) + Put32(t.end.1);
    HereJoin(s, at, b, e);
    HereJoin(s, at, b + e, TextBytes(t.name));
  }

  lemma DoubleShape(s: Bytes, at: nat)
    ensures ReadDouble(s, at).Some? ==> ReadDouble(s, at).value.next == at + 8
  {
  }

  lemma TextShape(utf8: Bytes -> bool, s: Bytes, at: nat)
    ensures
      var r := ReadText(utf8, s, at);
      r.Some? ==> r.value.next == at + 4 + |r.value.value| && GoodText(utf8, r.value.value)
  {
  }

  predicate GoodTexture(utf8: Bytes -> bool, t: Texture) {
    && GoodReference(t) && |t.uv| == 6 && |t.tint| == 4 && AllFinite(t.uv) && AllFinite(t.tint)
    && GoodText(utf8, t.path)
  }

  lemma FloatsIff(s: Bytes, at: nat, n: nat, v: seq<u32>)
    ensures ReadFloats(s, at, n) == Some(Parsed(v, at + 4 * n)) <==> |v| == n && AllFinite(v) && Here(s, at, Words(v))
    ensures ReadFloats(s, at, n).Some? ==> ReadFloats(s, at, n).value.next == at + 4 * n
  {
    hide U32At, Words, Here, AllFinite, ReadWords;
    WordsLength(s, at, n);
    if |v| == n {
      WordsIff(s, at, v);
    }
  }

  lemma IndicesIff(s: Bytes, at: nat, n: nat, count: nat, v: seq<u32>)
    ensures ReadIndices(s, at, n, count) == Some(Parsed(v, at + 4 * n)) <==>
            |v| == n && AllIndices(v, count) && Here(s, at, Words(v))
    ensures ReadIndices(s, at, n, count).Some? ==> ReadIndices(s, at, n, count).value.next == at + 4 * n
  {
    hide U32At, Words, Here, AllIndices, ReadWords;
    WordsLength(s, at, n);
    if |v| == n {
      WordsIff(s, at, v);
    }
  }

  lemma ThreeIff(s: Bytes, at: nat, a: u32, b: u32, c: u32)
    ensures at + 12 <= |s| && U32At(s, at) == a && U32At(s, at + 4) == b && U32At(s, at + 8) == c <==>
            Here(s, at, Put32(a) + Put32(b) + Put32(c))
  {
    hide U32At, Put32;
    U32Iff(s, at, a);
    U32Iff(s, at + 4, b);
    U32Iff(s, at + 8, c);
    HereJoin(s, at, Put32(a), Put32(b));
    HereJoin(s, at, Put32(a) + Put32(b), Put32(c));
  }

  lemma TextureIff(utf8: Bytes -> bool, s: Bytes, at: nat, r: Parsed<Texture>)
    ensures ReadTexture(utf8, s, at) == Some(r) <==>
            GoodTexture(utf8, r.value) && Here(s, at, TextureBytes(r.value))
            && r.next == at + |TextureBytes(r.value)|
  {
    hide ReadFloats, ReadText, Words, AllFinite, GoodText, GoodReference, Put32, U32At, TextBytes, Here;
    var t := r.value;
    var head := Put32(t.reference) + Put32(t.clampU) + Put32(t.clampV);
    FloatsIff(s, at + 12, 6, t.uv);
    FloatsIff(s, at + 36, 4, t.tint);
    TextShape(utf8, s, at + 52);
    TextIff(utf8, s, at + 52, t.path);
    ThreeIff(s, at, t.reference, t.clampU, t.clampV);
    if |t.uv| == 6 && |t.tint| == 4 {
      HereJoin(s, at, head, Words(t.uv) + Words(t.tint) + TextBytes(t.path));
      HereJoin(s, at + 12, Words(t.uv) + Words(t.tint), TextBytes(t.path));
      HereJoin(s, at + 12, Words(t.uv), Words(t.tint));
    }
  }

  // ----- one thing after another -----

  function ManyBytes<T>(bytes: T -> Bytes, xs: seq<T>): Bytes {
    if xs == [] then [] else ManyBytes(bytes, xs[..|xs| - 1]) + bytes(xs[|xs| - 1])
  }

  predicate AllOf<T>(good: T -> bool, xs: seq<T>) {
    forall i :: 0 <= i < |xs| ==> good(xs[i])
  }

  lemma ManySnoc<T>(good: T -> bool, bytes: T -> Bytes, init: seq<T>, last: T)
    ensures ManyBytes(bytes, init + [last]) == ManyBytes(bytes, init) + bytes(last)
    ensures AllOf(good, init + [last]) <==> AllOf(good, init) && good(last)
  {
    var xs := init + [last];
    assert xs[..|xs| - 1] == init;
    if AllOf(good, xs) {
      assert forall i :: 0 <= i < |init| ==> init[i] == xs[i];
    }
  }

  lemma ReadManyLast<T>(read: nat -> Option<Parsed<T>>, end: nat, at: nat, n: nat, init: seq<T>, p: nat, last: T,
                        next: nat)
    requires n > 0 && ReadMany(read, end, at, n - 1) == Some(Parsed(init, p)) && read(p) == Some(Parsed(last, next))
    ensures ReadMany(read, end, at, n) == Some(Parsed(init + [last], next))
  {
  }

  lemma ReadManySplits<T>(read: nat -> Option<Parsed<T>>, end: nat, at: nat, n: nat)
    requires n > 0 && ReadMany(read, end, at, n).Some?
    ensures
      var r, before := ReadMany(read, end, at, n).value, ReadMany(read, end, at, n - 1);
      && before.Some? && read(before.value.next).Some? && r.next == read(before.value.next).value.next
      && r.value == before.value.value + [read(before.value.next).value.value]
  {
  }

  lemma {:induction false} ManyReads<T(!new)>(read: nat -> Option<Parsed<T>>, s: Bytes, good: T -> bool,
                                              bytes: T -> Bytes, at: nat, xs: seq<T>)
    requires Agrees(read, s, good, bytes) && AllOf(good, xs) && Here(s, at, ManyBytes(bytes, xs))
    ensures ReadMany(read, |s|, at, |xs|) == Some(Parsed(xs, at + |ManyBytes(bytes, xs)|))
    decreases |xs|
  {
    hide Here, Agrees, AllOf;
    if xs == [] {
      EmptyHere(s, at);
    } else {
      hide ReadMany, ManyBytes;
      var init, last := xs[..|xs| - 1], xs[|xs| - 1];
      assert xs == init + [last];
      var x, y := ManyBytes(bytes, init), bytes(last);
      ManySnoc(good, bytes, init, last);
      HereJoin(s, at, x, y);
      ManyReads(read, s, good, bytes, at, init);
      AgreesAt(read, s, good, bytes, at + |x|, Parsed(last, at + |x| + |y|));
      ReadManyLast(read, |s|, at, |xs|, init, at + |x|, last, at + |x| + |y|);
    }
  }

  lemma {:induction false} ManyWereThere<T(!new)>(read: nat -> Option<Parsed<T>>, s: Bytes, good: T -> bool,
                                                  bytes: T -> Bytes, at: nat, n: nat)
    requires Agrees(read, s, good, bytes) && ReadMany(read, |s|, at, n).Some?
    ensures
      var r := ReadMany(read, |s|, at, n).value;
      && |r.value| == n && AllOf(good, r.value) && Here(s, at, ManyBytes(bytes, r.value))
      && r.next == at + |ManyBytes(bytes, r.value)|
    decreases n
  {
    hide Here, Agrees;
    if n == 0 {
      EmptyHere(s, at);
    } else {
      hide ManyBytes, AllOf;
      ReadManySplits(read, |s|, at, n);
      ManyWereThere(read, s, good, bytes, at, n - 1);
      hide ReadMany;
      var before := ReadMany(read, |s|, at, n - 1).value;
      var last := read(before.next).value;
      AgreesAt(read, s, good, bytes, before.next, last);
      ManySnoc(good, bytes, before.value, last.value);
      HereJoin(s, at, ManyBytes(bytes, before.value), bytes(last.value));
    }
  }

  lemma ManyIff<T(!new)>(read: nat -> Option<Parsed<T>>, s: Bytes, good: T -> bool, bytes: T -> Bytes, at: nat,
                         n: nat, r: Parsed<seq<T>>)
    requires Agrees(read, s, good, bytes)
    ensures ReadMany(read, |s|, at, n) == Some(r) <==>
            |r.value| == n && AllOf(good, r.value) && Here(s, at, ManyBytes(bytes, r.value))
            && r.next == at + |ManyBytes(bytes, r.value)|
  {
    hide Here, Agrees, ReadMany, ManyBytes, AllOf;
    if ReadMany(read, |s|, at, n) == Some(r) {
      ManyWereThere(read, s, good, bytes, at, n);
    } else if |r.value| == n && AllOf(good, r.value) && Here(s, at, ManyBytes(bytes, r.value)) {
      ManyReads(read, s, good, bytes, at, r.value);
    }
  }

  lemma EmptyHere(s: Bytes, at: nat)
    ensures Here(s, at, []) <==> at <= |s|
  {
  }

  lemma AgreesAt<T(!new)>(read: nat -> Option<Parsed<T>>, s: Bytes, good: T -> bool, bytes: T -> Bytes, at: nat,
                          r: Parsed<T>)
    requires Agrees(read, s, good, bytes)
    ensures read(at) == Some(r) <==>
            good(r.value) && Here(s, at, bytes(r.value)) && r.next == at + |bytes(r.value)|
  {
  }

  function GoodTakes(utf8: Bytes -> bool): Take -> bool {
    t => GoodTake(utf8, t)
  }

  function GoodTextures(utf8: Bytes -> bool): Texture -> bool {
    t => GoodTexture(utf8, t)
  }

  function GoodMaterials(utf8: Bytes -> bool): Material -> bool {
    m => GoodMaterial(utf8, m)
  }

  predicate GoodMaterial(utf8: Bytes -> bool, m: Material) {
    GoodText(utf8, m.name) && |m.channels| == 6 && AllOf(GoodTextures(utf8), m.channels)
  }

  function MaterialBytes(m: Material): Bytes {
    TextBytes(m.name) + ManyBytes(TextureBytes, m.channels)
  }

  lemma TakesAgree(utf8: Bytes -> bool, s: Bytes)
    ensures Agrees(TakeReader(utf8, s), s, GoodTakes(utf8), TakeBytes)
  {
    hide ReadTake, GoodTake, TakeBytes, Here;
    forall at: nat, r
      ensures ReadTake(utf8, s, at) == Some(r) <==>
              GoodTake(utf8, r.value) && Here(s, at, TakeBytes(r.value)) && r.next == at + |TakeBytes(r.value)|
    {
      TakeIff(utf8, s, at, r);
    }
  }

  lemma TexturesAgree(utf8: Bytes -> bool, s: Bytes)
    ensures Agrees(TextureReader(utf8, s), s, GoodTextures(utf8), TextureBytes)
  {
    hide ReadTexture, GoodTexture, TextureBytes, Here;
    forall at: nat, r
      ensures ReadTexture(utf8, s, at) == Some(r) <==>
              GoodTexture(utf8, r.value) && Here(s, at, TextureBytes(r.value))
              && r.next == at + |TextureBytes(r.value)|
    {
      TextureIff(utf8, s, at, r);
    }
  }

  lemma MaterialIff(utf8: Bytes -> bool, s: Bytes, at: nat, r: Parsed<Material>)
    ensures ReadMaterial(utf8, s, at) == Some(r) <==>
            GoodMaterial(utf8, r.value) && Here(s, at, MaterialBytes(r.value))
            && r.next == at + |MaterialBytes(r.value)|
  {
    hide ReadText, ReadMany, GoodText, AllOf, GoodTextures, TextBytes, ManyBytes, Here, Agrees, TextureReader;
    var m := r.value;
    TextShape(utf8, s, at);
    TextIff(utf8, s, at, m.name);
    TexturesAgree(utf8, s);
    var next := at + 4 + |m.name|;
    ManyIff(TextureReader(utf8, s), s, GoodTextures(utf8), TextureBytes, next, 6, Parsed(m.channels, r.next));
    HereJoin(s, at, TextBytes(m.name), ManyBytes(TextureBytes, m.channels));
  }

  lemma MaterialsAgree(utf8: Bytes -> bool, s: Bytes)
    ensures Agrees(MaterialReader(utf8, s), s, GoodMaterials(utf8), MaterialBytes)
  {
    hide ReadMaterial, GoodMaterial, MaterialBytes, Here;
    forall at: nat, r
      ensures ReadMaterial(utf8, s, at) == Some(r) <==>
              GoodMaterial(utf8, r.value) && Here(s, at, MaterialBytes(r.value))
              && r.next == at + |MaterialBytes(r.value)|
    {
      MaterialIff(utf8, s, at, r);
    }
  }
}
