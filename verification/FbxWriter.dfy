/** The scene description of the model helper: one routine run twice, first to measure and then to
    fill a buffer of exactly that size (app/fbx_helper.c:24-139, 197-216). Floating point values
    are their bits. */
module FbxWriter {
  import opened Options
  import opened Wire

  type Bytes = seq<u8>

  const OUTPUT_MAX: nat := 512 * 1024 * 1024
  const MAX_TRIS: nat := 2000000
  const MAX_ITEMS: nat := 65536
  const MAX_STRING: nat := 4096

  /** isfinite on the bits of a float: the exponent is not all ones. */
  predicate Finite32(bits: u32) {
    bits / 0x80_0000 % 256 != 255
  }

  /** And on the two halves of a double. */
  predicate Finite64(low: u32, high: u32) {
    high / 0x10_0000 % 2048 != 2047
  }

  /** Sign, exponent and fraction of a float, and of the high half of a double. */
  predicate Parts32(bits: u32, sign: nat, exponent: nat, fraction: nat) {
    sign < 2 && fraction < 0x80_0000 && bits == sign * 0x8000_0000 + exponent * 0x80_0000 + fraction
  }

  predicate Parts64(high: u32, sign: nat, exponent: nat, fraction: nat) {
    sign < 2 && fraction < 0x10_0000 && high == sign * 0x8000_0000 + exponent * 0x10_0000 + fraction
  }

  lemma PartsAre(bits: u32, sign: nat, exponent: nat, fraction: nat)
    ensures Parts32(bits, sign, exponent, fraction) && exponent < 256 ==> bits / 0x80_0000 % 256 == exponent
    ensures Parts64(bits, sign, exponent, fraction) && exponent < 2048 ==> bits / 0x10_0000 % 2048 == exponent
  {
    if Parts32(bits, sign, exponent, fraction) && exponent < 256 {
      assert bits / 0x80_0000 == 256 * sign + exponent;
    }
    if Parts64(bits, sign, exponent, fraction) && exponent < 2048 {
      assert bits / 0x10_0000 == 2048 * sign + exponent;
    }
  }

  lemma HasParts32(bits: u32)
    ensures Parts32(bits, bits / 0x8000_0000, bits / 0x80_0000 % 256, bits % 0x80_0000)
  {
    var q: int := bits / 0x80_0000;
    var sign := q / 256;
    assert bits == q * 0x80_0000 + bits % 0x80_0000 && q == sign * 256 + q % 256;
    assert sign == bits / 0x8000_0000;
  }

  lemma HasParts64(high: u32)
    ensures Parts64(high, high / 0x8000_0000, high / 0x10_0000 % 2048, high % 0x10_0000)
  {
    var q: int := high / 0x10_0000;
    var sign := q / 2048;
    assert high == q * 0x10_0000 + high % 0x10_0000 && q == sign * 2048 + q % 2048;
    assert sign == high / 0x8000_0000;
  }

  /** A float is finite when its exponent is one of the 255, a double when it is one of the 2047, that
      do not mean infinity or no number. */
  lemma FiniteIff(low: u32, bits: u32)
    ensures Finite32(bits) <==>
            exists sign, exponent, fraction :: exponent < 255 && Parts32(bits, sign, exponent, fraction)
    ensures Finite64(low, bits) <==>
            exists sign, exponent, fraction :: exponent < 2047 && Parts64(bits, sign, exponent, fraction)
  {
    hide Parts32, Parts64;
    HasParts32(bits);
    HasParts64(bits);
    forall sign: nat, exponent: nat, fraction: nat | exponent < 255 && Parts32(bits, sign, exponent, fraction)
      ensures Finite32(bits)
    {
      PartsAre(bits, sign, exponent, fraction);
    }
    forall sign: nat, exponent: nat, fraction: nat | exponent < 2047 && Parts64(bits, sign, exponent, fraction)
      ensures Finite64(low, bits)
    {
      PartsAre(bits, sign, exponent, fraction);
    }
  }

  // ----- the format -----

  datatype Piece = Raw(bytes: Bytes) | Floats(bits: seq<u32>) | Double(low: u32, high: u32) | Text(text: Bytes)

  function Words(bits: seq<u32>): (s: Bytes)
    ensures |s| == 4 * |bits|
  {
    if bits == [] then [] else Words(bits[..|bits| - 1]) + Put32(bits[|bits| - 1])
  }

  /** A piece that can be written at all. */
  predicate Good(p: Piece) {
    match p
    case Raw(_) => true
    case Floats(bits) => forall i :: 0 <= i < |bits| ==> Finite32(bits[i])
    case Double(low, high) => Finite64(low, high)
    case Text(text) => |text| <= MAX_STRING
  }

  /** What the first run can see of that: it does not look at the values of float arrays. */
  predicate Measurable(p: Piece) {
    p.Floats? || Good(p)
  }

  function Encode(p: Piece): Bytes
    requires Measurable(p)
  {
    match p
    case Raw(bytes) => bytes
    case Floats(bits) => Words(bits)
    case Double(low, high) => Put32(low) + Put32(high)
    case Text(text) => Put32(|text|) + text
  }

  predicate AllMeasurable(pieces: seq<Piece>) {
    forall i :: 0 <= i < |pieces| ==> Measurable(pieces[i])
  }

  predicate AllGood(pieces: seq<Piece>) {
    forall i :: 0 <= i < |pieces| ==> Good(pieces[i])
  }

  function EncodeAll(pieces: seq<Piece>, n: nat): Bytes
    requires n <= |pieces| && AllMeasurable(pieces)
  {
    if n == 0 then [] else EncodeAll(pieces, n - 1) + Encode(pieces[n - 1])
  }

  // ----- the writer -----

  /** struct Writer: without a buffer it only counts. */
  datatype View = View(emit: bool, capacity: nat, data: Bytes, size: nat, ok: bool)

  function Put(v: View, bytes: Bytes): View {
    if !v.ok || |bytes| + v.size > OUTPUT_MAX || (v.emit && |bytes| + v.size > v.capacity) then v.(ok := false)
    else v.(size := v.size + |bytes|, data := if v.emit then v.data + bytes else v.data)
  }

  function PutFloats(v: View, bits: seq<u32>, n: nat): View
    requires n <= |bits|
  {
    if n == 0 then v
    else
      var before := PutFloats(v, bits, n - 1);
      if !before.ok then before
      else if !Finite32(bits[n - 1]) then before.(ok := false)
      else Put(before, Put32(bits[n - 1]))
  }

  function WritePiece(v: View, p: Piece): View {
    match p
    case Raw(bytes) => Put(v, bytes)
    case Floats(bits) => if v.emit then PutFloats(v, bits, |bits|) else Put(v, Words(bits))
    case Double(low, high) => if !Finite64(low, high) then v.(ok := false) else Put(Put(v, Put32(low)), Put32(high))
    case Text(text) =>
      if |text| > MAX_STRING then v.(ok := false)
      else if text == [] then Put(v, Put32(0)) else Put(Put(v, Put32(|text|)), text)
  }

  function WriteAll(v: View, pieces: seq<Piece>, n: nat): View
    requires n <= |pieces|
  {
    if n == 0 then v else WritePiece(WriteAll(v, pieces, n - 1), pieces[n - 1])
  }

  class Writer {
    const emit: bool
    const data: array<u8>
    var size: nat
    var ok: bool

    ghost predicate Valid()
      reads this
    {
      emit ==> size <= data.Length
    }

    ghost function Value(): View
      reads this, data
      requires Valid()
    {
      View(emit, data.Length, if emit then data[..size] else [], size, ok)
    }

    constructor (data: array<u8>, emit: bool)
      ensures Valid() && this.data == data && Value() == View(emit, data.Length, [], 0, true)
    {
      this.data, this.emit, size, ok := data, emit, 0, true;
    }

    /** bytes: never past the buffer, never past the largest reply. */
    method Bytes(bytes: Bytes)
      requires Valid()
      modifies this`size, this`ok, data
      ensures Valid() && Value() == Put(old(Value()), bytes)
    {
      if !ok || |bytes| + size > OUTPUT_MAX || (emit && |bytes| > data.Length - size) {
        ok := false;
        return;
      }
      if emit {
        for i := 0 to |bytes|
          invariant size == old(size) && ok == old(ok)
          invariant data[..size] == old(data[..size]) && data[size..size + i] == bytes[..i]
        {
          data[size + i] := bytes[i];
        }
        assert data[..size + |bytes|] == data[..size] + data[size..size + |bytes|];
      }
      size := size + |bytes|;
    }

    method F32(bits: u32)
      requires Valid()
      modifies this`size, this`ok, data
      ensures Valid()
      ensures Value() == if !Finite32(bits) then old(Value()).(ok := false) else Put(old(Value()), Put32(bits))
    {
      if !Finite32(bits) {
        ok := false;
        return;
      }
      Bytes(Put32(bits));
    }

    method F64(low: u32, high: u32)
      requires Valid()
      modifies this`size, this`ok, data
      ensures Valid() && Value() == WritePiece(old(Value()), Double(low, high))
    {
      if !Finite64(low, high) {
        ok := false;
        return;
      }
      Bytes(Put32(low));
      Bytes(Put32(high));
    }

    method FloatArray(bits: seq<u32>)
      requires Valid()
      modifies this`size, this`ok, data
      ensures Valid() && Value() == WritePiece(old(Value()), Floats(bits))
    {
      if !emit {
        Bytes(Words(bits));
        return;
      }
      ghost var before := Value();
      var i: nat := 0;
      while i < |bits| && ok
        invariant i <= |bits| && Valid() && Value() == PutFloats(before, bits, i)
      {
        F32(bits[i]);
        i := i + 1;
      }
      FailedStays(before, bits, i, |bits|);
    }

    method String(text: Bytes)
      requires Valid()
      modifies this`size, this`ok, data
      ensures Valid() && Value() == WritePiece(old(Value()), Text(text))
    {
      if |text| > MAX_STRING {
        ok := false;
        return;
      }
      Bytes(Put32(|text|));
      if |text| > 0 {
        Bytes(text);
      }
    }

    /** One piece of the format by the routine that writes its kind. */
    method Write(p: Piece)
      requires Valid()
      modifies this`size, this`ok, data
      ensures Valid() && Value() == WritePiece(old(Value()), p)
    {
      match p
      case Raw(bytes) => Bytes(bytes);
      case Floats(bits) => FloatArray(bits);
      case Double(low, high) => F64(low, high);
      case Text(text) => String(text);
    }

    /** A run of pieces; the source leaves its loops as soon as something failed. */
    method WriteRun(pieces: seq<Piece>)
      requires Valid()
      modifies this`size, this`ok, data
      ensures Valid() && Value() == WriteAll(old(Value()), pieces, |pieces|)
    {
      hide WritePiece;
      ghost var before := Value();
      var i: nat := 0;
      while i < |pieces| && ok
        invariant i <= |pieces| && Valid() && Value() == WriteAll(before, pieces, i)
      {
        Write(pieces[i]);
        i := i + 1;
      }
      FailedAll(before, pieces, i, |pieces|);
    }
  }

  lemma {:induction false} FailedStays(v: View, bits: seq<u32>, i: nat, n: nat)
    requires i <= n <= |bits| && (i < n ==> !PutFloats(v, bits, i).ok)
    ensures PutFloats(v, bits, n) == PutFloats(v, bits, i)
    decreases n
  {
    if i < n - 1 {
      FailedStays(v, bits, i, n - 1);
    }
  }

  lemma FailedFloats(v: View, bits: seq<u32>, n: nat)
    requires n <= |bits| && !v.ok
    ensures PutFloats(v, bits, n) == v
  {
    FailedStays(v, bits, 0, n);
  }

  lemma FailedPiece(v: View, p: Piece)
    requires !v.ok
    ensures WritePiece(v, p) == v
  {
    if p.Floats? {
      FailedFloats(v, p.bits, |p.bits|);
    }
  }

  lemma {:induction false} FailedAll(v: View, pieces: seq<Piece>, i: nat, n: nat)
    requires i <= n <= |pieces| && (i < n ==> !WriteAll(v, pieces, i).ok)
    ensures WriteAll(v, pieces, n) == WriteAll(v, pieces, i)
    decreases n
  {
    if i < n {
      FailedPiece(WriteAll(v, pieces, i), pieces[i]);
      if i < n - 1 {
        FailedAll(v, pieces, i, n - 1);
        FailedPiece(WriteAll(v, pieces, n - 1), pieces[n - 1]);
      }
    }
  }

  // ----- the two runs agree -----

  lemma {:induction false} EncodeGrows(pieces: seq<Piece>, n: nat, m: nat)
    requires n <= m <= |pieces| && AllMeasurable(pieces)
    ensures |EncodeAll(pieces, n)| <= |EncodeAll(pieces, m)|
    decreases m
  {
    hide Encode;
    if n < m {
      EncodeGrows(pieces, n, m - 1);
    }
  }

  function Counting(size: nat): View {
    View(false, 0, [], size, true)
  }

  lemma MeasurePiece(size: nat, p: Piece)
    requires size <= OUTPUT_MAX
    ensures
      var v := WritePiece(Counting(size), p);
      if Measurable(p) && size + |Encode(p)| <= OUTPUT_MAX then v == Counting(size + |Encode(p)|) else !v.ok
  {
  }

  /** The first run counts exactly the bytes of the description, or fails when it has none. */
  lemma {:induction false} MeasureCounts(pieces: seq<Piece>, n: nat)
    requires n <= |pieces|
    ensures
      var v := WriteAll(Counting(0), pieces, n);
      v.ok <==> AllMeasurable(pieces[..n]) && |EncodeAll(pieces[..n], n)| <= OUTPUT_MAX
    ensures
      var v := WriteAll(Counting(0), pieces, n);
      v.ok ==> v == Counting(|EncodeAll(pieces[..n], n)|)
  {
    if n > 0 {
      MeasureCounts(pieces, n - 1);
      var before := WriteAll(Counting(0), pieces, n - 1);
      var p := pieces[n - 1];
      PrefixMeasurable(pieces, n);
      if before.ok {
        MeasurePiece(before.size, p);
      } else {
        FailedPiece(before, p);
      }
    }
  }

  lemma {:induction false} EncodePrefix(pieces: seq<Piece>, more: seq<Piece>, n: nat)
    requires n <= |pieces| && AllMeasurable(pieces) && AllMeasurable(pieces + more)
    ensures EncodeAll(pieces + more, n) == EncodeAll(pieces, n)
  {
    if n > 0 {
      EncodePrefix(pieces, more, n - 1);
    }
  }

  lemma PrefixMeasurable(pieces: seq<Piece>, n: nat)
    requires 0 < n <= |pieces|
    ensures AllMeasurable(pieces[..n]) <==> AllMeasurable(pieces[..n - 1]) && Measurable(pieces[n - 1])
    ensures AllMeasurable(pieces[..n]) ==>
              EncodeAll(pieces[..n], n) == EncodeAll(pieces[..n - 1], n - 1) + Encode(pieces[n - 1])
  {
    hide Encode, Measurable;
    var shorter, longer := pieces[..n - 1], pieces[..n];
    assert longer == shorter + [pieces[n - 1]];
    if AllMeasurable(longer) {
      assert forall i :: 0 <= i < n - 1 ==> shorter[i] == longer[i];
      EncodePrefix(shorter, [pieces[n - 1]], n - 1);
    }
    if AllMeasurable(shorter) && Measurable(pieces[n - 1]) {
      assert forall i :: 0 <= i < n ==> Measurable(longer[i]);
    }
  }

  lemma {:induction false} EmitFloats(v: View, bits: seq<u32>, n: nat)
    requires v.emit && v.ok && n <= |bits| && v.size + 4 * |bits| <= v.capacity <= OUTPUT_MAX
    ensures
      if forall i :: 0 <= i < n ==> Finite32(bits[i])
      then PutFloats(v, bits, n) == v.(size := v.size + 4 * n, data := v.data + Words(bits[..n]))
      else !PutFloats(v, bits, n).ok
  {
    if n > 0 {
      EmitFloats(v, bits, n - 1);
      assert bits[..n][..n - 1] == bits[..n - 1];
    }
  }

  /** With room for it, a good piece is appended to the buffer, and any other fails the run. */
  lemma EmitPiece(v: View, p: Piece)
    requires v.emit && v.ok && Measurable(p) && v.size + |Encode(p)| <= v.capacity <= OUTPUT_MAX
    ensures
      var w := WritePiece(v, p);
      if Good(p) then w == v.(size := v.size + |Encode(p)|, data := v.data + Encode(p)) else !w.ok
  {
    match p
    case Raw(_) =>
    case Floats(bits) =>
      EmitFloats(v, bits, |bits|);
      assert bits[..|bits|] == bits;
    case Double(low, high) => assert v.data + Put32(low) + Put32(high) == v.data + Encode(p);
    case Text(text) => assert v.data + Put32(|text|) + text == v.data + Encode(p);
  }

  function Emitting(capacity: nat, data: Bytes): View {
    View(true, capacity, data, |data|, true)
  }

  lemma PrefixGood(pieces: seq<Piece>, n: nat)
    requires 0 < n <= |pieces|
    ensures AllGood(pieces[..n]) <==> AllGood(pieces[..n - 1]) && Good(pieces[n - 1])
  {
    hide Good;
    var shorter, longer := pieces[..n - 1], pieces[..n];
    assert longer == shorter + [pieces[n - 1]];
    assert AllGood(longer) ==> forall i :: 0 <= i < n - 1 ==> shorter[i] == longer[i];
    assert AllGood(shorter) && Good(pieces[n - 1]) ==> forall i :: 0 <= i < n ==> Good(longer[i]);
  }

  /** The second run fills a buffer of the counted size with the description, and fails exactly
      when some float is not finite. */
  lemma {:induction false} EmitFills(pieces: seq<Piece>, n: nat, capacity: nat)
    requires n <= |pieces| && AllMeasurable(pieces)
    requires |EncodeAll(pieces, |pieces|)| <= capacity <= OUTPUT_MAX
    ensures
      var w := WriteAll(Emitting(capacity, []), pieces, n);
      if AllGood(pieces[..n]) then w == Emitting(capacity, EncodeAll(pieces, n)) else !w.ok
  {
    hide WritePiece, Encode, Good;
    if n > 0 {
      EmitFills(pieces, n - 1, capacity);
      EncodeGrows(pieces, n, |pieces|);
      PrefixGood(pieces, n);
      var before := WriteAll(Emitting(capacity, []), pieces, n - 1);
      if before.ok {
        EmitPiece(before, pieces[n - 1]);
      } else {
        FailedPiece(before, pieces[n - 1]);
      }
    }
  }

  // ----- the description of a scene -----

  datatype Texture = Texture(reference: u32, clampU: u32, clampV: u32, uv: seq<u32>, tint: seq<u32>, path: Bytes)
  datatype Take = Take(begin: (u32, u32), end: (u32, u32), name: Bytes)
  datatype Material = Material(name: Bytes, channels: seq<Texture>)

  /** What fbx_shim gives: the arrays have the lengths the counts say. */
  datatype Model = Model(tris: nat, bones: int, takes: seq<Take>, materials: seq<Material>, hasUv: bool, hasSkin: bool,
                         pos: seq<u32>, nrm: seq<u32>, uv: seq<u32>, bone: seq<u32>, weight: seq<u32>,
                         mat: seq<u32>, mats: seq<u32>)

  predicate CountsFit(m: Model) {
    0 < m.tris <= MAX_TRIS && 0 <= m.bones <= MAX_ITEMS && |m.takes| <= MAX_ITEMS && |m.materials| <= MAX_ITEMS
  }

  const MAGIC: Bytes := [0x46, 0x42, 0x4D, 0x31]

  function HeaderPieces(m: Model): seq<Piece>
    requires CountsFit(m)
  {
    [Raw(MAGIC), Raw(Put32(m.tris)), Raw(Put32(m.bones)), Raw(Put32(|m.takes|)), Raw(Put32(|m.materials|)),
     Raw(Put32((if m.hasUv then 1 else 0) + if m.hasSkin then 2 else 0)), Raw(Put32(0)), Raw(Put32(0))]
  }

  function GeometryPieces(m: Model): seq<Piece> {
    [Floats(m.pos), Floats(m.nrm)]
    + (if m.hasUv then [Floats(m.uv)] else [])
    + (if m.hasSkin then [Raw(Words(m.bone)), Floats(m.weight)] else [])
    + if m.materials != [] then [Raw(Words(m.mat)), Floats(m.mats)] else []
  }

  function TakePieces(t: Take): seq<Piece> {
    [Double(t.begin.0, t.begin.1), Double(t.end.0, t.end.1), Text(t.name)]
  }

  function TexturePieces(t: Texture): seq<Piece> {
    [Raw(Put32(t.reference)), Raw(Put32(t.clampU)), Raw(Put32(t.clampV)), Floats(t.uv), Floats(t.tint), Text(t.path)]
  }

  function ChannelPieces(channels: seq<Texture>, n: nat): seq<Piece>
    requires n <= |channels|
  {
    if n == 0 then [] else ChannelPieces(channels, n - 1) + TexturePieces(channels[n - 1])
  }

  function AllTakes(takes: seq<Take>, n: nat): seq<Piece>
    requires n <= |takes|
  {
    if n == 0 then [] else AllTakes(takes, n - 1) + TakePieces(takes[n - 1])
  }

  function AllMaterials(materials: seq<Material>, n: nat): seq<Piece>
    requires n <= |materials|
  {
    if n == 0 then []
    else
      var m := materials[n - 1];
      AllMaterials(materials, n - 1) + ([Text(m.name)] + ChannelPieces(m.channels, |m.channels|))
  }

  function Pieces(m: Model): seq<Piece>
    requires CountsFit(m)
  {
    HeaderPieces(m) + GeometryPieces(m) + AllTakes(m.takes, |m.takes|) + AllMaterials(m.materials, |m.materials|)
  }

  lemma {:induction false} WriteJoin(v: View, first: seq<Piece>, rest: seq<Piece>, n: nat)
    requires n <= |rest|
    ensures WriteAll(v, first + rest, |first| + n) == WriteAll(WriteAll(v, first, |first|), rest, n)
  {
    hide WritePiece;
    if n == 0 {
      WritePrefix(v, first, rest, |first|);
    } else {
      WriteJoin(v, first, rest, n - 1);
    }
  }

  lemma {:induction false} WritePrefix(v: View, first: seq<Piece>, rest: seq<Piece>, n: nat)
    requires n <= |first|
    ensures WriteAll(v, first + rest, n) == WriteAll(v, first, n)
  {
    hide WritePiece;
    if n > 0 {
      WritePrefix(v, first, rest, n - 1);
    }
  }

  /** metadata: the same calls in both runs, over the takes and the materials in order. */
  method Metadata(w: Writer, m: Model)
    requires w.Valid()
    modifies w`size, w`ok, w.data
    ensures w.Valid()
    ensures w.Value()
         == if CountsFit(m) then WriteAll(old(w.Value()), Pieces(m), |Pieces(m)|) else old(w.Value()).(ok := false)
  {
    if m.tris == 0 || m.tris > MAX_TRIS || m.bones < 0 || m.bones > MAX_ITEMS || |m.takes| > MAX_ITEMS
       || |m.materials| > MAX_ITEMS
    {
      w.ok := false;
      return;
    }
    hide WriteAll, HeaderPieces, GeometryPieces, AllTakes, AllMaterials;
    w.WriteRun(HeaderPieces(m));
    w.WriteRun(GeometryPieces(m));
    TakesRun(w, m.takes);
    MaterialsRun(w, m.materials);
    FourRuns(old(w.Value()), HeaderPieces(m), GeometryPieces(m), AllTakes(m.takes, |m.takes|),
             AllMaterials(m.materials, |m.materials|));
  }

  function Whole(v: View, pieces: seq<Piece>): View {
    WriteAll(v, pieces, |pieces|)
  }

  lemma FourRuns(v: View, a: seq<Piece>, b: seq<Piece>, c: seq<Piece>, d: seq<Piece>)
    ensures Whole(Whole(Whole(Whole(v, a), b), c), d) == Whole(v, a + b + c + d)
  {
    hide WritePiece;
    WriteJoin(v, a, b, |b|);
    WriteJoin(v, a + b, c, |c|);
    WriteJoin(v, a + b + c, d, |d|);
  }

  method TakesRun(w: Writer, takes: seq<Take>)
    requires w.Valid()
    modifies w`size, w`ok, w.data
    ensures w.Valid()
    ensures var pieces := AllTakes(takes, |takes|); w.Value() == WriteAll(old(w.Value()), pieces, |pieces|)
  {
    hide WritePiece, TakePieces;
    ghost var v := w.Value();
    for i := 0 to |takes|
      invariant w.Valid() && w.Value() == WriteAll(v, AllTakes(takes, i), |AllTakes(takes, i)|)
    {
      w.WriteRun(TakePieces(takes[i]));
      WriteJoin(v, AllTakes(takes, i), TakePieces(takes[i]), |TakePieces(takes[i])|);
    }
  }

  method MaterialsRun(w: Writer, materials: seq<Material>)
    requires w.Valid()
    modifies w`size, w`ok, w.data
    ensures w.Valid()
    ensures var pieces := AllMaterials(materials, |materials|); w.Value() == WriteAll(old(w.Value()), pieces, |pieces|)
  {
    hide WritePiece, ChannelPieces;
    ghost var v := w.Value();
    for i := 0 to |materials|
      invariant w.Valid() && w.Value() == WriteAll(v, AllMaterials(materials, i), |AllMaterials(materials, i)|)
    {
      ghost var m := materials[i];
      ghost var pieces := [Text(m.name)] + ChannelPieces(m.channels, |m.channels|);
      MaterialOnce(w, materials[i]);
      WriteJoin(v, AllMaterials(materials, i), pieces, |pieces|);
    }
  }

  method MaterialOnce(w: Writer, m: Material)
    requires w.Valid()
    modifies w`size, w`ok, w.data
    ensures w.Valid()
    ensures
      var pieces := [Text(m.name)] + ChannelPieces(m.channels, |m.channels|);
      w.Value() == WriteAll(old(w.Value()), pieces, |pieces|)
  {
    hide WritePiece, TexturePieces;
    ghost var v := w.Value();
    ghost var written := [Text(m.name)];
    w.WriteRun([Text(m.name)]);
    assert written + ChannelPieces(m.channels, 0) == written;
    for i := 0 to |m.channels|
      invariant w.Valid()
      invariant w.Value()
             == WriteAll(v, written + ChannelPieces(m.channels, i), |written + ChannelPieces(m.channels, i)|)
    {
      w.WriteRun(TexturePieces(m.channels[i]));
      WriteJoin(v, written + ChannelPieces(m.channels, i), TexturePieces(m.channels[i]),
                |TexturePieces(m.channels[i])|);
      assert (written + ChannelPieces(m.channels, i)) + TexturePieces(m.channels[i])
          == written + ChannelPieces(m.channels, i + 1);
    }
  }

  /** What a scene needs to be described: counts, finite numbers, short names, and room. */
  predicate Describable(m: Model) {
    CountsFit(m) && AllMeasurable(Pieces(m)) && AllGood(Pieces(m)) && |EncodeAll(Pieces(m), |Pieces(m)|)| <= OUTPUT_MAX
  }

  /** The reply to OPEN: measured, allocated, filled. It is the whole description in a buffer of
      exactly its size, or nothing when the scene cannot be described. */
  method Describe(m: Model) returns (r: Option<Bytes>)
    ensures r == if Describable(m) then Some(EncodeAll(Pieces(m), |Pieces(m)|)) else None
  {
    var none := new u8[0];
    var measure := new Writer(none, false);
    Metadata(measure, m);
    if !CountsFit(m) {
      return None;
    }
    ghost var pieces := Pieces(m);
    MeasureCounts(pieces, |pieces|);
    assert pieces[..|pieces|] == pieces;
    if !measure.ok {
      NotMeasurable(pieces);
      return None;
    }
    var initial := new u8[measure.size](_ => 0);
    var output := new Writer(initial, true);
    EmitFills(pieces, |pieces|, measure.size);
    Metadata(output, m);
    if !output.ok {
      return None;
    }
    assert initial[..output.size] == initial[..];
    return Some(initial[..output.size]);
  }

  lemma NotMeasurable(pieces: seq<Piece>)
    ensures AllGood(pieces) ==> AllMeasurable(pieces)
  {
  }
}
