/** The app's reading of a whole scene description (app/fbx.odin:134-221): it reads back exactly what
    the helper describes, and nothing else. */
module FbxReader {
  import opened Options
  import opened Wire
  import opened FbxWriter
  import opened FbxParts

  const MAX_PAYLOAD: nat := 512 * 1024 * 1024
  const STL_MAX_TRIS: nat := 2000000

  // ----- the whole description -----

  /** The numbers of the header: flags have bit 0 for texture coordinates and bit 1 for a skin. */
  datatype Head = Head(tris: u32, bones: u32, takes: u32, materials: u32, flags: u32)

  datatype Arrays = Arrays(pos: seq<u32>, nrm: seq<u32>, uv: seq<u32>, bone: seq<u32>, weight: seq<u32>,
                           mat: seq<u32>, mats: seq<u32>)

  predicate HeadOk(h: Head) {
    && 1 <= h.tris <= STL_MAX_TRIS && h.bones <= MAX_ITEMS && h.takes <= MAX_ITEMS && h.materials <= MAX_ITEMS
    && h.flags <= 3 && (h.flags >= 2 ==> h.bones > 0)
  }

  function HeadAt(s: Bytes): Option<Head>
    requires |s| >= 32
  {
    var h := Head(U32At(s, 4), U32At(s, 8), U32At(s, 12), U32At(s, 16), U32At(s, 20));
    if s[..4] == MAGIC && U32At(s, 24) == 0 && U32At(s, 28) == 0 && HeadOk(h) then Some(h) else None
  }

  /** How many values each array has: none, if its flag is not set or there are no materials. */
  function UvCount(h: Head): nat {
    if h.flags % 2 == 1 then 6 * h.tris else 0
  }

  function SkinCount(h: Head): nat {
    if h.flags >= 2 then 3 * h.tris else 0
  }

  function MatCount(h: Head): nat {
    if h.materials > 0 then h.tris else 0
  }

  function ReadSurface(s: Bytes, at: nat, h: Head): Option<Parsed<(seq<u32>, seq<u32>, seq<u32>)>> {
    match ReadFloats(s, at, 9 * h.tris)
    case None => None
    case Some(pos) =>
      match ReadFloats(s, pos.next, 9 * h.tris)
      case None => None
      case Some(nrm) =>
        match ReadFloats(s, nrm.next, UvCount(h))
        case None => None
        case Some(uv) => Some(Parsed((pos.value, nrm.value, uv.value), uv.next))
  }

  function ReadSkin(s: Bytes, at: nat, h: Head): Option<Parsed<(seq<u32>, seq<u32>)>> {
    match ReadIndices(s, at, SkinCount(h), h.bones)
    case None => None
    case Some(bone) =>
      match ReadFloats(s, bone.next, SkinCount(h))
      case None => None
      case Some(weight) => Some(Parsed((bone.value, weight.value), weight.next))
  }

  function ReadColours(s: Bytes, at: nat, h: Head): Option<Parsed<(seq<u32>, seq<u32>)>> {
    match ReadIndices(s, at, MatCount(h), h.materials)
    case None => None
    case Some(mat) =>
      match ReadFloats(s, mat.next, 12 * h.materials)
      case None => None
      case Some(mats) => Some(Parsed((mat.value, mats.value), mats.next))
  }

  function ReadArrays(s: Bytes, at: nat, h: Head): Option<Parsed<Arrays>> {
    match ReadSurface(s, at, h)
    case None => None
    case Some(x) =>
      match ReadSkin(s, x.next, h)
      case None => None
      case Some(y) =>
        match ReadColours(s, y.next, h)
        case None => None
        case Some(z) =>
          Some(Parsed(Arrays(x.value.0, x.value.1, x.value.2, y.value.0, y.value.1, z.value.0, z.value.1), z.next))
  }

  predicate SurfaceOk(h: Head, pos: seq<u32>, nrm: seq<u32>, uv: seq<u32>) {
    && |pos| == |nrm| == 9 * h.tris && |uv| == UvCount(h) && AllFinite(pos) && AllFinite(nrm) && AllFinite(uv)
  }

  predicate SkinOk(h: Head, bone: seq<u32>, weight: seq<u32>) {
    |bone| == |weight| == SkinCount(h) && AllIndices(bone, h.bones) && AllFinite(weight)
  }

  predicate ColoursOk(h: Head, mat: seq<u32>, mats: seq<u32>) {
    |mat| == MatCount(h) && |mats| == 12 * h.materials && AllIndices(mat, h.materials) && AllFinite(mats)
  }

  lemma SurfaceIff(s: Bytes, at: nat, h: Head, pos: seq<u32>, nrm: seq<u32>, uv: seq<u32>, next: nat)
    ensures ReadSurface(s, at, h) == Some(Parsed((pos, nrm, uv), next)) <==>
            SurfaceOk(h, pos, nrm, uv) && Here(s, at, Words(pos) + Words(nrm) + Words(uv))
            && next == at + 4 * (18 * h.tris + UvCount(h))
  {
    hide ReadFloats, AllFinite, Words, Here, UvCount;
    var b: nat, c: nat := at + 36 * h.tris, at + 72 * h.tris;
    FloatsIff(s, at, 9 * h.tris, pos);
    FloatsIff(s, b, 9 * h.tris, nrm);
    FloatsIff(s, c, UvCount(h), uv);
    HereJoin(s, at, Words(pos), Words(nrm));
    HereJoin(s, at, Words(pos) + Words(nrm), Words(uv));
  }

  lemma SkinIff(s: Bytes, at: nat, h: Head, bone: seq<u32>, weight: seq<u32>, next: nat)
    ensures ReadSkin(s, at, h) == Some(Parsed((bone, weight), next)) <==>
            SkinOk(h, bone, weight) && Here(s, at, Words(bone) + Words(weight)) && next == at + 8 * SkinCount(h)
  {
    hide ReadFloats, ReadIndices, AllFinite, AllIndices, Words, Here, SkinCount;
    IndicesIff(s, at, SkinCount(h), h.bones, bone);
    FloatsIff(s, at + 4 * SkinCount(h), SkinCount(h), weight);
    HereJoin(s, at, Words(bone), Words(weight));
  }

  lemma ColoursIff(s: Bytes, at: nat, h: Head, mat: seq<u32>, mats: seq<u32>, next: nat)
    ensures ReadColours(s, at, h) == Some(Parsed((mat, mats), next)) <==>
            ColoursOk(h, mat, mats) && Here(s, at, Words(mat) + Words(mats))
            && next == at + 4 * (MatCount(h) + 12 * h.materials)
  {
    hide ReadFloats, ReadIndices, AllFinite, AllIndices, Words, Here, MatCount;
    IndicesIff(s, at, MatCount(h), h.materials, mat);
    FloatsIff(s, at + 4 * MatCount(h), 12 * h.materials, mats);
    HereJoin(s, at, Words(mat), Words(mats));
  }

  function ArraysBytes(a: Arrays): Bytes {
    Words(a.pos) + Words(a.nrm) + Words(a.uv) + (Words(a.bone) + Words(a.weight)) + (Words(a.mat) + Words(a.mats))
  }

  predicate ArraysOk(h: Head, a: Arrays) {
    SurfaceOk(h, a.pos, a.nrm, a.uv) && SkinOk(h, a.bone, a.weight) && ColoursOk(h, a.mat, a.mats)
  }

  lemma ArraysIff(s: Bytes, at: nat, h: Head, r: Parsed<Arrays>)
    ensures ReadArrays(s, at, h) == Some(r) <==>
            ArraysOk(h, r.value) && Here(s, at, ArraysBytes(r.value)) && r.next == at + |ArraysBytes(r.value)|
  {
    hide ReadSurface, ReadSkin, ReadColours, AllFinite, AllIndices, Words, Here, UvCount, SkinCount, MatCount;
    var a := r.value;
    var b: nat := at + 4 * (18 * h.tris + UvCount(h));
    var c: nat := b + 8 * SkinCount(h);
    NextIs(s, at, h);
    NextIs(s, b, h);
    SurfaceIff(s, at, h, a.pos, a.nrm, a.uv, b);
    SkinIff(s, b, h, a.bone, a.weight, c);
    ColoursIff(s, c, h, a.mat, a.mats, r.next);
    var x, y, z := Words(a.pos) + Words(a.nrm) + Words(a.uv), Words(a.bone) + Words(a.weight),
                   Words(a.mat) + Words(a.mats);
    HereJoin(s, at, x, y);
    HereJoin(s, at, x + y, z);
  }

  lemma NextIs(s: Bytes, at: nat, h: Head)
    ensures ReadSurface(s, at, h).Some? ==>
              ReadSurface(s, at, h).value.next == at + 4 * (18 * h.tris + UvCount(h))
    ensures ReadSkin(s, at, h).Some? ==> ReadSkin(s, at, h).value.next == at + 8 * SkinCount(h)
  {
    hide ReadFloats, ReadIndices, UvCount, SkinCount;
    var n, m: nat := at + 36 * h.tris, at + 72 * h.tris;
    FloatsIff(s, at, 9 * h.tris, []);
    FloatsIff(s, n, 9 * h.tris, []);
    FloatsIff(s, m, UvCount(h), []);
    IndicesIff(s, at, SkinCount(h), h.bones, []);
    FloatsIff(s, at + 4 * SkinCount(h), SkinCount(h), []);
  }

  /** fbx_decode_metadata. */
  function ReadMetadata(utf8: Bytes -> bool, s: Bytes): Option<Model> {
    if |s| < 32 || |s| > MAX_PAYLOAD || HeadAt(s).None? then None
    else
      var h := HeadAt(s).value;
      match ReadArrays(s, 32, h)
      case None => None
      case Some(a) =>
        match ReadMany(TakeReader(utf8, s), |s|, a.next, h.takes)
        case None => None
        case Some(takes) =>
          match ReadMany(MaterialReader(utf8, s), |s|, takes.next, h.materials)
          case None => None
          case Some(materials) =>
            if materials.next != |s| then None else Some(Scene(h, a.value, takes.value, materials.value))
  }

  function Scene(h: Head, a: Arrays, takes: seq<Take>, materials: seq<Material>): Model {
    Model(h.tris, h.bones, takes, materials, h.flags % 2 == 1, h.flags >= 2, a.pos, a.nrm, a.uv, a.bone, a.weight,
          a.mat, a.mats)
  }

  function ArraysOf(m: Model): Arrays {
    Arrays(m.pos, m.nrm, m.uv, m.bone, m.weight, m.mat, m.mats)
  }

  function HeadOf(m: Model): Head
    requires CountsFit(m)
  {
    Head(m.tris, m.bones, |m.takes|, |m.materials|, (if m.hasUv then 1 else 0) + if m.hasSkin then 2 else 0)
  }

  /** A scene the app shows: counts, lengths, finite numbers, indices, names and references in order. */
  predicate Acceptable(utf8: Bytes -> bool, m: Model) {
    && CountsFit(m) && HeadOk(HeadOf(m)) && ArraysOk(HeadOf(m), ArraysOf(m))
    && AllOf(GoodTakes(utf8), m.takes) && AllOf(GoodMaterials(utf8), m.materials)
  }

  function HeadBytes(h: Head): Bytes {
    MAGIC + Put32(h.tris) + Put32(h.bones) + Put32(h.takes) + Put32(h.materials) + Put32(h.flags)
    + Put32(0) + Put32(0)
  }

  function MetadataBytes(m: Model): Bytes
    requires CountsFit(m)
  {
    HeadBytes(HeadOf(m)) + ArraysBytes(ArraysOf(m)) + ManyBytes(TakeBytes, m.takes)
    + ManyBytes(MaterialBytes, m.materials)
  }

  lemma HeadIff(s: Bytes, h: Head)
    requires |s| >= 32
    ensures HeadAt(s) == Some(h) <==> HeadOk(h) && Here(s, 0, HeadBytes(h))
  {
    hide U32At, Put32, HeadOk;
    U32Iff(s, 4, h.tris);
    U32Iff(s, 8, h.bones);
    U32Iff(s, 12, h.takes);
    U32Iff(s, 16, h.materials);
    U32Iff(s, 20, h.flags);
    U32Iff(s, 24, 0);
    U32Iff(s, 28, 0);
    var p := MAGIC;
    HereJoin(s, 0, p, Put32(h.tris));
    HereJoin(s, 0, p + Put32(h.tris), Put32(h.bones));
    HereJoin(s, 0, p + Put32(h.tris) + Put32(h.bones), Put32(h.takes));
    HereJoin(s, 0, p + Put32(h.tris) + Put32(h.bones) + Put32(h.takes), Put32(h.materials));
    var q := p + Put32(h.tris) + Put32(h.bones) + Put32(h.takes) + Put32(h.materials);
    HereJoin(s, 0, q, Put32(h.flags));
    HereJoin(s, 0, q + Put32(h.flags), Put32(0));
    HereJoin(s, 0, q + Put32(h.flags) + Put32(0), Put32(0));
  }

  lemma SceneIs(h: Head, a: Arrays, takes: seq<Take>, materials: seq<Material>)
    requires HeadOk(h) && |takes| == h.takes && |materials| == h.materials
    ensures
      var m := Scene(h, a, takes, materials);
      CountsFit(m) && HeadOf(m) == h && ArraysOf(m) == a && m.takes == takes && m.materials == materials
  {
  }

  lemma SceneOf(m: Model)
    requires CountsFit(m)
    ensures Scene(HeadOf(m), ArraysOf(m), m.takes, m.materials) == m
  {
  }

  /** The four parts one behind the other, up to the end. */
  lemma PartsHere(s: Bytes, a: Bytes, b: Bytes, c: Bytes, d: Bytes)
    ensures s == a + b + c + d <==>
            && Here(s, 0, a) && Here(s, |a|, b) && Here(s, |a| + |b|, c) && Here(s, |a| + |b| + |c|, d)
            && |s| == |a| + |b| + |c| + |d|
  {
    HereJoin(s, 0, a, b);
    HereJoin(s, 0, a + b, c);
    HereJoin(s, 0, a + b + c, d);
    WholeHere(s, a + b + c + d);
  }

  lemma WholeHere(s: Bytes, x: Bytes)
    ensures s == x <==> Here(s, 0, x) && |s| == |x|
  {
    assert s[0..|s|] == s;
  }

  lemma MetadataReads(utf8: Bytes -> bool, m: Model)
    requires Acceptable(utf8, m) && |MetadataBytes(m)| <= MAX_PAYLOAD
    ensures ReadMetadata(utf8, MetadataBytes(m)) == Some(m)
  {
    hide HeadBytes, ArraysBytes, ManyBytes, TakeBytes, MaterialBytes, Here, HeadAt, ReadArrays, ReadMany, HeadOk;
    hide ArraysOk, AllOf, Agrees, HeadOf, ArraysOf, Scene, TakeReader, MaterialReader, GoodTakes, GoodMaterials;
    var s := MetadataBytes(m);
    var h, a := HeadOf(m), ArraysOf(m);
    HeadLength(h);
    HeadMeans(m);
    var x, y := ManyBytes(TakeBytes, m.takes), ManyBytes(MaterialBytes, m.materials);
    PartsHere(s, HeadBytes(h), ArraysBytes(a), x, y);
    HeadIff(s, h);
    var b: nat := 32 + |ArraysBytes(a)|;
    ArraysIff(s, 32, h, Parsed(a, b));
    TakesAgree(utf8, s);
    MaterialsAgree(utf8, s);
    ManyIff(TakeReader(utf8, s), s, GoodTakes(utf8), TakeBytes, b, |m.takes|, Parsed(m.takes, b + |x|));
    ManyIff(MaterialReader(utf8, s), s, GoodMaterials(utf8), MaterialBytes, b + |x|, |m.materials|,
            Parsed(m.materials, b + |x| + |y|));
    SceneOf(m);
  }

  lemma HeadLength(h: Head)
    ensures |HeadBytes(h)| == 32
  {
    hide Put32;
  }

  lemma HeadMeans(m: Model)
    requires CountsFit(m)
    ensures HeadOf(m).takes == |m.takes| && HeadOf(m).materials == |m.materials|
  {
  }

  lemma MetadataWasThere(utf8: Bytes -> bool, s: Bytes)
    requires ReadMetadata(utf8, s).Some?
    ensures
      var m := ReadMetadata(utf8, s).value;
      Acceptable(utf8, m) && |s| <= MAX_PAYLOAD && s == MetadataBytes(m)
  {
    hide HeadBytes, ArraysBytes, ManyBytes, TakeBytes, MaterialBytes, Here, HeadAt, ReadArrays, ReadMany, HeadOk;
    hide ArraysOk, AllOf, Agrees, HeadOf, ArraysOf, Scene, TakeReader, MaterialReader, GoodTakes, GoodMaterials;
    hide CountsFit;
    var h := HeadAt(s).value;
    HeadIff(s, h);
    HeadLength(h);
    var a := ReadArrays(s, 32, h).value;
    ArraysIff(s, 32, h, a);
    TakesAgree(utf8, s);
    MaterialsAgree(utf8, s);
    var takes := ReadMany(TakeReader(utf8, s), |s|, a.next, h.takes).value;
    ManyIff(TakeReader(utf8, s), s, GoodTakes(utf8), TakeBytes, a.next, h.takes, takes);
    var materials := ReadMany(MaterialReader(utf8, s), |s|, takes.next, h.materials).value;
    ManyIff(MaterialReader(utf8, s), s, GoodMaterials(utf8), MaterialBytes, takes.next, h.materials, materials);
    SceneIs(h, a.value, takes.value, materials.value);
    PartsHere(s, HeadBytes(h), ArraysBytes(a.value), ManyBytes(TakeBytes, takes.value),
              ManyBytes(MaterialBytes, materials.value));
  }

  // ----- what the helper writes -----

  function Flat(pieces: seq<Piece>): Bytes
    requires AllMeasurable(pieces)
  {
    EncodeAll(pieces, |pieces|)
  }

  lemma FlatOne(p: Piece)
    requires Measurable(p)
    ensures AllMeasurable([p]) && Flat([p]) == Encode(p)
  {
    hide Encode, Measurable;
    assert EncodeAll([p], 0) == [];
  }

  lemma {:induction false} FlatJoin(a: seq<Piece>, b: seq<Piece>)
    requires AllMeasurable(a) && AllMeasurable(b)
    ensures AllMeasurable(a + b) && Flat(a + b) == Flat(a) + Flat(b)
    decreases |b|
  {
    hide Encode, Measurable;
    if b == [] {
      assert a + b == a;
    } else {
      var init, p := b[..|b| - 1], b[|b| - 1];
      assert b == init + [p] && a + b == (a + init) + [p];
      FlatJoin(a, init);
      FlatSnoc(a + init, p);
      FlatSnoc(init, p);
    }
  }

  lemma FlatSnoc(pieces: seq<Piece>, p: Piece)
    requires AllMeasurable(pieces) && Measurable(p)
    ensures AllMeasurable(pieces + [p]) && Flat(pieces + [p]) == Flat(pieces) + Encode(p)
  {
    hide Encode, Measurable;
    assert forall i :: 0 <= i <= |pieces| ==> Measurable((pieces + [p])[i]);
    EncodePrefix(pieces, [p], |pieces|);
  }

  /** The helper can write these pieces, and these are their bytes. */
  ghost predicate Spells(pieces: seq<Piece>, x: Bytes) {
    AllGood(pieces) && AllMeasurable(pieces) && Flat(pieces) == x
  }

  lemma SpellsJoin(a: seq<Piece>, b: seq<Piece>, x: Bytes, y: Bytes)
    requires Spells(a, x) && Spells(b, y)
    ensures Spells(a + b, x + y)
  {
    hide Good, Measurable;
    FlatJoin(a, b);
  }

  lemma SpellsOne(p: Piece)
    requires Good(p)
    ensures Spells([p], Encode(p))
  {
    FlatOne(p);
  }

  lemma SpellsRaw(x: Bytes)
    ensures Spells([Raw(x)], x)
  {
    SpellsOne(Raw(x));
  }

  lemma SpellsFloats(bits: seq<u32>)
    requires AllFinite(bits)
    ensures Spells([Floats(bits)], Words(bits))
  {
    SpellsOne(Floats(bits));
  }

  lemma SpellsNothing()
    ensures Spells([], [])
  {
  }

  lemma SpellsText(utf8: Bytes -> bool, text: Bytes)
    requires GoodText(utf8, text)
    ensures Spells([Text(text)], TextBytes(text))
  {
    hide Put32, Spells, TextBytes;
    SpellsOne(Text(text));
    TextEncoded(text);
  }

  lemma TextEncoded(text: Bytes)
    requires |text| <= 4096
    ensures Encode(Text(text)) == TextBytes(text)
  {
    hide Put32;
  }

  lemma SpellsDouble(low: u32, high: u32)
    requires Finite64(low, high)
    ensures Spells([Double(low, high)], Put32(low) + Put32(high))
  {
    SpellsOne(Double(low, high));
  }

  lemma TakeSpelled(utf8: Bytes -> bool, t: Take)
    requires GoodTake(utf8, t)
    ensures Spells(TakePieces(t), TakeBytes(t))
  {
    hide Spells, Finite64, GoodText, TextBytes, Put32;
    var b, e, n := Double(t.begin.0, t.begin.1), Double(t.end.0, t.end.1), Text(t.name);
    SpellsDouble(t.begin.0, t.begin.1);
    SpellsDouble(t.end.0, t.end.1);
    SpellsText(utf8, t.name);
    SpellsJoin([b], [e], Put32(t.begin.0) + Put32(t.begin.1), Put32(t.end.0) + Put32(t.end.1));
    assert [b] + [e] == [b, e];
    SpellsJoin([b, e], [n], Put32(t.begin.0) + Put32(t.begin.1) + (Put32(t.end.0) + Put32(t.end.1)),
               TextBytes(t.name));
    assert [b, e] + [n] == TakePieces(t);
  }

  lemma TextureSpelled(utf8: Bytes -> bool, t: Texture)
    requires GoodTexture(utf8, t)
    ensures Spells(TexturePieces(t), TextureBytes(t))
  {
    hide Spells, GoodText, TextBytes, Put32, Words, GoodReference, AllFinite;
    var a, b, c := Put32(t.reference), Put32(t.clampU), Put32(t.clampV);
    SpellsRaw(a);
    SpellsRaw(b);
    SpellsRaw(c);
    SpellsFloats(t.uv);
    SpellsFloats(t.tint);
    SpellsText(utf8, t.path);
    SpellsJoin([Raw(a)], [Raw(b)], a, b);
    SpellsJoin([Raw(a)] + [Raw(b)], [Raw(c)], a + b, c);
    SpellsJoin([Floats(t.uv)], [Floats(t.tint)], Words(t.uv), Words(t.tint));
    var tail := [Floats(t.uv)] + [Floats(t.tint)];
    SpellsJoin(tail, [Text(t.path)], Words(t.uv) + Words(t.tint), TextBytes(t.path));
    SpellsJoin([Raw(a)] + [Raw(b)] + [Raw(c)], tail + [Text(t.path)], a + b + c,
               Words(t.uv) + Words(t.tint) + TextBytes(t.path));
    assert [Raw(a)] + [Raw(b)] + [Raw(c)] + (tail + [Text(t.path)]) == TexturePieces(t);
  }

  lemma {:induction false} ChannelsSpelled(utf8: Bytes -> bool, channels: seq<Texture>, n: nat)
    requires n <= |channels| && AllOf(GoodTextures(utf8), channels)
    ensures Spells(ChannelPieces(channels, n), ManyBytes(TextureBytes, channels[..n]))
  {
    hide Spells, TexturePieces, TextureBytes, GoodTexture;
    if n == 0 {
      SpellsNothing();
    } else {
      ChannelsSpelled(utf8, channels, n - 1);
      TextureSpelled(utf8, channels[n - 1]);
      SpellsJoin(ChannelPieces(channels, n - 1), TexturePieces(channels[n - 1]),
                 ManyBytes(TextureBytes, channels[..n - 1]), TextureBytes(channels[n - 1]));
      assert channels[..n][..n - 1] == channels[..n - 1];
    }
  }

  lemma MaterialSpelled(utf8: Bytes -> bool, m: Material)
    requires GoodMaterial(utf8, m)
    ensures Spells([Text(m.name)] + ChannelPieces(m.channels, |m.channels|), MaterialBytes(m))
  {
    hide Spells, ChannelPieces, ManyBytes, TextBytes, GoodText, AllOf;
    var n := |m.channels|;
    SpellsText(utf8, m.name);
    ChannelsSpelled(utf8, m.channels, n);
    SpellsJoin([Text(m.name)], ChannelPieces(m.channels, n), TextBytes(m.name),
               ManyBytes(TextureBytes, m.channels[..n]));
    assert m.channels[..n] == m.channels;
  }

  lemma {:induction false} TakesSpelled(utf8: Bytes -> bool, takes: seq<Take>, n: nat)
    requires n <= |takes| && AllOf(GoodTakes(utf8), takes)
    ensures Spells(AllTakes(takes, n), ManyBytes(TakeBytes, takes[..n]))
  {
    hide Spells, TakePieces, TakeBytes, GoodTake;
    if n == 0 {
      SpellsNothing();
    } else {
      TakesSpelled(utf8, takes, n - 1);
      TakeSpelled(utf8, takes[n - 1]);
      SpellsJoin(AllTakes(takes, n - 1), TakePieces(takes[n - 1]),
                 ManyBytes(TakeBytes, takes[..n - 1]), TakeBytes(takes[n - 1]));
      assert takes[..n][..n - 1] == takes[..n - 1];
    }
  }

  lemma {:induction false} MaterialsSpelled(utf8: Bytes -> bool, materials: seq<Material>, n: nat)
    requires n <= |materials| && AllOf(GoodMaterials(utf8), materials)
    ensures Spells(AllMaterials(materials, n), ManyBytes(MaterialBytes, materials[..n]))
  {
    hide Spells, ChannelPieces, MaterialBytes, GoodMaterial;
    if n == 0 {
      SpellsNothing();
    } else {
      var m := materials[n - 1];
      MaterialsSpelled(utf8, materials, n - 1);
      MaterialSpelled(utf8, m);
      SpellsJoin(AllMaterials(materials, n - 1), [Text(m.name)] + ChannelPieces(m.channels, |m.channels|),
                 ManyBytes(MaterialBytes, materials[..n - 1]), MaterialBytes(m));
      assert materials[..n][..n - 1] == materials[..n - 1];
    }
  }

  lemma HeadSpelled(m: Model)
    requires CountsFit(m)
    ensures Spells(HeaderPieces(m), HeadBytes(HeadOf(m)))
  {
    hide Spells, Put32;
    var h := HeadOf(m);
    var p := HeaderPieces(m);
    SpellsRaw(MAGIC);
    HeadMore(p, 1, MAGIC, h.tris);
    var x := MAGIC + Put32(h.tris);
    HeadMore(p, 2, x, h.bones);
    HeadMore(p, 3, x + Put32(h.bones), h.takes);
    x := x + Put32(h.bones) + Put32(h.takes);
    HeadMore(p, 4, x, h.materials);
    HeadMore(p, 5, x + Put32(h.materials), h.flags);
    x := x + Put32(h.materials) + Put32(h.flags);
    HeadMore(p, 6, x, 0);
    HeadMore(p, 7, x + Put32(0), 0);
    assert p[..1] == [Raw(MAGIC)] && p[..8] == p;
  }

  lemma HeadMore(p: seq<Piece>, n: nat, x: Bytes, v: u32)
    requires n < |p| && p[n] == Raw(Put32(v))
    ensures Spells(p[..n], x) ==> Spells(p[..n + 1], x + Put32(v))
  {
    hide Spells, Put32;
    SpellsRaw(Put32(v));
    if Spells(p[..n], x) {
      SpellsJoin(p[..n], [Raw(Put32(v))], x, Put32(v));
    }
    assert p[..n + 1] == p[..n] + [p[n]];
  }

  lemma SpellsOptional(on: bool, bits: seq<u32>)
    requires AllFinite(bits) && (!on ==> bits == [])
    ensures Spells(if on then [Floats(bits)] else [], Words(bits))
  {
    hide Spells;
    if on {
      SpellsFloats(bits);
    } else {
      SpellsNothing();
    }
  }

  lemma SpellsIndexed(on: bool, indices: seq<u32>, bits: seq<u32>)
    requires AllFinite(bits) && (!on ==> bits == indices == [])
    ensures Spells(if on then [Raw(Words(indices)), Floats(bits)] else [], Words(indices) + Words(bits))
  {
    hide Spells;
    if on {
      SpellsRaw(Words(indices));
      SpellsFloats(bits);
      SpellsJoin([Raw(Words(indices))], [Floats(bits)], Words(indices), Words(bits));
      assert [Raw(Words(indices))] + [Floats(bits)] == [Raw(Words(indices)), Floats(bits)];
    } else {
      SpellsNothing();
      assert Words(indices) + Words(bits) == [];
    }
  }

  lemma NoneIsEmpty(m: Model)
    requires CountsFit(m) && HeadOk(HeadOf(m)) && ArraysOk(HeadOf(m), ArraysOf(m))
    ensures AllFinite(m.pos) && AllFinite(m.nrm) && AllFinite(m.uv) && AllFinite(m.weight) && AllFinite(m.mats)
    ensures !m.hasUv ==> m.uv == []
    ensures !m.hasSkin ==> m.bone == m.weight == []
    ensures m.materials == [] ==> m.mat == m.mats == []
  {
    hide AllFinite, AllIndices;
  }

  lemma SurfaceSpelled(m: Model)
    requires AllFinite(m.pos) && AllFinite(m.nrm) && AllFinite(m.uv) && (!m.hasUv ==> m.uv == [])
    ensures Spells([Floats(m.pos), Floats(m.nrm)] + (if m.hasUv then [Floats(m.uv)] else []),
                   Words(m.pos) + Words(m.nrm) + Words(m.uv))
  {
    hide Spells, AllFinite, Words;
    SpellsFloats(m.pos);
    SpellsFloats(m.nrm);
    SpellsOptional(m.hasUv, m.uv);
    SpellsJoin([Floats(m.pos)], [Floats(m.nrm)], Words(m.pos), Words(m.nrm));
    assert [Floats(m.pos)] + [Floats(m.nrm)] == [Floats(m.pos), Floats(m.nrm)];
    SpellsJoin([Floats(m.pos), Floats(m.nrm)], if m.hasUv then [Floats(m.uv)] else [],
               Words(m.pos) + Words(m.nrm), Words(m.uv));
  }

  lemma GeometrySpelled(m: Model)
    requires CountsFit(m) && HeadOk(HeadOf(m)) && ArraysOk(HeadOf(m), ArraysOf(m))
    ensures Spells(GeometryPieces(m), ArraysBytes(ArraysOf(m)))
  {
    hide Spells, AllFinite, Words, ArraysOk, HeadOk, HeadOf;
    NoneIsEmpty(m);
    SurfaceSpelled(m);
    SpellsIndexed(m.hasSkin, m.bone, m.weight);
    SpellsIndexed(m.materials != [], m.mat, m.mats);
    var a := [Floats(m.pos), Floats(m.nrm)] + (if m.hasUv then [Floats(m.uv)] else []);
    var b := if m.hasSkin then [Raw(Words(m.bone)), Floats(m.weight)] else [];
    var c := if m.materials != [] then [Raw(Words(m.mat)), Floats(m.mats)] else [];
    var x := Words(m.pos) + Words(m.nrm) + Words(m.uv);
    SpellsJoin(a, b, x, Words(m.bone) + Words(m.weight));
    SpellsJoin(a + b, c, x + (Words(m.bone) + Words(m.weight)), Words(m.mat) + Words(m.mats));
  }

  lemma DescriptionSpelled(utf8: Bytes -> bool, m: Model)
    requires Acceptable(utf8, m)
    ensures Spells(Pieces(m), MetadataBytes(m))
  {
    hide Spells, HeaderPieces, GeometryPieces, AllTakes, AllMaterials, HeadBytes, ArraysBytes, ManyBytes, AllOf;
    hide ArraysOk;
    var t, n := |m.takes|, |m.materials|;
    HeadSpelled(m);
    GeometrySpelled(m);
    TakesSpelled(utf8, m.takes, t);
    MaterialsSpelled(utf8, m.materials, n);
    assert m.takes[..t] == m.takes && m.materials[..n] == m.materials;
    var a, b := HeadBytes(HeadOf(m)), ArraysBytes(ArraysOf(m));
    SpellsJoin(HeaderPieces(m), GeometryPieces(m), a, b);
    SpellsJoin(HeaderPieces(m) + GeometryPieces(m), AllTakes(m.takes, t), a + b, ManyBytes(TakeBytes, m.takes));
    SpellsJoin(HeaderPieces(m) + GeometryPieces(m) + AllTakes(m.takes, t), AllMaterials(m.materials, n),
               a + b + ManyBytes(TakeBytes, m.takes), ManyBytes(MaterialBytes, m.materials));
  }

  /** The app reads exactly the descriptions of acceptable scenes, each as the scene it describes. */
  lemma ReadsIff(utf8: Bytes -> bool, s: Bytes, m: Model)
    ensures ReadMetadata(utf8, s) == Some(m) <==>
            Acceptable(utf8, m) && |s| <= 512 * 1024 * 1024 && Spells(Pieces(m), s)
  {
    hide ReadMetadata, Acceptable, Spells, MetadataBytes, Pieces;
    if ReadMetadata(utf8, s) == Some(m) {
      MetadataWasThere(utf8, s);
      DescriptionSpelled(utf8, m);
    } else {
      DescribedIsRead(utf8, s, m);
    }
  }

  lemma DescribedIsRead(utf8: Bytes -> bool, s: Bytes, m: Model)
    ensures Acceptable(utf8, m) && |s| <= MAX_PAYLOAD && Spells(Pieces(m), s) ==> ReadMetadata(utf8, s) == Some(m)
  {
    hide ReadMetadata, MetadataBytes, Pieces;
    if Acceptable(utf8, m) && |s| <= MAX_PAYLOAD && Spells(Pieces(m), s) {
      DescriptionSpelled(utf8, m);
      MetadataReads(utf8, m);
    }
  }

  /** The scene without the arrays that its header says are not there. */
  function Plain(m: Model): Model {
    m.(uv := if m.hasUv then m.uv else [], bone := if m.hasSkin then m.bone else [],
       weight := if m.hasSkin then m.weight else [], mat := if m.materials != [] then m.mat else [],
       mats := if m.materials != [] then m.mats else [])
  }

  /** From the helper to the app: a scene the app shows can be described if there is room, and what
      Describe makes of it is read back as the scene. */
  lemma SceneArrives(utf8: Bytes -> bool, m: Model)
    requires Acceptable(utf8, Plain(m))
    ensures AllMeasurable(Pieces(m))
    ensures Describable(m) <==> |EncodeAll(Pieces(m), |Pieces(m)|)| <= OUTPUT_MAX
    ensures Describable(m) ==> ReadMetadata(utf8, EncodeAll(Pieces(m), |Pieces(m)|)) == Some(Plain(m))
  {
    hide Acceptable, ReadMetadata, MetadataBytes, EncodeAll, AllGood, AllMeasurable;
    PlainPieces(utf8, m);
    DescriptionSpelled(utf8, Plain(m));
    if Describable(m) {
      MetadataReads(utf8, Plain(m));
    }
  }

  lemma PlainPieces(utf8: Bytes -> bool, m: Model)
    requires Acceptable(utf8, Plain(m))
    ensures CountsFit(m) && CountsFit(Plain(m)) && Pieces(m) == Pieces(Plain(m))
  {
    hide AllTakes, AllMaterials, Words, Put32, AllOf, ArraysOk;
  }
}
