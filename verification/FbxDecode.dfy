/** The app's decoder of scene descriptions, loop by loop (app/fbx.odin:66-221). */
module FbxDecode {
  import opened Options
  import opened Wire
  import opened FbxWriter
  import opened FbxParts
  import opened FbxReader

  lemma WordsStep(s: Bytes, at: nat, i: nat)
    ensures ReadWords(s, at, i + 1).Some? <==> ReadWords(s, at, i).Some? && ReadWords(s, at, i).value.next + 4 <= |s|
    ensures ReadWords(s, at, i + 1).Some? ==>
              var r := ReadWords(s, at, i).value;
              ReadWords(s, at, i + 1) == Some(Parsed(r.value + [U32At(s, r.next)], r.next + 4))
  {
  }

  lemma FloatsStep(s: Bytes, at: nat, i: nat)
    ensures
      var r := ReadFloats(s, at, i);
      ReadFloats(s, at, i + 1)
      == if r.Some? && r.value.next + 4 <= |s| && Finite32(U32At(s, r.value.next))
         then Some(Parsed(r.value.value + [U32At(s, r.value.next)], r.value.next + 4)) else None
  {
    hide U32At, Finite32, ReadWords;
    WordsStep(s, at, i);
    var r := ReadWords(s, at, i);
    if r.Some? && r.value.next + 4 <= |s| {
      FiniteSnoc(r.value.value, U32At(s, r.value.next));
    }
  }

  lemma FiniteSnoc(bits: seq<u32>, v: u32)
    ensures AllFinite(bits + [v]) <==> AllFinite(bits) && Finite32(v)
  {
    hide Finite32;
    var more := bits + [v];
    assert more[|bits|] == v && forall i :: 0 <= i < |bits| ==> more[i] == bits[i];
  }

  lemma IndicesStep(s: Bytes, at: nat, i: nat, count: nat)
    ensures
      var r := ReadIndices(s, at, i, count);
      ReadIndices(s, at, i + 1, count)
      == if r.Some? && r.value.next + 4 <= |s| && Index(U32At(s, r.value.next), count)
         then Some(Parsed(r.value.value + [U32At(s, r.value.next)], r.value.next + 4)) else None
  {
    hide U32At, ReadWords;
    WordsStep(s, at, i);
    var r := ReadWords(s, at, i);
    if r.Some? && r.value.next + 4 <= |s| {
      IndicesSnoc(r.value.value, U32At(s, r.value.next), count);
    }
  }

  lemma IndicesSnoc(bits: seq<u32>, v: u32, count: nat)
    ensures AllIndices(bits + [v], count) <==> AllIndices(bits, count) && Index(v, count)
  {
    var more := bits + [v];
    assert more[|bits|] == v && forall i :: 0 <= i < |bits| ==> more[i] == bits[i];
  }

  /** Fbx_Wire: a position in a payload, and whether everything so far was all right. */
  class FbxWire {
    const data: Bytes
    var at: nat
    var ok: bool

    predicate Valid()
      reads this
    {
      at <= |data|
    }

    constructor (data: Bytes, at: nat)
      requires at <= |data|
      ensures this.data == data && this.at == at && ok
    {
      this.data, this.at, ok := data, at, true;
    }

    method U32() returns (v: u32)
      requires Valid()
      modifies this
      ensures Valid() && (ok <==> old(ok) && old(at) + 4 <= |data|)
      ensures if ok then at == old(at) + 4 && v == U32At(data, old(at)) else at == old(at)
    {
      if !ok || |data| - at < 4 {
        ok := false;
        return 0;
      }
      v := U32At(data, at);
      at := at + 4;
    }

    method F32() returns (v: u32)
      requires Valid()
      modifies this
      ensures Valid() && (ok <==> old(ok) && old(at) + 4 <= |data| && Finite32(U32At(data, old(at))))
      ensures ok ==> at == old(at) + 4 && v == U32At(data, old(at))
    {
      hide U32At;
      v := U32();
      if !Finite32(v) {
        ok := false;
      }
    }

    method F64() returns (low: u32, high: u32)
      requires Valid()
      modifies this
      ensures Valid() && (ok <==> old(ok) && ReadDouble(data, old(at)).Some?)
      ensures ok ==> ReadDouble(data, old(at)) == Some(Parsed((low, high), at))
    {
      hide U32At, Finite64;
      low := U32();
      high := U32();
      if !Finite64(low, high) {
        ok := false;
      }
    }

    method String(utf8: Bytes -> bool) returns (text: Bytes)
      requires Valid()
      modifies this
      ensures Valid() && (ok <==> old(ok) && ReadText(utf8, data, old(at)).Some?)
      ensures ok ==> ReadText(utf8, data, old(at)) == Some(Parsed(text, at))
    {
      hide U32At;
      var n := U32();
      if !ok || n > 4096 || n > |data| - at {
        ok := false;
        return [];
      }
      text := data[at..at + n];
      at := at + n;
      if !utf8(text) || 0 in text {
        ok := false;
        return [];
      }
    }

    /** Floats one by one; a failure does not stop the loop. */
    method Each(n: nat) returns (values: seq<u32>)
      requires Valid()
      modifies this
      ensures Valid() && (ok <==> old(ok) && ReadFloats(data, old(at), n).Some?)
      ensures ok ==> ReadFloats(data, old(at), n) == Some(Parsed(values, at))
    {
      hide U32At, Finite32, ReadFloats;
      values := [];
      NoFloats(data, at);
      for i := 0 to n
        invariant Valid() && (ok <==> old(ok) && ReadFloats(data, old(at), i).Some?)
        invariant ok ==> ReadFloats(data, old(at), i) == Some(Parsed(values, at))
      {
        FloatsStep(data, old(at), i);
        var v := F32();
        values := values + [v];
      }
    }

    method Floats(n: nat) returns (values: seq<u32>)
      requires Valid()
      modifies this
      ensures Valid() && (ok <==> old(ok) && ReadFloats(data, old(at), n).Some?)
      ensures ok ==> ReadFloats(data, old(at), n) == Some(Parsed(values, at))
    {
      hide U32At, Finite32, AllFinite, ReadWords;
      WordsLength(data, at, n);
      if !ok || n > (|data| - at) / 4 {
        ok := false;
        return [];
      }
      values := Each(n);
    }

    method Indices(n: nat, count: nat) returns (values: seq<u32>)
      requires Valid()
      modifies this
      ensures Valid() && (ok <==> old(ok) && ReadIndices(data, old(at), n, count).Some?)
      ensures ok ==> ReadIndices(data, old(at), n, count) == Some(Parsed(values, at))
    {
      hide U32At, ReadIndices;
      IndicesNeedRoom(data, at, n, count);
      if !ok || n > (|data| - at) / 4 {
        ok := false;
        return [];
      }
      values := [];
      for i := 0 to n
        invariant Valid() && (ok <==> old(ok) && ReadIndices(data, old(at), i, count).Some?)
        invariant ok ==> ReadIndices(data, old(at), i, count) == Some(Parsed(values, at))
      {
        IndicesStep(data, old(at), i, count);
        var v := U32();
        if v != 0xFFFF_FFFF && v >= count {
          ok := false;
        }
        values := values + [v];
      }
    }
  }

  lemma NoFloats(s: Bytes, at: nat)
    requires at <= |s|
    ensures ReadFloats(s, at, 0) == Some(Parsed([], at))
  {
  }

  lemma IndicesNeedRoom(s: Bytes, at: nat, n: nat, count: nat)
    requires at <= |s|
    ensures ReadIndices(s, at, 0, count) == Some(Parsed([], at))
    ensures n > (|s| - at) / 4 ==> ReadIndices(s, at, n, count) == None
  {
    WordsLength(s, at, n);
  }

  // ----- the decoder -----

  /** The fixed part fits when it can be read. */
  lemma ArraysNeedRoom(s: Bytes, at: nat, h: Head)
    requires at <= |s|
    ensures ReadArrays(s, at, h).Some? ==>
              4 * (18 * h.tris + UvCount(h) + 2 * SkinCount(h) + MatCount(h) + 12 * h.materials) <= |s| - at
    ensures ReadArrays(s, at, h).Some? ==> at <= ReadArrays(s, at, h).value.next <= |s|
  {
    hide ReadSurface, ReadSkin, ReadColours, AllFinite, AllIndices, UvCount, SkinCount, MatCount;
    if ReadArrays(s, at, h).Some? {
      var r := ReadArrays(s, at, h).value;
      ArraysIff(s, at, h, r);
      ArraysLength(h, r.value);
    }
  }

  lemma ArraysLength(h: Head, a: Arrays)
    requires ArraysOk(h, a)
    ensures |ArraysBytes(a)|
         == 4 * (18 * h.tris + UvCount(h) + 2 * SkinCount(h) + MatCount(h) + 12 * h.materials)
  {
    hide AllFinite, AllIndices, Words;
  }

  /** Things that take at least k bytes each take at least k times their number. */
  lemma {:induction false} ManyNeedRoom<T>(read: nat -> Option<Parsed<T>>, end: nat, at: nat, n: nat, k: nat, room: nat)
    requires at <= end && room == k * n
    requires forall p: nat :: read(p).Some? ==> p + k <= read(p).value.next <= end
    ensures ReadMany(read, end, at, n).Some? ==> at + room <= ReadMany(read, end, at, n).value.next <= end
    decreases n
  {
    if n > 0 {
      assert k * n == k * (n - 1) + k;
      ManyNeedRoom(read, end, at, n - 1, k, k * (n - 1));
    }
  }

  lemma TakeNeedsRoom(utf8: Bytes -> bool, s: Bytes, at: nat)
    ensures ReadTake(utf8, s, at).Some? ==> at + 20 <= ReadTake(utf8, s, at).value.next <= |s|
  {
    hide Finite64, U32At, Ordered, GoodText;
  }

  lemma TextureNeedsRoom(utf8: Bytes -> bool, s: Bytes, at: nat)
    ensures ReadTexture(utf8, s, at).Some? ==> at + 56 <= ReadTexture(utf8, s, at).value.next <= |s|
  {
    hide ReadFloats, U32At, GoodText, GoodReference;
    FloatsIff(s, at + 12, 6, []);
    FloatsIff(s, at + 36, 4, []);
  }

  lemma MaterialNeedsRoom(utf8: Bytes -> bool, s: Bytes, at: nat)
    ensures ReadMaterial(utf8, s, at).Some? ==> at + 340 <= ReadMaterial(utf8, s, at).value.next <= |s|
  {
    hide ReadTexture, U32At, GoodText, ReadMany;
    forall p: nat
      ensures ReadTexture(utf8, s, p).Some? ==> p + 56 <= ReadTexture(utf8, s, p).value.next <= |s|
    {
      TextureNeedsRoom(utf8, s, p);
    }
    var name := ReadText(utf8, s, at);
    if name.Some? {
      ManyNeedRoom(TextureReader(utf8, s), |s|, name.value.next, 6, 56, 336);
    }
  }

  /** Takes and materials, if they can be read, have the room that is asked for beforehand. */
  lemma RestNeedsRoom(utf8: Bytes -> bool, s: Bytes, at: nat, takes: nat, materials: nat)
    requires at <= |s|
    ensures
      var t := ReadMany(TakeReader(utf8, s), |s|, at, takes);
      && (t.Some? ==> at <= t.value.next <= |s|)
      && (t.Some? && ReadMany(MaterialReader(utf8, s), |s|, t.value.next, materials).Some? ==>
            20 * takes + 340 * materials <= |s| - at)
  {
    hide ReadTake, ReadMaterial, ReadMany;
    forall p: nat
      ensures ReadTake(utf8, s, p).Some? ==> p + 20 <= ReadTake(utf8, s, p).value.next <= |s|
      ensures ReadMaterial(utf8, s, p).Some? ==> p + 340 <= ReadMaterial(utf8, s, p).value.next <= |s|
    {
      TakeNeedsRoom(utf8, s, p);
      MaterialNeedsRoom(utf8, s, p);
    }
    ManyNeedRoom(TakeReader(utf8, s), |s|, at, takes, 20, 20 * takes);
    var t := ReadMany(TakeReader(utf8, s), |s|, at, takes);
    if t.Some? {
      ManyNeedRoom(MaterialReader(utf8, s), |s|, t.value.next, materials, 340, 340 * materials);
    }
  }

  /** A failure among the first things is a failure of all. */
  lemma {:induction false} ManyFails<T>(read: nat -> Option<Parsed<T>>, end: nat, at: nat, i: nat, n: nat)
    requires i <= n && ReadMany(read, end, at, i) == None
    ensures ReadMany(read, end, at, n) == None
    decreases n
  {
    if i < n {
      ManyFails(read, end, at, i, n - 1);
    }
  }

  method NextTake(w: FbxWire, utf8: Bytes -> bool) returns (take: Option<Take>)
    requires w.Valid() && w.ok
    modifies w
    ensures w.Valid() && (take.Some? <==> ReadTake(utf8, w.data, old(w.at)).Some?)
    ensures take.Some? ==> w.ok && ReadTake(utf8, w.data, old(w.at)) == Some(Parsed(take.value, w.at))
  {
    hide ReadDouble, ReadText;
    var b0, b1 := w.F64();
    var e0, e1 := w.F64();
    if !w.ok || Rank(e0, e1) < Rank(b0, b1) {
      return None;
    }
    var name := w.String(utf8);
    return if w.ok then Some(Take((b0, b1), (e0, e1), name)) else None;
  }

  method NextTexture(w: FbxWire, utf8: Bytes -> bool) returns (texture: Option<Texture>)
    requires w.Valid()
    modifies w
    ensures w.Valid() && (texture.Some? <==> old(w.ok) && ReadTexture(utf8, w.data, old(w.at)).Some?)
    ensures texture.Some? ==> w.ok && ReadTexture(utf8, w.data, old(w.at)) == Some(Parsed(texture.value, w.at))
  {
    hide ReadFloats, ReadText, U32At;
    var reference := w.U32();
    var u := w.U32();
    var v := w.U32();
    var uv := w.Each(6);
    var tint := w.Each(4);
    var path := w.String(utf8);
    if !w.ok || !(reference <= 1 || reference == 0xFFFF_FFFF) || u > 1 || v > 1 || (reference == 1 && path == []) {
      return None;
    }
    return Some(Texture(reference, u, v, uv, tint, path));
  }

  method NextMaterial(w: FbxWire, utf8: Bytes -> bool) returns (material: Option<Material>)
    requires w.Valid() && w.ok
    modifies w
    ensures w.Valid() && (material.Some? <==> ReadMaterial(utf8, w.data, old(w.at)).Some?)
    ensures material.Some? ==> w.ok && ReadMaterial(utf8, w.data, old(w.at)) == Some(Parsed(material.value, w.at))
  {
    hide ReadText, ReadTexture;
    var name := w.String(utf8);
    ghost var start := w.at;
    ghost var read := TextureReader(utf8, w.data);
    var channels := [];
    for i := 0 to 6
      invariant w.Valid() && (w.ok ==> start <= |w.data|)
      invariant w.ok <==> ReadText(utf8, w.data, old(w.at)).Some?
      invariant w.ok ==> ReadText(utf8, w.data, old(w.at)) == Some(Parsed(name, start))
      invariant w.ok ==> ReadMany(read, |w.data|, start, i) == Some(Parsed(channels, w.at))
    {
      ghost var at := w.at;
      var texture := NextTexture(w, utf8);
      if texture.None? {
        if ReadText(utf8, w.data, old(w.at)).Some? {
          ManyFails(read, |w.data|, start, i + 1, 6);
        }
        return None;
      }
      channels := channels + [texture.value];
    }
    return if w.ok then Some(Material(name, channels)) else None;
  }

  method NextTakes(w: FbxWire, utf8: Bytes -> bool, n: nat) returns (takes: Option<seq<Take>>)
    requires w.Valid() && w.ok
    modifies w
    ensures w.Valid() && (takes.Some? <==> ReadMany(TakeReader(utf8, w.data), |w.data|, old(w.at), n).Some?)
    ensures takes.Some? ==>
              w.ok && ReadMany(TakeReader(utf8, w.data), |w.data|, old(w.at), n) == Some(Parsed(takes.value, w.at))
  {
    hide ReadTake;
    ghost var read := TakeReader(utf8, w.data);
    var got: seq<Take> := [];
    for i := 0 to n
      invariant w.Valid() && w.ok && ReadMany(read, |w.data|, old(w.at), i) == Some(Parsed(got, w.at))
    {
      var take := NextTake(w, utf8);
      if take.None? {
        ManyFails(read, |w.data|, old(w.at), i + 1, n);
        return None;
      }
      got := got + [take.value];
    }
    return Some(got);
  }

  method NextMaterials(w: FbxWire, utf8: Bytes -> bool, n: nat) returns (materials: Option<seq<Material>>)
    requires w.Valid() && w.ok
    modifies w
    ensures w.Valid() && (materials.Some? <==> ReadMany(MaterialReader(utf8, w.data), |w.data|, old(w.at), n).Some?)
    ensures materials.Some? ==>
              && w.ok
              && ReadMany(MaterialReader(utf8, w.data), |w.data|, old(w.at), n) == Some(Parsed(materials.value, w.at))
  {
    hide ReadMaterial;
    ghost var read := MaterialReader(utf8, w.data);
    var got: seq<Material> := [];
    for i := 0 to n
      invariant w.Valid() && w.ok && ReadMany(read, |w.data|, old(w.at), i) == Some(Parsed(got, w.at))
    {
      var material := NextMaterial(w, utf8);
      if material.None? {
        ManyFails(read, |w.data|, old(w.at), i + 1, n);
        return None;
      }
      got := got + [material.value];
    }
    return Some(got);
  }

  /** The arrays of the fixed part; those whose flag is not set are not read. */
  method NextArrays(w: FbxWire, h: Head) returns (a: Arrays)
    requires w.Valid() && w.ok
    modifies w
    ensures w.Valid() && (w.ok <==> ReadArrays(w.data, old(w.at), h).Some?)
    ensures w.ok ==> ReadArrays(w.data, old(w.at), h) == Some(Parsed(a, w.at))
  {
    hide ReadFloats, ReadIndices;
    ghost var start := w.at;
    var pos := w.Floats(9 * h.tris);
    var nrm := w.Floats(9 * h.tris);
    var uv := w.Floats(UvCount(h));
    var bone := w.Indices(SkinCount(h), h.bones);
    var weight := w.Floats(SkinCount(h));
    var mat := w.Indices(MatCount(h), h.materials);
    var mats := w.Floats(12 * h.materials);
    a := Arrays(pos, nrm, uv, bone, weight, mat, mats);
  }

  /** fbx_decode_metadata: nothing is shown of a description until all of it has been checked. */
  method DecodeMetadata(utf8: Bytes -> bool, payload: Bytes) returns (scene: Option<Model>)
    ensures scene == ReadMetadata(utf8, payload)
  {
    hide U32At, ReadArrays, ReadMany, HeadOk, Scene, TakeReader, MaterialReader;
    if |payload| < 32 || |payload| > MAX_PAYLOAD || payload[..4] != MAGIC {
      return None;
    }
    var w := new FbxWire(payload, 4);
    var tris := w.U32();
    var bones := w.U32();
    var takes := w.U32();
    var materials := w.U32();
    var flags := w.U32();
    var zero := w.U32();
    var other := w.U32();
    var h := Head(tris, bones, takes, materials, flags);
    if zero != 0 || other != 0 || !HeadOk(h) {
      return None;
    }
    ArraysNeedRoom(payload, 32, h);
    if 4 * (18 * tris + UvCount(h) + 2 * SkinCount(h) + MatCount(h) + 12 * materials) > |payload| - w.at {
      return None;
    }
    var arrays := NextArrays(w, h);
    if !w.ok {
      return None;
    }
    RestNeedsRoom(utf8, payload, w.at, takes, materials);
    if takes * 20 + materials * (4 + 6 * 56) > |payload| - w.at {
      return None;
    }
    var named := NextTakes(w, utf8, takes);
    if named.None? {
      return None;
    }
    var painted := NextMaterials(w, utf8, materials);
    if painted.None? || w.at != |payload| {
      return None;
    }
    return Some(Scene(h, arrays, named.value, painted.value));
  }
}
