/** The bounded reply assembler of the decoder transport (app/decoder_ipc.c:40-165). */
module Reply {
  import opened Wire

  const HEADER := 16
  const CHUNK := 65536
  const COUNT_MAX := 2000
  const PDF_DIM_MAX := 32768
  const PDF_PAGES_MAX := 10000
  const U64 := 0x1_0000_0000_0000_0000

  datatype Kind = Image | Archive | Pdf | Mesh | Model | Math
  datatype ArchiveOp = List | Entry

  /** What the caller fixes before the transfer. */
  datatype Wanted = Wanted(kind: Kind, op: ArchiveOp, dimension: u32, cap: u32, index: u32,
                           targetHeight: u32, sequence: u32)
  {
    /** The callers bound the side by 32768 (decoder_ipc.c:778-782, 810-816, 887-891). */
    predicate Sensible() {
      dimension <= 32768
    }
  }

  const IMAGE_MAGIC: seq<u8> := [0x57, 0x4E, 0x4F, 0x31]
  const ARCHIVE_MAGIC: seq<u8> := [0x41, 0x52, 0x4F, 0x31]
  const PDF_MAGIC: seq<u8> := [0x50, 0x44, 0x4F, 0x31]
  const MESH_MAGIC: seq<u8> := [0x4D, 0x44, 0x4F, 0x31]
  const MODEL_MAGIC: seq<u8> := [0x46, 0x42, 0x4F, 0x31]
  const MATH_MAGIC: seq<u8> := [0x4D, 0x41, 0x4F, 0x31]

  function Magic(kind: Kind): (m: seq<u8>)
    ensures |m| == 4
  {
    match kind
    case Image => IMAGE_MAGIC
    case Archive => ARCHIVE_MAGIC
    case Pdf => PDF_MAGIC
    case Mesh => MESH_MAGIC
    case Model => MODEL_MAGIC
    case Math => MATH_MAGIC
  }

  /** Bytes between the header and the payload proper: the PDF page count. */
  function Prefix(kind: Kind): nat {
    if kind.Pdf? then 4 else 0
  }

  // ----- the one-shot reading of a whole reply -----

  predicate HeaderValid(e: Wanted, h: seq<u8>)
    requires |h| >= HEADER
  {
    var a, b, size := U32At(h, 4), U32At(h, 8), U32At(h, 12);
    && h[..4] == Magic(e.kind)
    && match e.kind {
         case Mesh => a == 1 && b == 0 && size <= e.cap
         case Model => a == e.index && b == e.sequence && size <= e.cap
         case Archive =>
           && size <= e.cap
           && if e.op.List? then a <= COUNT_MAX && b == 0 && a * 17 <= size && (a == 0 ==> size == 0)
              else a == 0 && b == e.index
         case _ =>
           && 0 < a <= e.dimension
           && 0 < b <= (if e.kind.Pdf? then PDF_DIM_MAX else e.dimension)
           && (e.kind.Pdf? && e.targetHeight != 0 ==> b <= e.targetHeight)
           && a * b * 4 <= e.cap
           && a * b * 4 + Prefix(e.kind) == size
       }
  }

  predicate PagesValid(e: Wanted, pages: u32) {
    0 < pages <= PDF_PAGES_MAX && e.index < pages
  }

  /** A stream is a valid reply when it is a valid header and exactly the declared payload. */
  predicate ValidReply(e: Wanted, s: seq<u8>) {
    && |s| >= HEADER && HeaderValid(e, s)
    && |s| == HEADER + U32At(s, 12)
    && (e.kind.Pdf? ==> |s| >= HEADER + 4 && PagesValid(e, U32At(s, HEADER)))
  }

  function Payload(e: Wanted, s: seq<u8>): seq<u8>
    requires ValidReply(e, s)
  {
    s[HEADER + Prefix(e.kind)..]
  }

  /** What is left of a reply is still worth reading. */
  predicate Viable(e: Wanted, s: seq<u8>) {
    |s| >= HEADER ==>
      && HeaderValid(e, s)
      && |s| <= HEADER + U32At(s, 12)
      && (e.kind.Pdf? && |s| >= HEADER + 4 ==> PagesValid(e, U32At(s, HEADER)))
  }

  lemma HeaderPrefix(e: Wanted, s: seq<u8>, t: seq<u8>)
    requires |s| >= HEADER && |t| >= HEADER && s[..HEADER] == t[..HEADER]
    ensures HeaderValid(e, s) == HeaderValid(e, t)
    ensures U32At(s, 4) == U32At(t, 4) && U32At(s, 8) == U32At(t, 8) && U32At(s, 12) == U32At(t, 12)
  {
    assert forall i :: 0 <= i < HEADER ==> s[i] == s[..HEADER][i] == t[..HEADER][i] == t[i];
    assert s[..4] == s[..HEADER][..4] == t[..HEADER][..4] == t[..4];
  }

  /** Reading stops early only when no continuation can be a valid reply. */
  lemma NotViableIsFinal(e: Wanted, s: seq<u8>, more: seq<u8>)
    requires !Viable(e, s)
    ensures !Viable(e, s + more) && !ValidReply(e, s + more)
  {
    var t := s + more;
    assert t[..HEADER] == s[..HEADER];
    HeaderPrefix(e, s, t);
    if e.kind.Pdf? && |s| >= HEADER + 4 {
      assert forall i :: 0 <= i < |s| ==> t[i] == s[i];
    }
  }

  /** The reply under construction; the fields are those of struct image_reply. */
  class ImageReply {
    const wanted: Wanted
    const borrowed: bool
    const memory: bool      // whether allocations succeed
    const header: array<u8>
    const pageHeader: array<u8>
    const extra: array<u8>
    var pixels: array?<u8>
    var received: nat
    var bytes: u32
    var width: u32
    var height: u32
    var count: u32
    ghost var stream: seq<u8>  // every byte consumed so far

    ghost predicate Shape()
      reads this
    {
      && wanted.Sensible()
      && header.Length == HEADER && pageHeader.Length == 4 && extra.Length == 1
      && header != pageHeader && header != extra && pageHeader != extra
      && pixels != header && pixels != pageHeader && pixels != extra
      && (borrowed ==> wanted.kind.Model? && pixels != null && pixels.Length >= wanted.cap)
    }

    /** Still inside the 16 header bytes. */
    ghost predicate InHeader()
      reads this, header
    {
      && Shape() && received == |stream| < HEADER
      && header[..received] == stream && bytes == 0 && (borrowed || pixels == null)
    }

    /** A valid header has been taken apart and nothing read since contradicts it. */
    ghost predicate PastHeader()
      reads this
    {
      && Shape() && received == |stream| >= HEADER
      && Viable(wanted, stream) && bytes == U32At(stream, 12) && FieldState()
    }

    ghost predicate FieldState()
      reads this
      requires |stream| >= HEADER
    {
      match wanted.kind {
        case Mesh => true
        case Model => true
        case Archive => count == U32At(stream, 4)
        case _ => width == U32At(stream, 4) && height == U32At(stream, 8)
      }
    }

    /** Still inside the page count of a PDF reply. */
    ghost predicate InPages()
      reads this, pageHeader
    {
      && PastHeader() && wanted.kind.Pdf? && received < HEADER + 4
      && pixels == null && pageHeader[..received - HEADER] == stream[HEADER..]
    }

    function Start(): nat {
      HEADER + Prefix(wanted.kind)
    }

    /** The payload buffer exists and holds the payload read so far. */
    ghost predicate InPayload()
      reads this, pixels
    {
      && PastHeader() && received >= Start()
      && pixels != null && pixels.Length >= bytes - Prefix(wanted.kind)
      && pixels[..received - Start()] == stream[Start()..]
      && (wanted.kind.Pdf? ==> count == U32At(stream, HEADER))
    }

    ghost predicate Valid()
      reads this, header, pageHeader, pixels
    {
      InHeader() || InPages() || InPayload()
    }

    constructor (wanted: Wanted, scratch: array?<u8>, memory: bool)
      requires wanted.Sensible()
      requires scratch != null ==> wanted.kind.Model? && scratch.Length >= wanted.cap
      ensures Valid() && this.wanted == wanted && borrowed == (scratch != null) && this.memory == memory
      ensures stream == [] && pixels == scratch
      ensures fresh(header) && fresh(pageHeader) && fresh(extra)
    {
      this.wanted := wanted;
      this.borrowed := scratch != null;
      this.memory := memory;
      header := new u8[16];
      pageHeader := new u8[4];
      extra := new u8[1];
      pixels := scratch;
      received, bytes, width, height, count := 0, 0, 0, 0, 0;
      stream := [];
    }

    /** How many bytes the next read may bring: never past the header, the page count or the payload. */
    ghost function Offer(): nat
      reads this, header, pageHeader, pixels
      requires Valid()
    {
      if InHeader() then HEADER - received
      else if InPages() then HEADER + 4 - received
      else if received < HEADER + bytes then
        if HEADER + bytes - received > CHUNK then CHUNK else HEADER + bytes - received
      else 1
    }

    /** Where the next read goes, and how much it may bring (image_buffer). */
    method Buffer() returns (region: array<u8>, offset: nat, size: nat)
      requires Valid()
      ensures 0 < size <= CHUNK && offset + size <= region.Length
      ensures size == Offer()
      ensures InHeader() ==> region == header && offset == received
      ensures InPages() ==> region == pageHeader && offset == received - HEADER
      ensures InPayload() && received < HEADER + bytes ==> region == pixels && offset == received - Start()
      ensures InPayload() && received >= HEADER + bytes ==> region == extra && offset == 0
    {
      if received < HEADER {
        return header, received, HEADER - received;
      }
      var at := received - HEADER;
      if wanted.kind.Pdf? {
        if at < 4 {
          return pageHeader, at, 4 - at;
        }
        at := at - 4;
      }
      var total := bytes - (if wanted.kind.Pdf? then 4 else 0);
      if at < total {
        return pixels, at, if total - at > CHUNK then CHUNK else total - at;
      }
      return extra, 0, 1;
    }

    /** Mesh and model headers: nothing but the payload size is kept. */
    method PlainHeader(h: seq<u8>) returns (ok: bool)
      requires |h| == HEADER && (wanted.kind.Mesh? || wanted.kind.Model?)
      modifies this`bytes
      ensures bytes == U32At(h, 12) && ok == HeaderValid(wanted, h)
    {
      bytes := U32At(h, 12);
      var mesh := wanted.kind.Mesh?;
      return !(h[..4] != (if mesh then MESH_MAGIC else MODEL_MAGIC)
               || U32At(h, 4) != (if mesh then 1 else wanted.index)
               || U32At(h, 8) != (if mesh then 0 else wanted.sequence)
               || bytes > wanted.cap);
    }

    method ArchiveHeader(h: seq<u8>) returns (ok: bool)
      requires |h| == HEADER && wanted.kind.Archive?
      modifies this`bytes, this`count
      ensures bytes == U32At(h, 12) && count == U32At(h, 4) && ok == HeaderValid(wanted, h)
    {
      bytes := U32At(h, 12);
      count := U32At(h, 4);
      var index := U32At(h, 8);
      if h[..4] != ARCHIVE_MAGIC || bytes > wanted.cap {
        return false;
      }
      if wanted.op.List? {
        return !(count > COUNT_MAX || index != 0 || count * 17 % U64 > bytes || (count == 0 && bytes != 0));
      }
      return !(count != 0 || index != wanted.index);
    }

    method PictureHeader(h: seq<u8>) returns (ok: bool)
      requires |h| == HEADER && wanted.Sensible()
      requires wanted.kind.Image? || wanted.kind.Math? || wanted.kind.Pdf?
      modifies this`bytes, this`width, this`height
      ensures bytes == U32At(h, 12) && width == U32At(h, 4) && height == U32At(h, 8)
      ensures ok == HeaderValid(wanted, h)
    {
      bytes := U32At(h, 12);
      width := U32At(h, 4);
      height := U32At(h, 8);
      var expected := width * height % U64 * 4 % U64;
      var pdf := wanted.kind.Pdf?;
      var magic := if pdf then PDF_MAGIC else if wanted.kind.Math? then MATH_MAGIC else IMAGE_MAGIC;
      if h[..4] != magic || width == 0 || height == 0 || width > wanted.dimension
        || height > (if pdf then PDF_DIM_MAX else wanted.dimension)
        || (pdf && wanted.targetHeight != 0 && height > wanted.targetHeight) {
        return false;
      }
      ExactArea(width, height);
      return !(expected > wanted.cap || expected + (if pdf then 4 else 0) != bytes);
    }

    method CheckHeader(h: seq<u8>) returns (ok: bool)
      requires |h| == HEADER && wanted.Sensible()
      modifies this`bytes, this`width, this`height, this`count
      ensures bytes == U32At(h, 12) && ok == HeaderValid(wanted, h)
      ensures wanted.kind.Archive? ==> count == U32At(h, 4)
      ensures wanted.kind.Image? || wanted.kind.Math? || wanted.kind.Pdf? ==>
                width == U32At(h, 4) && height == U32At(h, 8)
    {
      if wanted.kind.Mesh? || wanted.kind.Model? {
        ok := PlainHeader(h);
      } else if wanted.kind.Archive? {
        ok := ArchiveHeader(h);
      } else {
        ok := PictureHeader(h);
      }
    }

    /** Check a complete header, take its fields and provide the payload buffer (decoder_header). */
    method DecoderHeader() returns (ok: bool)
      requires HeaderDone()
      modifies this`bytes, this`width, this`height, this`count, this`pixels
      ensures Shape() && bytes == U32At(stream, 12) && FieldState()
      ensures ok <==> HeaderValid(wanted, stream) && (borrowed || wanted.kind.Pdf? || memory)
      ensures borrowed || wanted.kind.Pdf? || !ok ==> pixels == old(pixels)
      ensures ok && !borrowed && !wanted.kind.Pdf? ==>
                pixels != null && pixels.Length >= bytes && fresh(pixels)
    {
      ghost var h := header[..];
      ok := CheckHeader(header[..]);
      if ok && !borrowed && !wanted.kind.Pdf? {
        if memory {
          pixels := new u8[if bytes != 0 then bytes else 1];
        } else {
          ok := false;
        }
      }
    }

    ghost predicate HeaderDone()
      reads this, header
    {
      && Shape() && received == |stream| == HEADER && header[..] == stream
      && (borrowed || pixels == null)
    }

    /** The allocations a reply of this length has needed could be made. */
    predicate Provided(length: nat) {
      memory || borrowed || length < HEADER || (wanted.kind.Pdf? && length < HEADER + 4)
    }

    method HeaderReceived(size: nat, ghost data: seq<u8>) returns (ok: bool)
      requires InHeader() && 0 < size == |data| <= HEADER - received
      requires header[received..received + size] == data
      modifies this
      ensures ok <==> Viable(wanted, old(stream) + data) && Provided(|old(stream)| + |data|)
      ensures ok ==> Valid() && stream == old(stream) + data
      ensures pixels == old(pixels) || fresh(pixels)
      ensures borrowed ==> pixels == old(pixels)
    {
      assert header[..received + size] == header[..received] + header[received..received + size];
      received := received + size;
      stream := stream + data;
      if received == HEADER {
        assert header[..] == header[..received];
        ok := DecoderHeader();
      } else {
        ok := true;
      }
    }

    /** The page count is complete: check it, then allocate the picture. */
    method PagesComplete() returns (ok: bool)
      requires Shape() && wanted.kind.Pdf? && received == |stream| == HEADER + 4
      requires HeaderValid(wanted, stream) && bytes == U32At(stream, 12) && FieldState()
      requires pageHeader[..4] == stream[HEADER..]
      modifies this`count, this`pixels
      ensures ok <==> PagesValid(wanted, U32At(stream, HEADER)) && memory
      ensures ok ==> InPayload()
      ensures pixels == old(pixels) || fresh(pixels)
    {
      U32Slice(stream, HEADER, HEADER + 4, 0);
      assert stream[HEADER..HEADER + 4] == stream[HEADER..] == pageHeader[..];
      count := U32At(pageHeader[..], 0);
      if count == 0 || count > PDF_PAGES_MAX || wanted.index >= count || !memory {
        return false;
      }
      pixels := new u8[bytes - 4];
      return true;
    }

    method PagesReceived(size: nat, ghost data: seq<u8>) returns (ok: bool)
      requires InPages() && 0 < size == |data| <= HEADER + 4 - received
      requires pageHeader[received - HEADER..received - HEADER + size] == data
      modifies this
      ensures ok <==> Viable(wanted, old(stream) + data) && Provided(|old(stream)| + |data|)
      ensures ok ==> Valid() && stream == old(stream) + data
      ensures pixels == old(pixels) || fresh(pixels)
    {
      StreamGrows(wanted, stream, data);
      PdfHasPages(wanted, stream);
      JoinTails(stream, data, pageHeader[..], HEADER);
      received := received + size;
      stream := stream + data;
      if received == HEADER + 4 {
        ok := PagesComplete();
      } else {
        ok := true;
      }
    }

    method PayloadReceived(size: nat, ghost data: seq<u8>) returns (ok: bool)
      requires InPayload() && received < HEADER + bytes && 0 < size == |data| <= HEADER + bytes - received
      requires pixels[received - Start()..received - Start() + size] == data
      modifies this`received, this`stream
      ensures Viable(wanted, old(stream) + data)
      ensures ok && Valid() && stream == old(stream) + data
    {
      StreamGrows(wanted, stream, data);
      JoinTails(stream, data, pixels[..], Start());
      received := received + size;
      stream := stream + data;
      return true;
    }

    /** Account for bytes that were read into the offered range (image_received). */
    method Received(size: nat, ghost data: seq<u8>) returns (ok: bool)
      requires Valid() && 0 < size == |data| <= Offer()
      requires InHeader() ==> header[received..received + size] == data
      requires InPages() ==> pageHeader[received - HEADER..received - HEADER + size] == data
      requires InPayload() && received < HEADER + bytes ==>
                 pixels[received - Start()..received - Start() + size] == data
      requires Provided(received)
      modifies this
      ensures ok <==> Viable(wanted, old(stream) + data) && Provided(|old(stream)| + |data|)
      ensures ok ==> Valid() && stream == old(stream) + data
      ensures pixels == old(pixels) || fresh(pixels)
      ensures borrowed ==> pixels == old(pixels)
    {
      if received >= HEADER + bytes && received >= HEADER {
        StreamGrows(wanted, stream, data);
        return false;
      }
      if received < HEADER {
        ok := HeaderReceived(size, data);
      } else if wanted.kind.Pdf? && received < HEADER + 4 {
        ok := PagesReceived(size, data);
      } else {
        ok := PayloadReceived(size, data);
      }
    }

    /** One read: the system puts data where Buffer said, and Received accounts for it. */
    method Deliver(data: seq<u8>) returns (ok: bool)
      requires Valid() && 0 < |data| <= Offer() && Provided(received)
      modifies this, header, pageHeader, extra, pixels
      ensures ok <==> Viable(wanted, old(stream) + data) && Provided(|old(stream)| + |data|)
      ensures ok ==> Valid() && stream == old(stream) + data
      ensures pixels == old(pixels) || fresh(pixels)
      ensures borrowed ==> pixels == old(pixels)
    {
      var region, offset, size := Buffer();
      Fill(region, offset, data);
      ok := Received(|data|, data);
    }

    /** The reply is whole (image_complete). */
    predicate Complete()
      reads this
    {
      pixels != null && received == HEADER + bytes
    }

    lemma CompleteIsValidReply()
      requires Valid()
      ensures Complete() <==> ValidReply(wanted, stream)
      ensures Complete() ==>
                && |stream| >= HEADER && pixels.Length >= bytes - Prefix(wanted.kind) >= 0
                && pixels[..bytes - Prefix(wanted.kind)] == Payload(wanted, stream)
                && (wanted.kind.Pdf? ==> count == U32At(stream, HEADER))
                && FieldState()
    {
      if wanted.kind.Pdf? && |stream| >= HEADER {
        PdfHasPages(wanted, stream);
      }
    }
  }

  method Fill(region: array<u8>, offset: nat, data: seq<u8>)
    requires offset + |data| <= region.Length
    modifies region
    ensures region[..offset] == old(region[..offset])
    ensures region[offset..offset + |data|] == data
  {
    for i := 0 to |data|
      invariant region[..offset] == old(region[..offset])
      invariant region[offset..offset + i] == data[..i]
    {
      region[offset + i] := data[i];
    }
  }

  /** One read of a known stream, as long as the system likes within the offer. */
  method ReadSome(reply: ImageReply, stream: seq<u8>, at: nat, want: nat) returns (ok: bool, next: nat)
    requires at < |stream| && reply.Valid() && reply.stream == stream[..at] && reply.Provided(at)
    modifies reply, reply.header, reply.pageHeader, reply.extra, reply.pixels
    ensures at < next <= |stream|
    ensures ok ==> reply.Valid() && reply.stream == stream[..next] && reply.Provided(next)
    ensures !ok ==> !(ValidReply(reply.wanted, stream) && (reply.memory || reply.borrowed))
    ensures reply.pixels == old(reply.pixels) || fresh(reply.pixels)
    ensures reply.borrowed ==> reply.pixels == old(reply.pixels)
  {
    var _, _, capacity := reply.Buffer();
    var n := if 0 < want < capacity then want else capacity;
    n := if n > |stream| - at then |stream| - at else n;
    next := at + n;
    assert stream[..at] + stream[at..next] == stream[..next];
    ok := reply.Deliver(stream[at..next]);
    if !ok && !Viable(reply.wanted, stream[..next]) {
      assert stream == stream[..next] + stream[next..];
      NotViableIsFinal(reply.wanted, stream[..next], stream[next..]);
    }
  }

  /** Whatever the cuts between reads, the assembler accepts exactly the valid replies, and then
      holds exactly their payload. */
  method ReceiveAll(reply: ImageReply, stream: seq<u8>, cuts: seq<nat>) returns (ok: bool)
    requires reply.Valid() && reply.stream == []
    modifies reply, reply.header, reply.pageHeader, reply.extra, reply.pixels
    ensures ok <==> ValidReply(reply.wanted, stream) && (reply.memory || reply.borrowed)
    ensures ok ==>
              && reply.pixels != null && reply.bytes == U32At(stream, 12)
              && Prefix(reply.wanted.kind) <= reply.bytes <= reply.pixels.Length + Prefix(reply.wanted.kind)
              && reply.pixels[..reply.bytes - Prefix(reply.wanted.kind)] == Payload(reply.wanted, stream)
    ensures ok && reply.borrowed ==> reply.pixels == old(reply.pixels)
  {
    var at, k, more := 0, 0, true;
    while at < |stream|
      invariant 0 <= at <= |stream| && 0 <= k
      invariant reply.Valid() && reply.stream == stream[..at] && reply.Provided(at)
      invariant reply.pixels == old(reply.pixels) || fresh(reply.pixels)
      invariant reply.borrowed ==> reply.pixels == old(reply.pixels)
    {
      more, at := ReadSome(reply, stream, at, if k < |cuts| then cuts[k] else 0);
      if !more {
        return false;
      }
      k := k + 1;
    }
    assert stream[..at] == stream;
    reply.CompleteIsValidReply();
    return reply.Complete();
  }

  /** A PDF reply declares room for its page count. */
  lemma PdfHasPages(w: Wanted, s: seq<u8>)
    requires |s| >= HEADER && w.kind.Pdf? && HeaderValid(w, s)
    ensures U32At(s, 12) >= 8
  {
    AtLeastOne(U32At(s, 4), U32At(s, 8));
  }

  lemma AtLeastOne(a: int, b: int)
    requires a >= 1 && b >= 1
    ensures a * b >= 1
  {
    assert (a - 1) * b >= 0;
  }

  /** A buffer that holds a stream's tail and then new data holds the grown stream's tail. */
  lemma JoinTails(s: seq<u8>, data: seq<u8>, buffer: seq<u8>, start: nat)
    requires start <= |s| && |s| - start + |data| <= |buffer|
    requires buffer[..|s| - start] == s[start..]
    requires buffer[|s| - start..|s| - start + |data|] == data
    ensures buffer[..|s| - start + |data|] == (s + data)[start..]
  {
  }

  /** Past the header, reading on changes neither the header nor what it declared. */
  lemma StreamGrows(w: Wanted, s: seq<u8>, data: seq<u8>)
    requires |s| >= HEADER
    ensures (s + data)[..HEADER] == s[..HEADER]
    ensures HeaderValid(w, s + data) == HeaderValid(w, s)
    ensures U32At(s + data, 4) == U32At(s, 4) && U32At(s + data, 8) == U32At(s, 8)
    ensures U32At(s + data, 12) == U32At(s, 12)
    ensures |s| >= HEADER + 4 ==> U32At(s + data, HEADER) == U32At(s, HEADER)
  {
    var t := s + data;
    assert t[..HEADER] == s[..HEADER];
    HeaderPrefix(w, s, t);
    assert forall i :: 0 <= i < |s| ==> t[i] == s[i];
  }

  /** Within the accepted sides the 64-bit area does not wrap. */
  lemma ExactArea(w: u32, h: u32)
    requires w <= 32768 && h <= 32768
    ensures w * h % U64 * 4 % U64 == w * h * 4
  {
    AreaBound(w, h);
    Unwrapped(w * h);
  }

  lemma AreaBound(w: int, h: int)
    requires 0 <= w <= 32768 && 0 <= h <= 32768
    ensures 0 <= w * h <= 0x4000_0000
  {
    assert (32768 - w) * h >= 0;
  }

  lemma Unwrapped(area: int)
    requires 0 <= area <= 0x4000_0000
    ensures area % U64 * 4 % U64 == area * 4
  {
  }
}
