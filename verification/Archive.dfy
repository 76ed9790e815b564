/** Archive listings: the helper that writes them (app/archive.c:46-160, 176-220) and the app that
    reads them back (app/archive.odin:59-103). libarchive is a sequence of headers. */
module Archive {
  import opened Collections
  import opened Options
  import opened Radix
  import opened Wire
  import opened XorWords
  import Reply

  type Bytes = seq<u8>
  type i64 = x: int | -0x8000_0000_0000_0000 <= x < 0x8000_0000_0000_0000

  const ENTRY_MAX: nat := 64 * 1024 * 1024
  const LIST_MAX: nat := 8 * 1024 * 1024
  const COUNT_MAX: nat := 2000
  const SCAN_MAX: nat := 65536
  const NAME_MAX: nat := 4096

  /** One listed file: its header's position in the archive, its size (-1 unknown) and its name. */
  datatype Entry = Entry(index: u32, size: i64, name: Bytes)

  // ----- the record format -----

  /** The unsigned 64-bit integer with the same bits. */
  function Unsigned(size: i64): nat {
    if size < 0 then size + 0x1_0000_0000_0000_0000 else size
  }

  function Signed(low: u32, high: u32): i64 {
    var bits: int := low + 0x1_0000_0000 * (high as int);
    if bits < 0x8000_0000_0000_0000 then bits else bits - 0x1_0000_0000_0000_0000
  }

  function Low(size: i64): u32 {
    Unsigned(size) % 0x1_0000_0000
  }

  function High(size: i64): u32 {
    Unsigned(size) / 0x1_0000_0000
  }

  lemma SizeRoundTrip(size: i64, low: u32, high: u32)
    ensures Signed(Low(size), High(size)) == size
    ensures Low(Signed(low, high)) == low && High(Signed(low, high)) == high
  {
  }

  predicate Storable(e: Entry) {
    |e.name| <= NAME_MAX
  }

  function Serialize(e: Entry): (s: Bytes)
    requires Storable(e)
    ensures |s| == 16 + |e.name|
  {
    Put32(e.index) + Put32(|e.name|) + Put32(Low(e.size)) + Put32(High(e.size)) + e.name
  }

  function SerializeAll(entries: seq<Entry>): Bytes
    requires forall i :: 0 <= i < |entries| ==> Storable(entries[i])
  {
    if entries == [] then [] else Serialize(entries[0]) + SerializeAll(entries[1..])
  }

  lemma {:induction false} SerializeSnoc(entries: seq<Entry>, e: Entry)
    requires Storable(e) && forall i :: 0 <= i < |entries| ==> Storable(entries[i])
    ensures SerializeAll(entries + [e]) == SerializeAll(entries) + Serialize(e)
    decreases |entries|
  {
    hide Serialize;
    var all := entries + [e];
    if entries == [] {
      assert all[1..] == [];
      assert SerializeAll(all) == Serialize(e) + [];
    } else {
      assert all[0] == entries[0] && all[1..] == entries[1..] + [e];
      SerializeSnoc(entries[1..], e);
      assert Serialize(entries[0]) + (SerializeAll(entries[1..]) + Serialize(e))
          == (Serialize(entries[0]) + SerializeAll(entries[1..])) + Serialize(e);
    }
  }

  // ----- reading a listing -----

  /** The test that Odin's utf8.valid_string makes is a parameter: it only has to be a predicate. */
  predicate GoodName(utf8: Bytes -> bool, name: Bytes) {
    utf8(name) && 0 !in name
  }

  /** The record at a position: its entry, once everything but the name's text is checked. */
  function RecordAt(s: Bytes, at: nat, previous: int): (r: Option<Entry>)
    requires at <= |s|
    ensures r.Some? ==> Storable(r.value) && at + 16 + |r.value.name| <= |s|
  {
    if |s| - at < 16 then None
    else
      var index, length := U32At(s, at), U32At(s, at + 4);
      var size := Signed(U32At(s, at + 8), U32At(s, at + 12));
      if index >= SCAN_MAX || index <= previous || length == 0 || length > NAME_MAX
         || length > |s| - (at + 16) || size < -1
      then None
      else Some(Entry(index, size, s[at + 16..at + 16 + length]))
  }

  function ParseFrom(utf8: Bytes -> bool, s: Bytes, at: nat, previous: int, count: nat): Option<seq<Entry>>
    requires at <= |s|
    decreases count
  {
    if count == 0 then if at == |s| then Some([]) else None
    else
      match RecordAt(s, at, previous)
      case None => None
      case Some(e) =>
        if !GoodName(utf8, e.name) then None
        else
          match ParseFrom(utf8, s, at + 16 + |e.name|, e.index, count - 1)
          case None => None
          case Some(rest) => Some([e] + rest)
  }

  function Parse(utf8: Bytes -> bool, s: Bytes, count: nat): Option<seq<Entry>> {
    if count > COUNT_MAX || |s| > LIST_MAX then None else ParseFrom(utf8, s, 0, -1, count)
  }

  /** arc_parse_entries: one record per turn; any fault refuses the whole listing. */
  method ParseEntries(utf8: Bytes -> bool, payload: Bytes, count: nat) returns (r: Option<seq<Entry>>)
    ensures r == Parse(utf8, payload, count)
  {
    hide RecordAt;
    if count > COUNT_MAX || |payload| > LIST_MAX {
      return None;
    }
    var entries: seq<Entry> := [];
    assert forall rest: seq<Entry> :: entries + rest == rest;
    var position: nat, previous: int := 0, -1;
    while |entries| < count
      invariant |entries| <= count && position <= |payload|
      invariant Parse(utf8, payload, count)
             == match ParseFrom(utf8, payload, position, previous, count - |entries|)
                case None => None
                case Some(rest) => Some(entries + rest)
    {
      var record := ReadRecord(payload, position, previous);
      if record.None? || !GoodName(utf8, record.value.name) {
        return None;
      }
      var e := record.value;
      ParseOn(utf8, payload, position, previous, count - |entries|, entries, e);
      entries := entries + [e];
      position := position + 16 + |e.name|;
      previous := e.index;
    }
    if position != |payload| {
      return None;
    }
    assert entries + [] == entries;
    return Some(entries);
  }

  lemma ParseOn(utf8: Bytes -> bool, s: Bytes, at: nat, previous: int, count: nat, entries: seq<Entry>, e: Entry)
    requires at <= |s| && count > 0 && RecordAt(s, at, previous) == Some(e) && GoodName(utf8, e.name)
    ensures
      (match ParseFrom(utf8, s, at, previous, count) case None => None case Some(rest) => Some(entries + rest))
      == match ParseFrom(utf8, s, at + 16 + |e.name|, e.index, count - 1)
         case None => None
         case Some(rest) => Some((entries + [e]) + rest)
  {
    hide RecordAt;
    match ParseFrom(utf8, s, at + 16 + |e.name|, e.index, count - 1)
    case None =>
    case Some(rest) => assert entries + ([e] + rest) == (entries + [e]) + rest;
  }

  method ReadRecord(payload: Bytes, at: nat, previous: int) returns (r: Option<Entry>)
    requires at <= |payload|
    ensures r == RecordAt(payload, at, previous)
  {
    if |payload| - at < 16 {
      return None;
    }
    var record := payload[at..];
    U32Slice(payload, at, |payload|, 0);
    U32Slice(payload, at, |payload|, 4);
    U32Slice(payload, at, |payload|, 8);
    U32Slice(payload, at, |payload|, 12);
    assert record == payload[at..|payload|];
    var index, length := U32At(record, 0), U32At(record, 4);
    var declared := Signed(U32At(record, 8), U32At(record, 12));
    var position := at + 16;
    if index >= SCAN_MAX || index <= previous || length == 0 || length > NAME_MAX
       || length > |payload| - position || declared < -1
    {
      return None;
    }
    return Some(Entry(index, declared, payload[position..position + length]));
  }

  /** What a reader may rely on: increasing positions, sizes and names within bounds. */
  predicate Fits(utf8: Bytes -> bool, e: Entry, previous: int) {
    previous < e.index < SCAN_MAX && 0 < |e.name| <= NAME_MAX && GoodName(utf8, e.name) && e.size >= -1
  }

  function Before(entries: seq<Entry>, i: nat, previous: int): int
    requires i <= |entries|
  {
    if i == 0 then previous else entries[i - 1].index
  }

  predicate Listed(utf8: Bytes -> bool, entries: seq<Entry>, previous: int) {
    forall i :: 0 <= i < |entries| ==> Fits(utf8, entries[i], Before(entries, i, previous))
  }

  /** The same without the chain: each entry is within bounds and the positions increase. */
  predicate Orderly(utf8: Bytes -> bool, entries: seq<Entry>) {
    && (forall i :: 0 <= i < |entries| ==>
          && entries[i].index < 65536 && entries[i].size >= -1
          && 0 < |entries[i].name| <= 4096 && utf8(entries[i].name) && 0 !in entries[i].name)
    && forall i, j :: 0 <= i < j < |entries| ==> entries[i].index < entries[j].index
  }

  lemma ListedIsOrderly(utf8: Bytes -> bool, entries: seq<Entry>)
    ensures Listed(utf8, entries, -1) <==> Orderly(utf8, entries)
  {
    if Listed(utf8, entries, -1) {
      forall i, j | 0 <= i < j < |entries|
        ensures entries[i].index < entries[j].index
      {
        Increasing(utf8, entries, i, j);
      }
      assert forall i :: 0 <= i < |entries| ==> Fits(utf8, entries[i], Before(entries, i, -1));
    }
  }

  lemma {:induction false} Increasing(utf8: Bytes -> bool, entries: seq<Entry>, i: nat, j: nat)
    requires Listed(utf8, entries, -1) && i < j < |entries|
    ensures entries[i].index < entries[j].index
    decreases j
  {
    hide Listed;
    NextIsLater(utf8, entries, j);
    if i < j - 1 {
      Increasing(utf8, entries, i, j - 1);
    }
  }

  lemma NextIsLater(utf8: Bytes -> bool, entries: seq<Entry>, j: nat)
    requires Listed(utf8, entries, -1) && 0 < j < |entries|
    ensures entries[j - 1].index < entries[j].index
  {
    hide GoodName;
    assert Fits(utf8, entries[j], Before(entries, j, -1));
  }

  lemma U32Here(s: Bytes, i: nat, n: u32)
    requires i + 4 <= |s| && s[i..i + 4] == Put32(n)
    ensures U32At(s, i) == n
  {
    PutGet(n);
    U32Slice(s, i, i + 4, 0);
  }

  lemma SerializedParts(e: Entry)
    requires Storable(e)
    ensures
      var s := Serialize(e);
      && s[0..4] == Put32(e.index) && s[4..8] == Put32(|e.name|) && s[8..12] == Put32(Low(e.size))
      && s[12..16] == Put32(High(e.size)) && s[16..] == e.name
  {
    hide Put32, Low, High;
  }

  /** A record's layout: position and name length first, then the size as 64 bits in two's complement,
      lowest byte first, then the name. */
  lemma RecordLayout(e: Entry, k: nat, j: nat)
    requires Storable(e) && k < 8 && j < 8
    ensures
      var s := Serialize(e);
      && U32At(s, 0) == e.index && U32At(s, 4) == |e.name| && s[16..] == e.name
      && Bit(s[8 + k], j) == Bit(e.size % 0x1_0000_0000_0000_0000, 8 * k + j)
  {
    hide Serialize, Put32, U32At, Bit;
    var s := Serialize(e);
    SerializedParts(e);
    U32Here(s, 0, e.index);
    U32Here(s, 4, |e.name|);
    if k < 4 {
      assert s[8 + k] == s[8..12][k];
      PutBits(Low(e.size), k, j);
      LowBitsOf(Unsigned(e.size), 32, 8 * k + j);
    } else {
      assert s[8 + k] == s[12..16][k - 4];
      PutBits(High(e.size), k - 4, j);
      BitOfQuotient(Unsigned(e.size), 32, 8 * (k - 4) + j);
    }
    WordSize();
  }

  lemma WordSize()
    ensures Pow2(32) == 0x1_0000_0000
  {
    ByteSizes();
    Pow2Add(16, 16);
  }

  lemma RecordReads(s: Bytes, at: nat, previous: int, e: Entry)
    requires 0 < |e.name| <= NAME_MAX && previous < e.index < SCAN_MAX && e.size >= -1
    requires at + 16 + |e.name| <= |s| && s[at..at + 16 + |e.name|] == Serialize(e)
    ensures RecordAt(s, at, previous) == Some(e)
  {
    hide Serialize, Put32, U32At, Low, High, Signed;
    var x := Serialize(e);
    SerializedParts(e);
    SliceOfSlice(s, at, x, 0, 4);
    SliceOfSlice(s, at, x, 4, 8);
    SliceOfSlice(s, at, x, 8, 12);
    SliceOfSlice(s, at, x, 12, 16);
    SliceOfSlice(s, at, x, 16, |x|);
    U32Here(s, at, e.index);
    U32Here(s, at + 4, |e.name|);
    U32Here(s, at + 8, Low(e.size));
    U32Here(s, at + 12, High(e.size));
    SizeRoundTrip(e.size, 0, 0);
  }

  lemma FiveSlices(s: Bytes, at: nat, e: nat)
    requires at + 16 <= e <= |s|
    ensures s[at..e] == s[at..at + 4] + s[at + 4..at + 8] + s[at + 8..at + 12] + s[at + 12..at + 16] + s[at + 16..e]
  {
  }

  lemma RecordWasWritten(s: Bytes, at: nat, previous: int)
    requires at <= |s| && RecordAt(s, at, previous).Some?
    ensures
      var e := RecordAt(s, at, previous).value;
      && s[at..at + 16 + |e.name|] == Serialize(e)
      && 0 < |e.name| <= NAME_MAX && previous < e.index < SCAN_MAX && e.size >= -1
  {
    hide Put32, U32At, Low, High, Signed;
    var e := RecordAt(s, at, previous).value;
    GetPut(s, at);
    GetPut(s, at + 4);
    GetPut(s, at + 8);
    GetPut(s, at + 12);
    SizeRoundTrip(0, U32At(s, at + 8), U32At(s, at + 12));
    FiveSlices(s, at, at + 16 + |e.name|);
  }

  lemma SplitRecord(s: Bytes, at: nat, x: Bytes, y: Bytes)
    requires at + |x| + |y| == |s| && s[at..] == x + y
    ensures s[at..at + |x|] == x && s[at + |x|..] == y
  {
    assert s[at..at + |x + y|] == x + y;
    SliceOfSlice(s, at, x + y, 0, |x|);
    SliceOfSlice(s, at, x + y, |x|, |x| + |y|);
  }

  predicate AllStorable(entries: seq<Entry>) {
    forall i :: 0 <= i < |entries| ==> Storable(entries[i])
  }

  /** Every listing that is written is read back entry by entry. */
  lemma {:induction false} ListingReads(utf8: Bytes -> bool, s: Bytes, at: nat, previous: int, entries: seq<Entry>)
    requires Listed(utf8, entries, previous) && AllStorable(entries)
    requires at <= |s| && s[at..] == SerializeAll(entries)
    ensures ParseFrom(utf8, s, at, previous, |entries|) == Some(entries)
    decreases |entries|
  {
    hide RecordAt, Serialize, GoodName, Listed;
    if entries == [] {
    } else {
      var e, rest := entries[0], entries[1..];
      SplitRecord(s, at, Serialize(e), SerializeAll(rest));
      ListedRest(utf8, entries, previous);
      RecordReads(s, at, previous, e);
      ListingReads(utf8, s, at + 16 + |e.name|, e.index, rest);
      assert [e] + rest == entries;
    }
  }

  lemma ListedRest(utf8: Bytes -> bool, entries: seq<Entry>, previous: int)
    requires Listed(utf8, entries, previous) && entries != []
    ensures Fits(utf8, entries[0], previous) && Listed(utf8, entries[1..], entries[0].index)
  {
    var rest := entries[1..];
    forall i | 0 <= i < |rest|
      ensures Fits(utf8, rest[i], Before(rest, i, entries[0].index))
    {
      assert Fits(utf8, entries[i + 1], Before(entries, i + 1, previous));
    }
  }

  lemma ListedCons(utf8: Bytes -> bool, e: Entry, rest: seq<Entry>, previous: int)
    requires Listed(utf8, rest, e.index) && Fits(utf8, e, previous)
    ensures Listed(utf8, [e] + rest, previous)
  {
    var all := [e] + rest;
    forall i | 0 <= i < |all|
      ensures Fits(utf8, all[i], Before(all, i, previous))
    {
      if i > 0 {
        assert Fits(utf8, rest[i - 1], Before(rest, i - 1, e.index));
      }
    }
  }

  lemma JoinRecord(s: Bytes, at: nat, m: nat)
    requires at <= m <= |s|
    ensures s[at..m] + s[m..] == s[at..]
  {
  }

  /** Whatever the parser accepts is the serialization of what it returns. */
  lemma {:induction false} ListingWasWritten(utf8: Bytes -> bool, s: Bytes, at: nat, previous: int, count: nat)
    requires at <= |s| && ParseFrom(utf8, s, at, previous, count).Some?
    ensures
      var entries := ParseFrom(utf8, s, at, previous, count).value;
      |entries| == count && Listed(utf8, entries, previous) && AllStorable(entries) && s[at..] == SerializeAll(entries)
    decreases count
  {
    hide RecordAt, Serialize;
    if count > 0 {
      var e := RecordAt(s, at, previous).value;
      var m := at + 16 + |e.name|;
      RecordWasWritten(s, at, previous);
      ListingWasWritten(utf8, s, m, e.index, count - 1);
      var rest := ParseFrom(utf8, s, m, e.index, count - 1).value;
      ListedCons(utf8, e, rest, previous);
      assert ([e] + rest)[1..] == rest;
      JoinRecord(s, at, m);
    }
  }

  /** The parser accepts exactly the serializations of well-formed listings, each as itself. */
  lemma ParsesExactlyListings(utf8: Bytes -> bool, s: Bytes, count: nat, entries: seq<Entry>)
    ensures Parse(utf8, s, count) == Some(entries) <==>
      && |entries| == count <= COUNT_MAX && |s| <= LIST_MAX
      && Orderly(utf8, entries) && AllStorable(entries) && s == SerializeAll(entries)
  {
    assert s[0..] == s;
    ListedIsOrderly(utf8, entries);
    if Parse(utf8, s, count) == Some(entries) {
      ListingWasWritten(utf8, s, 0, -1, count);
    } else if Listed(utf8, entries, -1) && AllStorable(entries) && s == SerializeAll(entries) {
      ListingReads(utf8, s, 0, -1, entries);
    }
  }

  // ----- writing a listing -----

  /** What libarchive says of one header. Names are C strings, so they hold no zero byte. */
  datatype Header = Header(regular: bool, name: Option<Bytes>, size: Option<i64>, skips: bool)

  /** The headers in order; then the end of the archive, or an error. */
  datatype Source = Source(headers: seq<Header>, ends: bool)

  function Declared(h: Header): i64 {
    if h.size.Some? then h.size.value else -1
  }

  /** The regular files among the first n headers. */
  function Regulars(headers: seq<Header>, n: nat): seq<Entry>
    requires n <= |headers| && n <= SCAN_MAX && forall i :: 0 <= i < n && headers[i].regular ==> headers[i].name.Some?
  {
    if n == 0 then []
    else
      var h := headers[n - 1];
      Regulars(headers, n - 1) + if h.regular then [Entry(n - 1, Declared(h), h.name.value)] else []
  }

  lemma RegularsStep(headers: seq<Header>, n: nat)
    ensures
      n < |headers| && n < SCAN_MAX && (forall i :: 0 <= i <= n && headers[i].regular ==> headers[i].name.Some?) ==>
        var h, before := headers[n], Regulars(headers, n);
        Regulars(headers, n + 1) == if h.regular then before + [Entry(n, Declared(h), h.name.value)] else before
  {
  }

  predicate Recordable(h: Header) {
    h.regular ==> h.name.Some? && 0 < |h.name.value| <= NAME_MAX && Declared(h) >= -1
  }

  /** What a listing needs of the headers, beside room for its records. */
  predicate Readable(source: Source, n: nat)
    requires n <= |source.headers|
  {
    n <= SCAN_MAX && forall i :: 0 <= i < n ==> Recordable(source.headers[i]) && source.headers[i].skips
  }

  class ArcOutput {
    var data: array<u8>
    var size: nat
    var count: nat
    const memory: nat

    ghost predicate Valid(limit: nat)
      reads this
    {
      size <= data.Length <= limit && 4096 <= limit < 0x8000_0000
    }

    ghost function Contents(): Bytes
      reads this, data
      requires size <= data.Length
    {
      data[..size]
    }

    /** realloc of up to memory bytes succeeds. */
    constructor (memory: nat)
      ensures data.Length == 0 && size == 0 && count == 0 && fresh(data) && this.memory == memory
    {
      data := new u8[0];
      size, count := 0, 0;
      this.memory := memory;
    }

    /** arc_reserve: the capacity doubles up to the limit, in 32 bits and without overflow. */
    method Reserve(extra: nat, limit: nat) returns (ok: bool)
      requires Valid(limit)
      modifies this`data
      ensures Valid(limit) && Contents() == old(Contents()) && (data == old(data) || fresh(data))
      ensures ok ==> size + extra <= data.Length
      ensures size + extra > limit ==> !ok
      ensures size + extra <= limit <= memory ==> ok
    {
      if extra > limit - size {
        return false;
      }
      var needed := size + extra;
      if needed <= data.Length {
        return true;
      }
      var capacity := if data.Length == 0 then 4096 else data.Length;
      while capacity < needed
        invariant data == old(data)
        invariant 0 < capacity <= limit < 0x8000_0000
        decreases limit - capacity
      {
        capacity := if capacity > limit / 2 then limit else capacity * 2;
      }
      if capacity > memory {
        return false;
      }
      var bigger := new u8[capacity](_ => 0);
      for i := 0 to size
        invariant size <= data.Length && data == old(data) && data[..] == old(data[..])
        invariant size <= bigger.Length == capacity && bigger[..i] == data[..i]
      {
        bigger[i] := data[i];
      }
      data := bigger;
      return true;
    }

    /** Copies bytes into reserved room and counts them. */
    method Append(bytes: Bytes)
      requires size + |bytes| <= data.Length
      modifies this`size, data
      ensures size <= data.Length && Contents() == old(Contents()) + bytes
    {
      for i := 0 to |bytes|
        invariant size == old(size) && data == old(data)
        invariant data[..size] == old(data[..size]) && data[size..size + i] == bytes[..i]
      {
        data[size + i] := bytes[i];
      }
      size := size + |bytes|;
    }

    /** arc_record: one record, or nothing when the header or the room does not allow it. */
    method Record(h: Header, index: nat) returns (ok: bool)
      requires Valid(LIST_MAX) && h.regular && index < SCAN_MAX && count <= COUNT_MAX
      modifies this, data
      ensures Valid(LIST_MAX) && (data == old(data) || fresh(data)) && count <= COUNT_MAX
      ensures ok ==> Recordable(h) && count == old(count) + 1
                     && Contents() == old(Contents()) + Serialize(Entry(index, Declared(h), h.name.value))
      ensures !ok ==> Contents() == old(Contents()) && count == old(count)
      ensures LIST_MAX <= memory ==>
        (ok <==> Recordable(h) && old(count) < COUNT_MAX && old(size) + 16 + |h.name.value| <= LIST_MAX)
    {
      if h.name.None? || count >= COUNT_MAX {
        return false;
      }
      var name := h.name.value;
      var length: nat := 0;
      while length <= NAME_MAX && length < |name|
        invariant length <= NAME_MAX + 1 && length <= |name|
      {
        length := length + 1;
      }
      var declared := Declared(h);
      if length == 0 || length > NAME_MAX || declared < -1 {
        return false;
      }
      ok := Reserve(16 + length, LIST_MAX);
      if ok {
        Append(Serialize(Entry(index, declared, name)));
        count := count + 1;
      }
    }

    /** One turn of arc_read for a listing. */
    method ListHeader(source: Source, index: nat) returns (ok: bool)
      requires index < |source.headers| && Valid(LIST_MAX) && count <= COUNT_MAX
      requires Readable(source, index) && Written(source, index, count, Contents())
      modifies this, data
      ensures Valid(LIST_MAX) && count <= COUNT_MAX && (data == old(data) || fresh(data))
      ensures ok ==> Readable(source, index + 1) && Written(source, index + 1, count, Contents())
      ensures !ok && LIST_MAX <= memory ==> !Fitting(source)
    {
      hide Serialize, SerializeAll;
      var h := source.headers[index];
      FittingMeansRoom(source, index);
      RegularsStep(source.headers, index);
      if index >= SCAN_MAX {
        return false;
      }
      if h.regular {
        var done := Record(h, index);
        if !done {
          return false;
        }
        var e := Entry(index, Declared(h), h.name.value);
        SerializeSnoc(Regulars(source.headers, index), e);
      }
      return h.skips;
    }

    /** arc_read for a listing: every regular file in order, or failure. */
    method ReadList(source: Source) returns (ok: bool)
      requires Valid(LIST_MAX) && size == 0 && count == 0
      modifies this, data
      ensures size <= data.Length
      ensures ok ==> Listing(source, size, count, Contents())
      ensures LIST_MAX <= memory ==> (ok <==> Fitting(source))
    {
      var index: nat := 0;
      while index < |source.headers|
        invariant index <= |source.headers| && Valid(LIST_MAX) && (data == old(data) || fresh(data))
        invariant count <= COUNT_MAX && Readable(source, index) && Written(source, index, count, Contents())
        decreases |source.headers| - index
      {
        ok := ListHeader(source, index);
        if !ok {
          return;
        }
        index := index + 1;
      }
      return source.ends;
    }

    /** Room for at least one more byte, unless none may follow. */
    method MakeRoom(remaining: nat) returns (ok: bool)
      requires Valid(ENTRY_MAX) && remaining == ENTRY_MAX - size
      modifies this`data
      ensures Valid(ENTRY_MAX) && Contents() == old(Contents()) && (data == old(data) || fresh(data))
      ensures ok && remaining > 0 ==> size < data.Length
      ensures ENTRY_MAX <= memory ==> ok
    {
      ok := true;
      if remaining > 0 && size == data.Length {
        ok := Reserve(if remaining < 65536 then remaining else 65536, ENTRY_MAX);
      }
    }

    /** arc_extract: the content of one entry, read in pieces of whatever size libarchive gives.
        chunk tells how much it gives at a position; failing is the position it fails at, if any. */
    method Extract(content: Bytes, declared: i64, chunk: nat -> nat, failing: Option<nat>) returns (ok: bool)
      requires Valid(ENTRY_MAX) && size == 0
      modifies this, data
      ensures size <= data.Length
      ensures ok ==> Contents() == content
      ensures ok ==> |content| <= ENTRY_MAX && (declared == -1 || declared == |content|)
      ensures (ENTRY_MAX <= memory && failing.None? && |content| <= ENTRY_MAX
               && (declared == -1 || declared == |content|)) ==> ok
    {
      if declared < -1 || declared > ENTRY_MAX {
        return false;
      }
      if declared > 0 {
        var reserved := Reserve(declared, ENTRY_MAX);
        if !reserved {
          return false;
        }
      }
      while true
        invariant Valid(ENTRY_MAX) && (data == old(data) || fresh(data))
        invariant size <= |content| && Contents() == content[..size]
        decreases |content| - size
      {
        var remaining := ENTRY_MAX - size;
        var reserved := MakeRoom(remaining);
        if !reserved {
          return false;
        }
        var asked := if remaining > 0 then data.Length - size else 1;
        if failing == Some(size) {
          return false;
        }
        var n := Given(content, size, asked, chunk);
        if n > remaining {
          return false;
        }
        if n == 0 {
          return declared < 0 || declared == size;
        }
        Append(content[size..size + n]);
      }
    }
  }

  /** archive_read_data: at least one byte and at most what was asked for, none only at the end. */
  function Given(content: Bytes, at: nat, asked: nat, chunk: nat -> nat): (n: nat)
    requires at <= |content| && asked > 0
    ensures n <= asked && at + n <= |content| && (n == 0 <==> at == |content|)
  {
    var most := if asked < |content| - at then asked else |content| - at;
    if most == 0 then 0 else if 0 < chunk(at) < most then chunk(at) else most
  }

  /** The first n headers have been listed. */
  ghost predicate Written(source: Source, n: nat, count: nat, contents: Bytes)
    requires n <= |source.headers| && Readable(source, n)
  {
    var entries := Regulars(source.headers, n);
    AllStorable(entries) && |entries| == count && contents == SerializeAll(entries)
  }

  /** A finished listing of the whole archive. */
  ghost predicate Listing(source: Source, size: nat, count: nat, contents: Bytes) {
    && source.ends && Readable(source, |source.headers|) && Written(source, |source.headers|, count, contents)
    && size == |contents| <= LIST_MAX && count <= COUNT_MAX
  }

  /** The archive can be listed at all. */
  ghost predicate Fitting(source: Source) {
    && source.ends && Readable(source, |source.headers|)
    && var entries := Regulars(source.headers, |source.headers|);
       RegularsStorable(source, |source.headers|);
       |entries| <= COUNT_MAX && |SerializeAll(entries)| <= LIST_MAX
  }

  lemma {:induction false} RegularsStorable(source: Source, n: nat)
    requires n <= |source.headers| && Readable(source, n)
    ensures AllStorable(Regulars(source.headers, n))
  {
    if n > 0 {
      RegularsStorable(source, n - 1);
    }
  }

  lemma {:induction false} SerializeJoin(first: seq<Entry>, rest: seq<Entry>)
    requires AllStorable(first) && AllStorable(rest)
    ensures |SerializeAll(first + rest)| == |SerializeAll(first)| + |SerializeAll(rest)|
    decreases |first|
  {
    if first == [] {
      assert first + rest == rest;
    } else {
      assert (first + rest)[1..] == first[1..] + rest;
      SerializeJoin(first[1..], rest);
    }
  }

  /** Listing more headers only makes the listing longer. */
  lemma {:induction false} RegularsGrow(source: Source, n: nat, m: nat)
    requires n <= m <= |source.headers| && Readable(source, m)
    ensures Readable(source, n) && AllStorable(Regulars(source.headers, n)) && AllStorable(Regulars(source.headers, m))
    ensures |Regulars(source.headers, n)| <= |Regulars(source.headers, m)|
    ensures |SerializeAll(Regulars(source.headers, n))| <= |SerializeAll(Regulars(source.headers, m))|
    decreases m
  {
    RegularsStorable(source, n);
    RegularsStorable(source, m);
    if n < m {
      RegularsGrow(source, n, m - 1);
      var before, all := Regulars(source.headers, m - 1), Regulars(source.headers, m);
      if all != before {
        SerializeJoin(before, [all[|before|]]);
        assert all == before + [all[|before|]];
      }
    }
  }

  /** When the whole archive fits, so does the next record. */
  lemma FittingMeansRoom(source: Source, n: nat)
    requires n < |source.headers| && Readable(source, n)
    ensures AllStorable(Regulars(source.headers, n))
    ensures Fitting(source) && source.headers[n].regular ==>
      && source.headers[n].name.Some? && |Regulars(source.headers, n)| < COUNT_MAX
      && |SerializeAll(Regulars(source.headers, n))| + 16 + |source.headers[n].name.value| <= LIST_MAX
  {
    RegularsStorable(source, n);
    if Fitting(source) && source.headers[n].regular {
      var h := source.headers[n];
      RegularsGrow(source, n + 1, |source.headers|);
      SerializeSnoc(Regulars(source.headers, n), Entry(n, Declared(h), h.name.value));
    }
  }

  lemma ListedSnoc(utf8: Bytes -> bool, entries: seq<Entry>, previous: int, e: Entry)
    requires Listed(utf8, entries, previous) && Fits(utf8, e, Before(entries, |entries|, previous))
    ensures Listed(utf8, entries + [e], previous)
  {
    var all := entries + [e];
    forall i | 0 <= i < |all|
      ensures Fits(utf8, all[i], Before(all, i, previous))
    {
      if i < |entries| {
        assert Fits(utf8, entries[i], Before(entries, i, previous));
      }
    }
  }

  lemma RegularsListedStep(utf8: Bytes -> bool, source: Source, n: nat)
    requires n < |source.headers| && Readable(source, n + 1)
    requires source.headers[n].regular ==> GoodName(utf8, source.headers[n].name.value)
    requires var before := Regulars(source.headers, n); Listed(utf8, before, -1) && Before(before, |before|, -1) < n
    ensures var after := Regulars(source.headers, n + 1); Listed(utf8, after, -1) && Before(after, |after|, -1) < n + 1
  {
    hide Regulars, Listed, GoodName;
    RegularsStep(source.headers, n);
    var h := source.headers[n];
    if h.regular {
      ListedSnoc(utf8, Regulars(source.headers, n), -1, Entry(n, Declared(h), h.name.value));
    }
  }

  lemma {:induction false} RegularsListed(utf8: Bytes -> bool, source: Source, n: nat)
    requires n <= |source.headers| && Readable(source, n)
    requires forall i :: 0 <= i < n && source.headers[i].regular ==> GoodName(utf8, source.headers[i].name.value)
    ensures
      var entries := Regulars(source.headers, n);
      Listed(utf8, entries, -1) && Before(entries, |entries|, -1) < n
  {
    if n > 0 {
      RegularsListed(utf8, source, n - 1);
      RegularsListedStep(utf8, source, n - 1);
    }
  }

  /** Each record takes at least 17 bytes, which is what the transport asks of a listing. */
  lemma {:induction false} RecordsTakeRoom(utf8: Bytes -> bool, entries: seq<Entry>, previous: int)
    requires Listed(utf8, entries, previous) && AllStorable(entries)
    ensures |entries| * 17 <= |SerializeAll(entries)|
    ensures entries == [] ==> SerializeAll(entries) == []
    decreases |entries|
  {
    if entries != [] {
      ListedRest(utf8, entries, previous);
      RecordsTakeRoom(utf8, entries[1..], entries[0].index);
    }
  }

  /** The reply the helper writes: header and listing. */
  function ListReply(count: nat, contents: Bytes): Bytes
    requires count <= COUNT_MAX && |contents| <= LIST_MAX
  {
    Reply.ARCHIVE_MAGIC + Put32(count) + Put32(0) + Put32(|contents|) + contents
  }

  function ListWanted(): Reply.Wanted {
    Reply.Wanted(Reply.Archive, Reply.List, 0, LIST_MAX, 0, 0, 0)
  }

  lemma ReplyParts(count: nat, contents: Bytes)
    requires count <= COUNT_MAX && |contents| <= LIST_MAX
    ensures
      var s := ListReply(count, contents);
      && |s| == 16 + |contents| && s[..4] == Reply.ARCHIVE_MAGIC && s[16..] == contents
      && U32At(s, 4) == count && U32At(s, 8) == 0 && U32At(s, 12) == |contents|
  {
    hide Put32, U32At;
    var s := ListReply(count, contents);
    assert s[4..8] == Put32(count) && s[8..12] == Put32(0) && s[12..16] == Put32(|contents|);
    U32Here(s, 4, count);
    U32Here(s, 8, 0);
    U32Here(s, 12, |contents|);
  }

  /** From the archive to the app: a listing with valid names passes the transport's header check,
      arrives as the reply's payload, and parses into exactly the regular files, in order. */
  lemma ListingArrives(utf8: Bytes -> bool, source: Source, count: nat, contents: Bytes)
    requires Listing(source, |contents|, count, contents)
    requires forall i :: 0 <= i < |source.headers| && source.headers[i].regular ==>
      GoodName(utf8, source.headers[i].name.value)
    ensures Reply.ValidReply(ListWanted(), ListReply(count, contents))
    ensures Reply.Payload(ListWanted(), ListReply(count, contents)) == contents
    ensures Parse(utf8, contents, count) == Some(Regulars(source.headers, |source.headers|))
  {
    var entries := Regulars(source.headers, |source.headers|);
    RegularsListed(utf8, source, |source.headers|);
    RecordsTakeRoom(utf8, entries, -1);
    ListedIsOrderly(utf8, entries);
    ReplyParts(count, contents);
    ParsesExactlyListings(utf8, contents, count, entries);
  }
}
