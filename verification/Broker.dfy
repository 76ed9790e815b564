/** Requests to the helper and tool brokers (app/helper_broker.c, app/tool_broker.c): argument
    vectors packed as C strings, descriptors that come with a request, and the job table. */
module Broker {
  import opened Collections
  import opened Options
  import opened Wire

  type Bytes = seq<u8>

  /** A C string without its terminator. */
  type CString = s: Bytes | 0 !in s

  const HELPER_ARGS: nat := 64
  const HELPER_BYTES: nat := 16384
  const TOOL_ARGS: nat := 64
  const TOOL_BYTES: nat := 65536
  const JOBS: nat := 128

  // ----- packed strings -----

  /** The strings one after the other, each with its terminating zero. */
  function Flat(strings: seq<CString>): Bytes {
    if strings == [] then [] else strings[0] + [0] + Flat(strings[1..])
  }

  /** strnlen: the number of bytes before the first zero, or all of them. */
  function Length(s: Bytes, from: nat): (n: nat)
    requires from <= |s|
    ensures from + n <= |s| && forall j :: from <= j < from + n ==> s[j] != 0
    ensures from + n < |s| ==> s[from + n] == 0
    decreases |s| - from
  {
    if from == |s| || s[from] == 0 then 0 else 1 + Length(s, from + 1)
  }

  /** Reads n strings from a position, which must end exactly at the end. */
  function Split(s: Bytes, from: nat, n: nat): Option<seq<CString>>
    requires from <= |s|
    decreases n
  {
    if n == 0 then if from == |s| then Some([]) else None
    else
      var k := Length(s, from);
      if from + k == |s| then None
      else
        match Split(s, from + k + 1, n - 1)
        case None => None
        case Some(rest) => Some([s[from..from + k]] + rest)
  }

  lemma {:induction false} LengthIs(s: Bytes, from: nat, n: nat)
    requires from + n < |s| && s[from + n] == 0 && forall j :: from <= j < from + n ==> s[j] != 0
    ensures Length(s, from) == n
    decreases n
  {
    if n > 0 {
      LengthIs(s, from + 1, n - 1);
    }
  }

  lemma FirstString(s: Bytes, from: nat, first: CString, rest: Bytes)
    requires from <= |s| && s[from..] == first + [0] + rest
    ensures from + |first| < |s| && Length(s, from) == |first| && s[from..from + |first|] == first
    ensures s[from + |first| + 1..] == rest
  {
    var x := first + [0] + rest;
    assert from + |x| == |s| && s[from..from + |x|] == x;
    SliceOfSlice(s, from, x, 0, |first|);
    SliceOfSlice(s, from, x, |first| + 1, |x|);
    forall j | 0 <= j <= |first|
      ensures s[from + j] == x[j]
    {
      assert s[from..][j] == s[from + j];
    }
    assert forall j :: 0 <= j < |first| ==> x[j] == first[j] && first[j] in first;
    forall j | from <= j < from + |first|
      ensures s[j] != 0
    {
      assert s[from + (j - from)] == x[j - from];
    }
    LengthIs(s, from, |first|);
  }

  /** Unpacking gives back every vector that was packed. */
  lemma {:induction false} SplitOfFlat(s: Bytes, from: nat, strings: seq<CString>)
    requires from <= |s| && s[from..] == Flat(strings)
    ensures Split(s, from, |strings|) == Some(strings)
    decreases |strings|
  {
    hide Length;
    if strings != [] {
      var first: CString := strings[0];
      FirstString(s, from, first, Flat(strings[1..]));
      SplitOfFlat(s, from + |first| + 1, strings[1..]);
      assert [first] + strings[1..] == strings;
    }
  }

  lemma JoinString(s: Bytes, from: nat, k: nat)
    requires from + k < |s| && s[from + k] == 0
    ensures s[from..] == s[from..from + k] + [0] + s[from + k + 1..]
  {
  }

  /** And nothing but the packing of a vector unpacks to it. */
  lemma {:induction false} FlatOfSplit(s: Bytes, from: nat, n: nat)
    requires from <= |s| && Split(s, from, n).Some?
    ensures |Split(s, from, n).value| == n && s[from..] == Flat(Split(s, from, n).value)
    decreases n
  {
    if n > 0 {
      var k := Length(s, from);
      FlatOfSplit(s, from + k + 1, n - 1);
      JoinString(s, from, k);
      var rest := Split(s, from + k + 1, n - 1).value;
      assert ([s[from..from + k]] + rest)[1..] == rest;
    }
  }

  lemma NoZeros(s: CString)
    ensures multiset(s)[0 as u8] == 0
  {
    assert forall x :: x in multiset(s) <==> x in s;
  }

  /** One zero for each string, and the last byte is one. */
  lemma {:induction false} FlatZeros(strings: seq<CString>)
    ensures multiset(Flat(strings))[0 as u8] == |strings|
    ensures strings != [] ==> Flat(strings) != [] && Flat(strings)[|Flat(strings)| - 1] == 0
    decreases |strings|
  {
    if strings != [] {
      var first: CString, rest := strings[0], Flat(strings[1..]);
      NoZeros(first);
      FlatZeros(strings[1..]);
      assert multiset(first + [0] + rest) == multiset(first) + multiset{0} + multiset(rest);
    }
  }

  lemma {:induction false} FlatSnoc(strings: seq<CString>, s: CString)
    ensures Flat(strings + [s]) == Flat(strings) + s + [0]
    decreases |strings|
  {
    if strings == [] {
      assert [s][1..] == [];
      assert Flat([s]) == s + [0] + [];
    } else {
      var all := strings + [s];
      assert all[0] == strings[0] && all[1..] == strings[1..] + [s];
      FlatSnoc(strings[1..], s);
      assert strings[0] + [0] + (Flat(strings[1..]) + s + [0]) == (strings[0] + [0] + Flat(strings[1..])) + s + [0];
    }
  }

  lemma {:induction false} FlatGrows(strings: seq<CString>, n: nat)
    requires n <= |strings|
    ensures |Flat(strings[..n])| <= |Flat(strings)|
    decreases |strings| - n
  {
    if n == |strings| {
      assert strings[..n] == strings;
    } else {
      assert strings[..n + 1] == strings[..n] + [strings[n]];
      FlatSnoc(strings[..n], strings[n]);
      FlatGrows(strings, n + 1);
    }
  }

  /** The packing loop of both callers: strings up to a number of them and of bytes. */
  method Pack(strings: seq<CString>, limit: nat) returns (ok: bool, bytes: Bytes)
    ensures ok <==> |Flat(strings)| <= limit
    ensures ok ==> bytes == Flat(strings)
  {
    bytes := [];
    for i := 0 to |strings|
      invariant bytes == Flat(strings[..i]) && |bytes| <= limit
    {
      var s := strings[i];
      FlatSnoc(strings[..i], s);
      assert strings[..i + 1] == strings[..i] + [s];
      FlatGrows(strings, i + 1);
      var available := limit - |bytes|;
      if |s| >= available {
        return false, bytes;
      }
      bytes := bytes + s + [0];
    }
    assert strings[..|strings|] == strings;
    return true, bytes;
  }

  method FindEnd(s: Bytes, from: nat) returns (n: nat)
    requires from <= |s|
    ensures n == Length(s, from)
  {
    n := 0;
    while from + n < |s| && s[from + n] != 0
      invariant from + n <= |s| && Length(s, from) == n + Length(s, from + n)
    {
      n := n + 1;
    }
  }

  lemma SplitOn(bytes: Bytes, at: nat, n: nat, found: seq<CString>, s: CString)
    requires at + |s| < |bytes| && n > 0 && Length(bytes, at) == |s| && bytes[at..at + |s|] == s
    ensures
      (match Split(bytes, at, n) case None => None case Some(rest) => Some(found + rest))
      == match Split(bytes, at + |s| + 1, n - 1) case None => None case Some(rest) => Some((found + [s]) + rest)
  {
    hide Length;
    match Split(bytes, at + |s| + 1, n - 1)
    case None =>
    case Some(rest) => assert found + ([s] + rest) == (found + [s]) + rest;
  }

  /** The unpacking loop of both brokers. */
  method Unpack(bytes: Bytes, from: nat, count: nat) returns (strings: Option<seq<CString>>)
    requires from <= |bytes|
    ensures strings == Split(bytes, from, count)
  {
    hide Length;
    var found: seq<CString>, offset: nat := [], from;
    assert forall rest: seq<CString> :: found + rest == rest;
    for i := 0 to count
      invariant offset <= |bytes| && |found| == i
      invariant Split(bytes, from, count)
             == match Split(bytes, offset, count - i) case None => None case Some(rest) => Some(found + rest)
    {
      if offset >= |bytes| {
        return None;
      }
      var length := FindEnd(bytes, offset);
      if length == |bytes| - offset {
        return None;
      }
      var s: CString := bytes[offset..offset + length];
      SplitOn(bytes, offset, count - i, found, s);
      found := found + [s];
      offset := offset + length + 1;
    }
    if offset != |bytes| {
      return None;
    }
    assert found + [] == found;
    return Some(found);
  }

  // ----- the two requests -----

  datatype Request = Request(count: nat, bytes: Bytes)

  /** wn_helper_execve: the program's path and then its arguments. */
  method PackHelper(path: CString, arguments: seq<CString>) returns (r: Option<Request>)
    ensures r.Some? <==> path != [] && |arguments| < HELPER_ARGS && |Flat([path] + arguments)| <= HELPER_BYTES
    ensures r.Some? ==> r.value == Request(|arguments|, Flat([path] + arguments))
  {
    if path == [] || |arguments| >= HELPER_ARGS {
      return None;
    }
    var ok, bytes := Pack([path] + arguments, HELPER_BYTES);
    return if ok then Some(Request(|arguments|, bytes)) else None;
  }

  /** The helper broker's side: counts and sizes are checked before the strings are read. */
  method UnpackHelper(request: Request) returns (r: Option<seq<CString>>)
    ensures r == if request.count >= HELPER_ARGS || request.bytes == [] || |request.bytes| > HELPER_BYTES then None
                 else Split(request.bytes, 0, request.count + 1)
  {
    if request.count >= HELPER_ARGS || request.bytes == [] || |request.bytes| > HELPER_BYTES {
      return None;
    }
    r := Unpack(request.bytes, 0, request.count + 1);
  }

  /** open_request of the tool broker: arguments only. */
  method PackTool(arguments: seq<CString>) returns (r: Option<Request>)
    ensures r.Some? <==> |arguments| <= TOOL_ARGS && |Flat(arguments)| <= TOOL_BYTES
    ensures r.Some? ==> r.value == Request(|arguments|, Flat(arguments))
  {
    if |arguments| > TOOL_ARGS {
      return None;
    }
    var ok, bytes := Pack(arguments, TOOL_BYTES);
    return if ok then Some(Request(|arguments|, bytes)) else None;
  }

  method UnpackTool(request: Request) returns (r: Option<seq<CString>>)
    ensures r == if request.count > TOOL_ARGS || |request.bytes| > TOOL_BYTES then None
                 else Split(request.bytes, 0, request.count)
  {
    if request.count > TOOL_ARGS || |request.bytes| > TOOL_BYTES {
      return None;
    }
    r := Unpack(request.bytes, 0, request.count);
  }

  /** The vector a broker sees is the vector the caller packed, in both brokers, for every vector
      the caller's limits admit. */
  method RoundTrip(path: CString, arguments: seq<CString>)
    returns (helper: Option<seq<CString>>, tool: Option<seq<CString>>)
    ensures path != [] && |arguments| < HELPER_ARGS && |Flat([path] + arguments)| <= HELPER_BYTES ==>
      helper == Some([path] + arguments)
    ensures |arguments| <= TOOL_ARGS && |Flat(arguments)| <= TOOL_BYTES ==> tool == Some(arguments)
  {
    helper, tool := None, None;
    var packed := PackHelper(path, arguments);
    if packed.Some? {
      var all := [path] + arguments;
      assert Flat(all)[0..] == Flat(all);
      SplitOfFlat(Flat(all), 0, all);
      helper := UnpackHelper(packed.value);
    }
    packed := PackTool(arguments);
    if packed.Some? {
      assert Flat(arguments)[0..] == Flat(arguments);
      SplitOfFlat(Flat(arguments), 0, arguments);
      tool := UnpackTool(packed.value);
    }
  }

  // ----- descriptors that come with a request -----

  type Fd = int

  /** A control header: whether it carries rights at all, the descriptors in it, and whether its
      length is not a whole number of them. */
  datatype Control = Control(rights: bool, fds: seq<Fd>, ragged: bool)

  datatype Message = Message(bytes: int, truncated: bool, mask: nat, controls: seq<Control>)

  /** The descriptors the kernel installed for the message. */
  function Rights(controls: seq<Control>, n: nat): seq<Fd>
    requires n <= |controls|
  {
    if n == 0 then [] else Rights(controls, n - 1) + if controls[n - 1].rights then controls[n - 1].fds else []
  }

  function Received(m: Message): seq<Fd> {
    if m.bytes <= 0 then [] else Rights(m.controls, |m.controls|)
  }

  /** One channel, and one descriptor for each of the three low bits of the mask. */
  function Wanted(mask: nat): nat {
    1 + mask % 2 + mask / 2 % 2 + mask / 4 % 2
  }

  lemma WantedIsSmall(mask: nat)
    ensures 1 <= Wanted(mask) <= 4
  {
  }

  predicate WellFormed(m: Message) {
    && m.bytes == 1 && !m.truncated && m.mask <= 7 && |Received(m)| == Wanted(m.mask)
    && forall i :: 0 <= i < |m.controls| ==> m.controls[i].rights && !m.controls[i].ragged
  }

  predicate Proper(controls: seq<Control>, n: nat)
    requires n <= |controls|
  {
    forall i :: 0 <= i < n ==> controls[i].rights && !controls[i].ragged
  }

  function Four(n: nat): nat {
    if n < 4 then n else 4
  }

  lemma OneMore(kept: seq<Fd>, closed: multiset<Fd>, before: seq<Fd>, fds: seq<Fd>, k: nat)
    requires k < |fds| && multiset(kept) + closed == multiset(before + fds[..k])
    ensures multiset(kept + [fds[k]]) + closed == multiset(before + fds[..k + 1])
    ensures multiset(kept) + (closed + multiset{fds[k]}) == multiset(before + fds[..k + 1])
  {
    assert before + fds[..k + 1] == (before + fds[..k]) + [fds[k]];
  }

  /** The descriptors of one header. */
  method CollectOne(kept0: seq<Fd>, closed0: multiset<Fd>, ghost before: seq<Fd>, fds: seq<Fd>)
    returns (kept: seq<Fd>, closed: multiset<Fd>, over: bool)
    requires |kept0| == Four(|before|) && multiset(kept0) + closed0 == multiset(before)
    ensures |kept| == Four(|before + fds|) && multiset(kept) + closed == multiset(before + fds)
    ensures over <==> |fds| > 0 && |before + fds| > 4
  {
    kept, closed, over := kept0, closed0, false;
    assert before + fds[..0] == before;
    for k := 0 to |fds|
      invariant |kept| == Four(|before| + k) && multiset(kept) + closed == multiset(before + fds[..k])
      invariant over <==> k > 0 && |before| + k > 4
    {
      OneMore(kept, closed, before, fds, k);
      if |kept| == 4 {
        closed := closed + multiset{fds[k]};
        over := true;
      } else {
        kept := kept + [fds[k]];
      }
    }
    assert fds[..|fds|] == fds;
  }

  /** The first half of receive_channel: up to four descriptors are kept, any more are closed. */
  method Collect(m: Message) returns (kept: seq<Fd>, closed: multiset<Fd>, valid: bool)
    requires m.bytes > 0
    ensures |kept| == Four(|Received(m)|) && multiset(kept) + closed == multiset(Received(m))
    ensures valid <==> Proper(m.controls, |m.controls|) && |Received(m)| <= 4
  {
    kept, closed, valid := [], multiset{}, true;
    for c := 0 to |m.controls|
      invariant |kept| == Four(|Rights(m.controls, c)|) && multiset(kept) + closed == multiset(Rights(m.controls, c))
      invariant valid <==> Proper(m.controls, c) && |Rights(m.controls, c)| <= 4
    {
      var header := m.controls[c];
      if !header.rights {
        valid := false;
        assert Rights(m.controls, c + 1) == Rights(m.controls, c);
      } else {
        var over;
        kept, closed, over := CollectOne(kept, closed, Rights(m.controls, c), header.fds);
        if header.ragged || over {
          valid := false;
        }
      }
    }
  }

  /** The descriptors among the first n that are there. */
  function Present(moved: seq<Option<Fd>>, n: nat): seq<Fd>
    requires n <= |moved|
  {
    if n == 0 then [] else Present(moved, n - 1) + if moved[n - 1].Some? then [moved[n - 1].value] else []
  }

  lemma {:induction false} PresentPrefix(moved: seq<Option<Fd>>, more: seq<Option<Fd>>, n: nat)
    requires n <= |moved|
    ensures Present(moved + more, n) == Present(moved, n)
  {
    if n > 0 {
      PresentPrefix(moved, more, n - 1);
    }
  }

  lemma PresentSnoc(moved: seq<Option<Fd>>, copy: Option<Fd>)
    ensures Present(moved + [copy], |moved| + 1)
         == Present(moved, |moved|) + if copy.Some? then [copy.value] else []
  {
    PresentPrefix(moved, [copy], |moved|);
  }

  /** The second half: every descriptor is duplicated above the fixed ones and closed. */
  method Normalize(kept: seq<Fd>, valid0: bool, dup: nat -> Option<Fd>)
    returns (moved: seq<Option<Fd>>, closed: multiset<Fd>, made: seq<Fd>, valid: bool)
    ensures |moved| == |kept| && closed == multiset(kept) && made == Present(moved, |moved|)
    ensures valid <==> valid0 && forall i :: 0 <= i < |kept| ==> dup(i).Some?
    ensures valid ==> forall i :: 0 <= i < |kept| ==> moved[i].Some?
  {
    moved, closed, made, valid := [], multiset{}, [], valid0;
    for i := 0 to |kept|
      invariant |moved| == i && closed == multiset(kept[..i]) && made == Present(moved, i)
      invariant valid <==> valid0 && forall j :: 0 <= j < i ==> dup(j).Some?
      invariant valid ==> forall j :: 0 <= j < i ==> moved[j].Some?
    {
      assert kept[..i + 1] == kept[..i] + [kept[i]];
      var copy := if valid then dup(i) else None;
      closed := closed + multiset{kept[i]};
      PresentSnoc(moved, copy);
      moved := moved + [copy];
      if copy.Some? {
        made := made + [copy.value];
      } else {
        valid := false;
      }
    }
    assert kept[..|kept|] == kept;
  }

  /** receive_channel: each descriptor that came with the message is closed exactly once, whatever
      is wrong with it; each duplicate is either handed on, when all is well, or closed too. dup is
      what the i-th duplication gives. */
  method ReceiveChannel(m: Message, interrupted: bool, dup: nat -> Option<Fd>)
    returns (count: int, descriptors: seq<Fd>, closed: multiset<Fd>, made: seq<Fd>)
    ensures closed == multiset(Received(m)) + if count > 0 then multiset{} else multiset(made)
    ensures count > 0 ==> descriptors == made && count == |made| == Wanted(m.mask)
    ensures count > 0 <==> WellFormed(m) && forall i :: 0 <= i < |Received(m)| ==> dup(i).Some?
    ensures count < 0 <==> m.bytes == 0 || (m.bytes < 0 && !interrupted)
  {
    hide Wanted, Rights, Present;
    WantedIsSmall(m.mask);
    descriptors, closed, made := [], multiset{}, [];
    if m.bytes <= 0 {
      return if m.bytes < 0 && interrupted then 0 else -1, [], multiset{}, [];
    }
    var kept, surplus, proper := Collect(m);
    var valid := proper && m.bytes == 1 && !m.truncated && m.mask <= 7 && |kept| == Wanted(m.mask);
    var moved, done;
    moved, done, made, valid := Normalize(kept, valid, dup);
    closed := surplus + done;
    if !valid {
      var undone := CloseAll(moved);
      return 0, [], closed + undone, made;
    }
    PresentAll(moved, |moved|);
    NoSurplus(m, kept, surplus);
    return |moved|, made, closed, made;
  }

  method CloseAll(moved: seq<Option<Fd>>) returns (closed: multiset<Fd>)
    ensures closed == multiset(Present(moved, |moved|))
  {
    closed := multiset{};
    for i := 0 to |moved|
      invariant closed == multiset(Present(moved, i))
    {
      if moved[i].Some? {
        closed := closed + multiset{moved[i].value};
      }
    }
  }

  lemma NoSurplus(m: Message, kept: seq<Fd>, surplus: multiset<Fd>)
    requires |kept| == Four(|Received(m)|) && |Received(m)| <= 4 && multiset(kept) + surplus == multiset(Received(m))
    ensures |kept| == |Received(m)|
  {
  }

  lemma {:induction false} PresentAll(moved: seq<Option<Fd>>, n: nat)
    requires n <= |moved| && forall i :: 0 <= i < n ==> moved[i].Some?
    ensures |Present(moved, n)| == n
  {
    if n > 0 {
      PresentAll(moved, n - 1);
    }
  }

  // ----- the job table -----

  type Pid = nat

  /** What one turn of launch_loop meets: the children that have exited, whether a request came, and
      the process id a fork gives (None when it fails). */
  datatype Turn = Turn(exited: set<Pid>, request: bool, forked: Option<Pid>)

  function Slots(jobs: seq<Pid>): set<Pid> {
    set i | 0 <= i < |jobs| && jobs[i] != 0 :: jobs[i]
  }

  predicate Distinct(jobs: seq<Pid>) {
    forall j, k :: 0 <= j < k < |jobs| && jobs[j] != 0 ==> jobs[j] != jobs[k]
  }

  class Launcher {
    const jobs: array<Pid>
    /** The children that were forked and not yet waited for. */
    ghost var running: set<Pid>

    ghost predicate Valid()
      reads this, jobs
    {
      jobs.Length == JOBS && running == Slots(jobs[..]) && Distinct(jobs[..])
    }

    constructor ()
      ensures Valid() && running == {} && fresh(jobs)
    {
      jobs := new Pid[JOBS](_ => 0);
      running := {};
    }

    /** A child has been waited for. */
    method Clear(i: nat)
      requires Valid() && i < JOBS && jobs[i] != 0
      modifies this`running, jobs
      ensures Valid() && running == old(running) - {old(jobs[i])}
      ensures jobs[..] == old(jobs[..])[i := 0]
    {
      hide Slots;
      SlotsClear(jobs[..], i);
      running := running - {jobs[i]};
      ghost var before := jobs[..];
      jobs[i] := 0;
      assert jobs[..] == before[i := 0];
    }

    /** A child has been forked. */
    method Enter(i: nat, p: Pid)
      requires Valid() && i < JOBS && jobs[i] == 0 && p != 0 && p !in running
      modifies this`running, jobs
      ensures Valid() && running == old(running) + {p}
    {
      hide Slots;
      SlotsSet(jobs[..], i, p);
      running := running + {p};
      ghost var before := jobs[..];
      jobs[i] := p;
      assert jobs[..] == before[i := p];
    }

    /** Reaps what has exited and finds the first free slot, if any. */
    method Reap(exited: set<Pid>) returns (free: nat)
      requires Valid()
      modifies this`running, jobs
      ensures Valid() && running == old(running) - exited
      ensures free <= JOBS && (free < JOBS ==> jobs[free] == 0)
      ensures free == JOBS ==> forall i :: 0 <= i < JOBS ==> jobs[i] != 0
    {
      hide Distinct;
      free := JOBS;
      ghost var before := jobs[..];
      for i := 0 to JOBS
        invariant Valid() && free <= JOBS
        invariant Reaped(before, jobs[..], exited, i)
        invariant free < JOBS ==> jobs[free] == 0
        invariant free == JOBS ==> forall k :: 0 <= k < i ==> jobs[k] != 0
      {
        if jobs[i] != 0 && jobs[i] in exited {
          Clear(i);
        }
        if jobs[i] == 0 && free == JOBS {
          free := i;
        }
      }
      ReapedAll(before, jobs[..], exited);
    }

    /** One turn of launch_loop: a request is served by a child of its own while a slot is free;
        with all slots taken it is turned away. */
    method Serve(turn: Turn) returns (child: Option<Pid>)
      requires Valid()
      requires turn.forked.Some? ==> turn.forked.value != 0 && turn.forked.value !in running - turn.exited
      modifies this`running, jobs
      ensures Valid() && |running| <= JOBS
      ensures child == if turn.request && |old(running) - turn.exited| < JOBS then turn.forked else None
      ensures running == old(running) - turn.exited + if child.Some? then {child.value} else {}
    {
      hide Slots, Distinct;
      var free := Reap(turn.exited);
      child := None;
      if free < JOBS {
        FreeMeansRoom(jobs[..], free);
        if turn.request {
          child := turn.forked;
          if child.Some? {
            Enter(free, child.value);
          }
        }
      } else {
        FullMeansNone(jobs[..]);
      }
      SlotsCount(jobs[..]);
    }

    /** Leaving the loop: every child is signalled and waited for. */
    method Stop() returns (waited: seq<Pid>)
      requires Valid()
      modifies this`running, jobs
      ensures Valid() && running == {} && multiset(waited) == multiset(old(running))
    {
      hide Slots, Distinct;
      waited := [];
      for i := 0 to JOBS
        invariant Valid() && multiset(waited) + multiset(running) == multiset(old(running))
        invariant forall k :: 0 <= k < i ==> jobs[k] == 0
      {
        if jobs[i] != 0 {
          SlotHas(jobs[..], i);
          waited := waited + [jobs[i]];
          Clear(i);
        }
      }
      NoSlots(jobs[..]);
    }
  }

  lemma SlotHas(jobs: seq<Pid>, i: nat)
    requires i < |jobs| && jobs[i] != 0
    ensures jobs[i] in Slots(jobs)
  {
  }

  lemma NoSlots(jobs: seq<Pid>)
    requires forall i :: 0 <= i < |jobs| ==> jobs[i] == 0
    ensures Slots(jobs) == {}
  {
  }

  /** The first n slots have been looked at. */
  predicate Reaped(before: seq<Pid>, after: seq<Pid>, exited: set<Pid>, n: nat) {
    && |after| == |before|
    && forall k :: 0 <= k < |before| ==> after[k] == if k < n && before[k] in exited then 0 else before[k]
  }

  lemma ReapedAll(before: seq<Pid>, after: seq<Pid>, exited: set<Pid>)
    requires Reaped(before, after, exited, |before|)
    ensures Slots(after) == Slots(before) - exited
  {
    forall p
      ensures p in Slots(after) <==> p in Slots(before) && p !in exited
    {
      if p in Slots(after) {
        var k :| 0 <= k < |after| && after[k] != 0 && after[k] == p;
        assert before[k] == p;
      }
      if p in Slots(before) && p !in exited {
        var k :| 0 <= k < |before| && before[k] != 0 && before[k] == p;
        assert after[k] == p;
      }
    }
  }

  lemma SlotsClear(jobs: seq<Pid>, i: nat)
    requires i < |jobs| && jobs[i] != 0 && Distinct(jobs)
    ensures Slots(jobs[i := 0]) == Slots(jobs) - {jobs[i]} && Distinct(jobs[i := 0])
  {
    var after := jobs[i := 0];
    forall p
      ensures p in Slots(after) <==> p in Slots(jobs) && p != jobs[i]
    {
      if p in Slots(jobs) && p != jobs[i] {
        var k :| 0 <= k < |jobs| && jobs[k] != 0 && jobs[k] == p;
        assert after[k] == p;
      }
    }
  }

  lemma SlotsSet(jobs: seq<Pid>, i: nat, p: Pid)
    requires i < |jobs| && jobs[i] == 0 && p != 0 && p !in Slots(jobs) && Distinct(jobs)
    ensures Slots(jobs[i := p]) == Slots(jobs) + {p} && Distinct(jobs[i := p])
  {
    var after := jobs[i := p];
    forall q
      ensures q in Slots(after) <==> q in Slots(jobs) || q == p
    {
      if q in Slots(jobs) {
        var k :| 0 <= k < |jobs| && jobs[k] != 0 && jobs[k] == q;
        assert after[k] == q;
      }
      if q == p {
        assert after[i] == q;
      }
    }
    forall j, k | 0 <= j < k < |after| && after[j] != 0
      ensures after[j] != after[k]
    {
      assert j != i ==> jobs[j] in Slots(jobs);
      assert k != i && jobs[k] != 0 ==> jobs[k] in Slots(jobs);
    }
  }

  /** Each slot holds at most one child. */
  lemma {:induction false} SlotsCount(jobs: seq<Pid>)
    ensures |Slots(jobs)| <= |jobs|
    decreases |jobs|
  {
    if jobs != [] {
      var init, last := jobs[..|jobs| - 1], jobs[|jobs| - 1];
      SlotsCount(init);
      SlotsLast(jobs);
    }
  }

  lemma SlotsLast(jobs: seq<Pid>)
    requires jobs != []
    ensures Slots(jobs) == Slots(jobs[..|jobs| - 1]) + if jobs[|jobs| - 1] != 0 then {jobs[|jobs| - 1]} else {}
  {
    var init, last := jobs[..|jobs| - 1], jobs[|jobs| - 1];
    forall p
      ensures p in Slots(jobs) <==> p in Slots(init) || (last != 0 && p == last)
    {
      if p in Slots(jobs) {
        var k :| 0 <= k < |jobs| && jobs[k] != 0 && jobs[k] == p;
        assert k < |init| ==> init[k] == p;
      }
      if p in Slots(init) {
        var k :| 0 <= k < |init| && init[k] != 0 && init[k] == p;
        assert jobs[k] == p;
      }
      if last != 0 && p == last {
        assert jobs[|jobs| - 1] == p;
      }
    }
  }

  lemma FreeMeansRoom(jobs: seq<Pid>, i: nat)
    requires i < |jobs| && jobs[i] == 0
    ensures |Slots(jobs)| < |jobs|
  {
    var rest := jobs[..i] + jobs[i + 1..];
    SlotsCount(rest);
    forall p
      ensures p in Slots(jobs) <==> p in Slots(rest)
    {
      if p in Slots(jobs) {
        var k :| 0 <= k < |jobs| && jobs[k] != 0 && jobs[k] == p;
        assert rest[if k < i then k else k - 1] == p;
      }
      if p in Slots(rest) {
        var k :| 0 <= k < |rest| && rest[k] != 0 && rest[k] == p;
        assert jobs[if k < i then k else k + 1] == p;
      }
    }
    assert Slots(jobs) == Slots(rest);
  }

  /** Full and without repetition, the table holds as many children as slots. */
  lemma {:induction false} FullMeansNone(jobs: seq<Pid>)
    requires Distinct(jobs) && forall i :: 0 <= i < |jobs| ==> jobs[i] != 0
    ensures |Slots(jobs)| == |jobs|
    decreases |jobs|
  {
    if jobs != [] {
      var init, last := jobs[..|jobs| - 1], jobs[|jobs| - 1];
      FullMeansNone(init);
      SlotsLast(jobs);
      assert last !in Slots(init);
    }
  }
}
