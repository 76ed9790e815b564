/** One request and its reply over the helper's socket (app/decoder_ipc.c:649-748, the POSIX loop).
    The bytes the helper sends, and everything the system may answer in one turn of the loop, are
    inputs; running out of turns is the deadline. */
module Transfer {
  import opened Wire
  import opened Reply

  datatype Peek = Empty | Interrupted | Busy      // EAGAIN, EINTR, anything else
  datatype Wait = Exited(status: int) | Running | Lost
  datatype Poll = PollInterrupted | PollFailed | Ready
  datatype Read = NotReadable | Arrived(count: nat) | Closed | ReadAgain | ReadFailed
  datatype Write = NotWritable | Wrote(count: nat) | WriteAgain | WriteFailed | ShutdownFailed(count: nat)

  datatype Turn = Turn(late: bool, peek: Peek, wait: Wait, poll: Poll, read: Read, write: Write)

  function Min(a: nat, b: nat): nat {
    if a < b then a else b
  }

  // ----- turns in which nothing goes wrong -----

  /** In time, nothing fails, and the helper keeps its end open. */
  predicate Smooth(t: Turn) {
    && !t.late && t.peek.Empty? && !t.poll.PollFailed?
    && (t.read.NotReadable? || t.read.ReadAgain? || t.read.Arrived?)
    && (t.write.NotWritable? || t.write.WriteAgain? || (t.write.Wrote? && t.write.count > 0))
  }

  predicate Closing(t: Turn) {
    !t.late && t.poll.Ready? && t.read.Closed?
  }

  predicate Arrival(t: Turn) {
    t.poll.Ready? && t.read.Arrived? && t.read.count > 0
  }

  predicate Departure(t: Turn) {
    t.poll.Ready? && t.write.Wrote?
  }

  /** The turns in which some of the reply arrives, and those in which some of the request leaves. */
  function Arrivals(turns: seq<Turn>): nat {
    if turns == [] then 0
    else Arrivals(turns[..|turns| - 1]) + if Arrival(turns[|turns| - 1]) then 1 else 0
  }

  function Departures(turns: seq<Turn>): nat {
    if turns == [] then 0
    else Departures(turns[..|turns| - 1]) + if Departure(turns[|turns| - 1]) then 1 else 0
  }

  /** Up to turn n all goes smoothly, and there are turns enough for every byte in both directions. */
  predicate Flows(turns: seq<Turn>, n: nat, request: nat, reply: nat) {
    && n <= |turns| && (forall i :: 0 <= i < n ==> Smooth(turns[i]))
    && Arrivals(turns[..n]) >= reply && Departures(turns[..n]) >= request
  }

  /** Then a session helper has nothing more to say; a one-shot helper closes its end at turn n and
      is seen to have exited with status 0 at turn m. */
  predicate Served(turns: seq<Turn>, n: nat, m: nat, request: nat, reply: nat, finish: bool) {
    && n < |turns| && Flows(turns, n, request, reply)
    && if !finish then Smooth(turns[n])
       else
         && Closing(turns[n]) && n < m < |turns| && !turns[m].late && turns[m].wait == Exited(0)
         && forall i :: n < i < m ==> !turns[i].late && turns[i].wait.Running?
  }

  ghost predicate Serves(turns: seq<Turn>, request: nat, reply: nat, finish: bool) {
    exists n, m :: Served(turns, n, m, request, reply, finish)
  }

  /** A turn that lets an open transfer go on. */
  predicate Harmless(t: Turn) {
    !t.late && !t.poll.PollFailed? && (t.poll.Ready? ==> !t.read.ReadFailed? && !t.read.Closed?)
  }

  /** The turns of a transfer still under way: d harmless ones, and then, once both directions are
      through, only waiting: for a peek that is not interrupted, or for the exit of a helper that
      closed its end. */
  predicate Unbroken(turns: seq<Turn>, d: nat, k: nat, finish: bool) {
    && d <= k <= |turns| && (forall i :: 0 <= i < d ==> Harmless(turns[i]))
    && forall i :: d <= i < k ==>
         && !turns[i].late
         && if !finish then turns[i].peek.Interrupted? else if i == d then Closing(turns[i]) else turns[i].wait.Running?
  }

  ghost predicate NeverBroken(turns: seq<Turn>, k: nat, finish: bool) {
    exists d :: Unbroken(turns, d, k, finish)
  }

  lemma OneMore(turns: seq<Turn>, k: nat)
    requires k < |turns|
    ensures Arrivals(turns[..k + 1]) == Arrivals(turns[..k]) + (if Arrival(turns[k]) then 1 else 0)
    ensures Departures(turns[..k + 1]) == Departures(turns[..k]) + (if Departure(turns[k]) then 1 else 0)
  {
    assert turns[..k + 1][..k] == turns[..k];
  }

  // ----- the loop -----

  /** The next stretch of the request offered to send(): header first, then data in 64 KiB pieces. */
  function SendSpan(headerSize: nat, total: nat, sent: nat): (n: nat)
    requires sent < total && headerSize <= total
    ensures 0 < n && sent + n <= total
  {
    if sent < headerSize then headerSize - sent else Min(CHUNK, total - sent)
  }

  /** The reply under construction holds the first bytes of what the helper sends. */
  ghost predicate Follows(reply: ImageReply, incoming: seq<u8>)
    reads reply, reply.header, reply.pageHeader, reply.pixels
  {
    reply.Valid() && reply.Provided(reply.received) && reply.stream <= incoming
  }

  /** What the helper sends is what was asked for, and there is memory to hold it. */
  predicate Acceptable(reply: ImageReply, incoming: seq<u8>) {
    ValidReply(reply.wanted, incoming) && (reply.memory || reply.borrowed)
  }

  method ReadTurn(reply: ImageReply, incoming: seq<u8>, read: Read) returns (ok: bool, closed: bool)
    requires Follows(reply, incoming)
    modifies reply, reply.header, reply.pageHeader, reply.extra, reply.pixels
    ensures ok ==> Follows(reply, incoming) && old(reply.received) <= reply.received
    ensures ok && !read.Arrived? ==> reply.stream == old(reply.stream)
    ensures closed <==> read.Closed?
    ensures closed ==> ok && (reply.Complete() <==> old(reply.Complete()))
    ensures read.ReadFailed? ==> !ok
    ensures !ok ==> read.ReadFailed? || !Acceptable(reply, incoming)
    ensures ok && read.Arrived? && read.count > 0 ==>
              reply.received > old(reply.received) || reply.received == |incoming|
    ensures reply.pixels == old(reply.pixels) || fresh(reply.pixels)
    ensures reply.borrowed ==> reply.pixels == old(reply.pixels)
  {
    match read
    case NotReadable => return true, false;
    case ReadAgain => return true, false;
    case ReadFailed => return false, false;
    case Closed => return true, true;
    case Arrived(count) =>
      var _, _, capacity := reply.Buffer();
      var at := reply.received;
      var next := at + Min(Min(capacity, count), |incoming| - at);
      if next == at {
        return true, false;
      }
      assert reply.stream == incoming[..at] && incoming[..at] + incoming[at..next] == incoming[..next];
      ok := reply.Deliver(incoming[at..next]);
      if !ok && !Viable(reply.wanted, incoming[..next]) {
        assert incoming == incoming[..next] + incoming[next..];
        NotViableIsFinal(reply.wanted, incoming[..next], incoming[next..]);
      }
      return ok, false;
  }

  method WriteTurn(request: seq<u8>, headerSize: nat, sent: nat, write: Write, finish: bool)
    returns (ok: bool, next: nat, ghost piece: seq<u8>)
    requires sent < |request| && headerSize <= |request|
    ensures sent <= next <= |request| && piece == request[sent..next]
    ensures if sent < headerSize then next <= headerSize else next <= sent + CHUNK
    ensures write.WriteFailed? || (write.Wrote? && write.count == 0) ==> !ok
    ensures write.ShutdownFailed? && finish && next == |request| ==> !ok
    ensures write.NotWritable? || write.WriteAgain? || (write.Wrote? && write.count > 0) ==> ok
    ensures ok && write.Wrote? ==> next > sent
  {
    var span := SendSpan(headerSize, |request|, sent);
    match write
    case NotWritable => return true, sent, [];
    case WriteAgain => return true, sent, [];
    case WriteFailed => return false, sent, [];
    case Wrote(n) =>
      next := sent + Min(n, span);
      return n > 0, next, request[sent..next];
    case ShutdownFailed(n) =>
      next := sent + Min(n, span);
      return n > 0 && !(finish && next == |request|), next, request[sent..next];
  }

  /** One turn behind poll(): some of the reply comes in, some of the request goes out. */
  method OpenTurn(reply: ImageReply, incoming: seq<u8>, request: seq<u8>, headerSize: nat, sent: nat,
                  turn: Turn, finish: bool)
    returns (more: bool, closed: bool, next: nat, ghost piece: seq<u8>)
    requires Follows(reply, incoming) && sent <= |request| && headerSize <= |request|
    modifies reply, reply.header, reply.pageHeader, reply.extra, reply.pixels
    ensures sent <= next <= |request| && piece == request[sent..next]
    ensures more ==> Follows(reply, incoming)
    ensures more && closed ==>
              finish && reply.Complete() && next == |request| && turn.read.Closed? && turn.poll.Ready?
    ensures more && !turn.late ==> closed || Harmless(turn)
    ensures turn.poll.Ready? && sent < |request| && turn.write.WriteFailed? ==> !more
    ensures Smooth(turn) && Acceptable(reply, incoming) ==>
              && more && !closed && reply.received >= old(reply.received)
              && (Arrival(turn) ==> reply.received > old(reply.received) || reply.received == |incoming|)
              && (Departure(turn) ==> next > sent || next == |request|)
    ensures turn.poll.Ready? && turn.read.Closed? && finish && sent == |request| && old(reply.Complete()) ==>
              more && closed
    ensures reply.pixels == old(reply.pixels) || fresh(reply.pixels)
    ensures reply.borrowed ==> reply.pixels == old(reply.pixels)
  {
    hide Acceptable, Follows;
    match turn.poll
    case PollFailed => return false, false, sent, [];
    case PollInterrupted => return true, false, sent, [];
    case Ready =>
      more, closed := ReadTurn(reply, incoming, turn.read);
      if !more || (closed && (!finish || !reply.Complete() || sent != |request|)) {
        return false, closed, sent, [];
      }
      if sent == |request| {
        return more, closed, sent, [];
      }
      more, next, piece := WriteTurn(request, headerSize, sent, turn.write, finish);
  }

  /** Where a transfer that is served stands before turn k. */
  predicate OnTime(turns: seq<Turn>, k: nat, n: nat, m: nat, received: nat, reply: nat, sent: nat, request: nat,
                   finish: bool, closed: bool) {
    && k <= |turns|
    && if k <= n then
         && !closed
         && (received >= Arrivals(turns[..k]) || received == reply)
         && (sent >= Departures(turns[..k]) || sent == request)
       else finish && closed && k <= m
  }

  /** Until the request is out and the reply is in, time passes smoothly; then comes the end. */
  lemma OnTimeTurn(turns: seq<Turn>, k: nat, n: nat, m: nat, received: nat, reply: nat, sent: nat, request: nat,
                   finish: bool, closed: bool)
    requires Served(turns, n, m, request, reply, finish)
    requires OnTime(turns, k, n, m, received, reply, sent, request, finish, closed)
    requires received <= reply && sent <= request
    ensures k < |turns|
    ensures k < n ==> !closed && Smooth(turns[k])
    ensures k == n ==> !closed && received == reply && sent == request
    ensures k == n ==> if finish then Closing(turns[k]) && n < m < |turns| else Smooth(turns[k])
    ensures k > n ==> finish && closed && !turns[k].late && k <= m < |turns|
    ensures k > n ==> if k < m then turns[k].wait.Running? else turns[k].wait == Exited(0)
  {
  }

  lemma OnTimeNext(turns: seq<Turn>, k: nat, n: nat, m: nat, received: nat, received': nat, reply: nat,
                   sent: nat, sent': nat, request: nat, finish: bool)
    requires k < n && k < |turns| && OnTime(turns, k, n, m, received, reply, sent, request, finish, false)
    requires received <= received' <= reply && sent <= sent' <= request
    requires Arrival(turns[k]) ==> received' > received || received' == reply
    requires Departure(turns[k]) ==> sent' > sent || sent' == request
    ensures OnTime(turns, k + 1, n, m, received', reply, sent', request, finish, false)
  {
    OneMore(turns, k);
  }

  lemma OnTimeClosed(turns: seq<Turn>, k: nat, n: nat, m: nat, received: nat, reply: nat, sent: nat, request: nat)
    requires n <= k < m < |turns|
    ensures OnTime(turns, k + 1, n, m, received, reply, sent, request, true, true)
  {
  }

  lemma OnTimeAtFirst(turns: seq<Turn>, n: nat, m: nat, reply: nat, request: nat, finish: bool)
    ensures OnTime(turns, 0, n, m, 0, reply, 0, request, finish, false)
  {
  }

  lemma WholeIsComplete(reply: ImageReply, incoming: seq<u8>)
    requires Follows(reply, incoming) && reply.received == |incoming| && Acceptable(reply, incoming)
    ensures reply.Complete()
  {
    assert reply.stream == incoming;
    reply.CompleteIsValidReply();
  }

  lemma ReceivedSoFar(reply: ImageReply, incoming: seq<u8>)
    requires Follows(reply, incoming)
    ensures reply.received <= |incoming|
  {
  }

  lemma NothingReceived(reply: ImageReply, incoming: seq<u8>)
    requires reply.Valid() && reply.stream == []
    ensures Follows(reply, incoming) && reply.received == 0
  {
  }

  lemma CompleteIsReply(reply: ImageReply, incoming: seq<u8>)
    requires Follows(reply, incoming) && reply.Complete()
    ensures ValidReply(reply.wanted, reply.stream)
  {
    reply.CompleteIsValidReply();
  }

  datatype Outcome = Onward | Done(ok: bool)

  /** One turn of the loop. */
  method OneTurn(reply: ImageReply, incoming: seq<u8>, request: seq<u8>, headerSize: nat, sent: nat,
                 closed: bool, turn: Turn, finish: bool)
    returns (r: Outcome, closed': bool, next: nat, ghost piece: seq<u8>)
    requires Follows(reply, incoming) && sent <= |request| && headerSize <= |request|
    requires closed ==> finish && reply.Complete() && sent == |request|
    modifies reply, reply.header, reply.pageHeader, reply.extra, reply.pixels
    ensures sent <= next <= |request| && piece == request[sent..next]
    ensures r.Onward? || r.ok ==> Follows(reply, incoming)
    ensures r.Onward? && closed' ==>
              finish && reply.Complete() && next == |request| && (closed || turn.read.Closed?)
    ensures r == Done(true) ==>
              && !turn.late && reply.Complete() && next == |request|
              && if finish then closed && turn.wait == Exited(0) else turn.peek.Empty?
    ensures turn.late ==> r == Done(false)
    ensures r.Onward? && closed ==> closed' && turn.wait.Running?
    ensures r.Onward? && !closed && !finish && sent == |request| && old(reply.Complete()) ==>
              turn.peek.Interrupted? && reply.Complete() && next == |request| && !closed'
    ensures r.Onward? && !closed && !(!finish && sent == |request| && old(reply.Complete())) ==>
              if closed' then Closing(turn) else Harmless(turn)
    ensures Acceptable(reply, incoming) && Smooth(turn) && !closed ==>
              (r == Done(true) || (r.Onward? && !closed' && reply.received >= old(reply.received)
                && (Arrival(turn) ==> reply.received > old(reply.received) || reply.received == |incoming|)
                && (Departure(turn) ==> next > sent || next == |request|)))
    ensures Smooth(turn) && !finish && sent == |request| && old(reply.Complete()) ==> r == Done(true)
    ensures Closing(turn) && finish && !closed && sent == |request| && old(reply.Complete()) ==> r.Onward? && closed'
    ensures closed && !turn.late && turn.wait.Running? ==> r.Onward? && closed'
    ensures closed && !turn.late && turn.wait == Exited(0) ==> r == Done(true)
    ensures reply.pixels == old(reply.pixels) || fresh(reply.pixels)
    ensures reply.borrowed ==> reply.pixels == old(reply.pixels)
  {
    hide Acceptable, Arrival, Departure;
    closed', next, piece := closed, sent, [];
    if turn.late {
      return Done(false), closed, sent, [];
    }
    if !finish && sent == |request| && reply.Complete() {
      r := if turn.peek.Interrupted? then Onward else Done(turn.peek.Empty?);
      return r, closed, sent, [];
    }
    if closed {
      match turn.wait
      case Exited(status) => r := Done(sent == |request| && reply.Complete() && status == 0);
      case Lost => r := Done(false);
      case Running => r := Onward;
    } else {
      var more;
      more, closed', next, piece := OpenTurn(reply, incoming, request, headerSize, sent, turn, finish);
      r := if more then Onward else Done(false);
    }
  }

  /** The same turn in a transfer that is served: it ends well, or goes on in time. */
  method ServedTurn(reply: ImageReply, incoming: seq<u8>, request: seq<u8>, headerSize: nat, sent: nat,
                    closed: bool, turns: seq<Turn>, k: nat, finish: bool, ghost n: nat, ghost m: nat)
    returns (r: Outcome, closed': bool, next: nat, ghost piece: seq<u8>)
    requires Follows(reply, incoming) && sent <= |request| && headerSize <= |request| && k < |turns|
    requires closed ==> finish && reply.Complete() && sent == |request|
    modifies reply, reply.header, reply.pageHeader, reply.extra, reply.pixels
    ensures sent <= next <= |request| && piece == request[sent..next]
    ensures r.Onward? || r.ok ==> Follows(reply, incoming)
    ensures r.Onward? && closed' ==>
              finish && reply.Complete() && next == |request| && (closed || turns[k].read.Closed?)
    ensures r == Done(true) ==>
              && !turns[k].late && reply.Complete() && next == |request|
              && if finish then closed && turns[k].wait == Exited(0) else turns[k].peek.Empty?
    ensures turns[k].late ==> r == Done(false)
    ensures r.Onward? && closed ==> closed' && turns[k].wait.Running?
    ensures r.Onward? && !closed && !finish && sent == |request| && old(reply.Complete()) ==>
              turns[k].peek.Interrupted? && reply.Complete() && next == |request| && !closed'
    ensures r.Onward? && !closed && !(!finish && sent == |request| && old(reply.Complete())) ==>
              if closed' then Closing(turns[k]) else Harmless(turns[k])
    ensures Acceptable(reply, incoming) && Served(turns, n, m, |request|, |incoming|, finish)
            && OnTime(turns, k, n, m, old(reply.received), |incoming|, sent, |request|, finish, closed) ==>
              r == Done(true) ||
              (r.Onward? && OnTime(turns, k + 1, n, m, reply.received, |incoming|, next, |request|, finish, closed'))
    ensures reply.pixels == old(reply.pixels) || fresh(reply.pixels)
    ensures reply.borrowed ==> reply.pixels == old(reply.pixels)
  {
    hide Acceptable, Follows, Served, OnTime, Smooth, Closing, Arrival, Departure;
    ghost var received := reply.received;
    ghost var served := Acceptable(reply, incoming) && Served(turns, n, m, |request|, |incoming|, finish)
                        && OnTime(turns, k, n, m, received, |incoming|, sent, |request|, finish, closed);
    if served {
      ReceivedSoFar(reply, incoming);
      OnTimeTurn(turns, k, n, m, received, |incoming|, sent, |request|, finish, closed);
      if k == n {
        WholeIsComplete(reply, incoming);
      }
    }
    r, closed', next, piece := OneTurn(reply, incoming, request, headerSize, sent, closed, turns[k], finish);
    if served && r.Onward? {
      ReceivedSoFar(reply, incoming);
      if k < n {
        OnTimeNext(turns, k, n, m, received, reply.received, |incoming|, sent, next, |request|, finish);
      } else {
        OnTimeClosed(turns, k, n, m, reply.received, |incoming|, next, |request|);
      }
    }
  }

  /** A result of true means: the whole request went out, in order and once; what came back is one
      valid reply and nothing more; and a one-shot helper closed its end and exited with status 0,
      while a session helper had nothing further pending. And it is true whenever the helper sends a
      valid reply and the turns serve the transfer to its end. */
  method DecoderTransfer(reply: ImageReply, header: seq<u8>, data: seq<u8>, finish: bool, incoming: seq<u8>,
                         first: Peek, turns: seq<Turn>)
    returns (ok: bool, ghost wire: seq<u8>, ghost used: nat)
    requires reply.Valid() && reply.stream == []
    modifies reply, reply.header, reply.pageHeader, reply.extra, reply.pixels
    ensures wire <= header + data
    ensures first.Busy? ==> !ok && wire == [] && used == 0 && reply.stream == []
    ensures ok ==> Follows(reply, incoming) && ValidReply(reply.wanted, reply.stream) && reply.Complete()
    ensures ok ==> wire == header + data && 0 < used <= |turns| && !turns[used - 1].late
    ensures ok && finish ==> turns[used - 1].wait == Exited(0)
    ensures ok && finish ==> exists i :: 0 <= i < used - 1 && turns[i].read == Closed
    ensures ok && !finish ==> turns[used - 1].peek == Empty
    ensures ok ==> NeverBroken(turns, used - 1, finish)
    ensures !first.Busy? && Acceptable(reply, incoming) && Serves(turns, |header + data|, |incoming|, finish) ==> ok
    ensures reply.pixels == old(reply.pixels) || fresh(reply.pixels)
    ensures reply.borrowed ==> reply.pixels == old(reply.pixels)
  {
    hide Acceptable, Follows, Served, OnTime, Smooth, Closing, Arrival, Departure;
    wire, used := [], 0;
    if first.Busy? {
      return false, wire, used;
    }
    var request := header + data;
    ghost var n: nat, m: nat := 0, 0;
    ghost var served := Acceptable(reply, incoming) && Serves(turns, |request|, |incoming|, finish);
    if served {
      n, m :| Served(turns, n, m, |request|, |incoming|, finish);
    }
    NothingReceived(reply, incoming);
    OnTimeAtFirst(turns, n, m, |incoming|, |request|, finish);
    var sent, k, closed := 0, 0, false;
    ghost var d: nat := 0;
    while k < |turns|
      invariant 0 <= k <= |turns| && used == k && 0 <= sent <= |request|
      invariant Follows(reply, incoming)
      invariant wire == request[..sent]
      invariant closed ==> finish && reply.Complete() && sent == |request|
      invariant closed ==> exists i :: 0 <= i < k && turns[i].read == Closed
      invariant Unbroken(turns, d, k, finish) && (closed <==> finish && d < k)
      invariant d < k ==> sent == |request| && reply.Complete()
      invariant served ==> OnTime(turns, k, n, m, reply.received, |incoming|, sent, |request|, finish, closed)
      invariant reply.pixels == old(reply.pixels) || fresh(reply.pixels)
      invariant reply.borrowed ==> reply.pixels == old(reply.pixels)
    {
      ghost var before, through := sent, !finish && sent == |request| && reply.Complete();
      var r;
      ghost var piece;
      r, closed, sent, piece :=
        ServedTurn(reply, incoming, request, |header|, sent, closed, turns, k, finish, n, m);
      wire := wire + piece;
      assert request[..sent] == request[..before] + request[before..sent];
      if r.Onward? && !closed && !through {
        d := k + 1;
      }
      k, used := k + 1, k + 1;
      if r.Done? {
        if r.ok {
          CompleteIsReply(reply, incoming);
        }
        return r.ok, wire, used;
      }
    }
    if served {
      ReceivedSoFar(reply, incoming);
      OnTimeTurn(turns, k, n, m, reply.received, |incoming|, sent, |request|, finish, closed);
    }
    return false, wire, used;
  }
}
