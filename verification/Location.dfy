/** One location fix through the desktop portal (app/location.c:24-187): signals and replies may
    arrive in any order, and a fix is published only with the user's permission. */
module Location {
  import opened Collections
  import opened Options

  type Path = string
  type Point = (real, real)

  const HANDLES: nat := 8

  /** The callbacks of the main loop. A coordinate is None when it is missing or not finite. */
  datatype Event =
    | SessionDone(created: Option<Path>)
    | StartDone(returned: Option<Path>)
    | Response(path: Path, wellFormed: bool, code: nat)
    | LocationUpdated(wellFormed: bool, session: Path, latitude: Option<real>, longitude: Option<real>)
    | SessionClosed(closed: Path)
    | BusClosed
    | Deadline

  /** The fields of struct Location that the callbacks use. */
  datatype View = View(session: Path, request: Path, starting: bool, startReturned: bool,
                       responses: map<Path, nat>, fix: Option<Point>, finished: bool, success: bool)

  /** A usable fix of this session. */
  function Usable(e: Event, session: Path): Option<Point> {
    if e.LocationUpdated? && e.wellFormed && e.session == session && e.latitude.Some? && e.longitude.Some?
       && -90.0 <= e.latitude.value <= 90.0 && -180.0 <= e.longitude.value <= 180.0
    then Some((e.latitude.value, e.longitude.value))
    else None
  }

  /** Usable means: well formed, for this session, and on the globe. */
  lemma UsableIff(e: Event, session: Path, latitude: real, longitude: real)
    ensures Usable(e, session) == Some((latitude, longitude)) <==>
      && e == LocationUpdated(true, session, Some(latitude), Some(longitude))
      && -90.0 <= latitude <= 90.0 && -180.0 <= longitude <= 180.0
  {
  }

  function Finish(v: View, success: bool): View {
    if v.finished then v else v.(finished := true, success := success)
  }

  function MaybeFinish(v: View): View {
    if !v.startReturned || v.request !in v.responses then v
    else if v.responses[v.request] != 0 then Finish(v, false)
    else if v.fix.Some? then Finish(v, true)
    else v
  }

  function After(v: View, e: Event): View {
    match e
    case SessionDone(created) =>
      if v.finished then v
      else if created.None? then Finish(v, false)
      else v.(session := created.value, starting := true)
    case StartDone(returned) =>
      if v.finished then v
      else if returned.None? then Finish(v, false)
      else MaybeFinish(v.(request := returned.value, startReturned := true))
    case Response(path, wellFormed, code) =>
      if v.finished || !v.starting || !wellFormed then v
      else if code <= 2 && (path in v.responses || |v.responses| < HANDLES)
      then MaybeFinish(v.(responses := v.responses[path := code]))
      else v
    case LocationUpdated(_, _, _, _) =>
      if v.finished || !v.starting || Usable(e, v.session).None? || v.fix.Some? then v
      else MaybeFinish(v.(fix := Usable(e, v.session)))
    case SessionClosed(closed) => if closed == v.session then Finish(v, false) else v
    case BusClosed => Finish(v, false)
    case Deadline => Finish(v, false)
  }

  class Request {
    var session: Path
    var request: Path
    var starting: bool
    var startReturned: bool
    var responses: map<Path, nat>
    var fix: Option<Point>
    var finished: bool
    var success: bool

    /** The record once the bus is there: paths derived from the token, nothing asked yet. */
    constructor (session: Path, request: Path)
      ensures Value() == View(session, request, false, false, map[], None, false, false)
    {
      this.session, this.request := session, request;
      starting, startReturned, responses, fix, finished, success := false, false, map[], None, false, false;
    }

    function Value(): View
      reads this
    {
      View(session, request, starting, startReturned, responses, fix, finished, success)
    }

    method End(result: bool)
      modifies this`finished, this`success
      ensures Value() == Finish(old(Value()), result)
    {
      if finished {
        return;
      }
      finished := true;
      success := result;
    }

    method MaybeEnd()
      modifies this`finished, this`success
      ensures Value() == MaybeFinish(old(Value()))
    {
      if !startReturned {
        return;
      }
      if request !in responses {
        return;
      }
      if responses[request] != 0 {
        End(false);
      } else if fix.Some? {
        End(true);
      }
    }

    method Receive(e: Event)
      modifies this
      ensures Value() == After(old(Value()), e)
    {
      match e
      case SessionDone(created) =>
        if finished {
          return;
        }
        if created.None? {
          End(false);
          return;
        }
        session := created.value;
        starting := true;
      case StartDone(returned) =>
        if finished {
          return;
        }
        if returned.None? {
          End(false);
          return;
        }
        request := returned.value;
        startReturned := true;
        MaybeEnd();
      case Response(path, wellFormed, code) =>
        if finished || !starting || !wellFormed {
          return;
        }
        if code <= 2 && (path in responses || |responses| < HANDLES) {
          responses := responses[path := code];
          MaybeEnd();
        }
      case LocationUpdated(_, _, _, _) =>
        if finished || !starting {
          return;
        }
        var point := Usable(e, session);
        if point.Some? && fix.None? {
          fix := point;
          MaybeEnd();
        }
      case SessionClosed(closed) =>
        if closed == session {
          End(false);
        }
      case BusClosed =>
        End(false);
      case Deadline =>
        End(false);
    }
  }

  function Run(v: View, events: seq<Event>): View
    decreases |events|
  {
    if events == [] then v else After(Run(v, events[..|events| - 1]), events[|events| - 1])
  }

  function Fresh(session: Path, request: Path): View {
    View(session, request, false, false, map[], None, false, false)
  }

  // ----- permission: every run -----

  /** Everything the record holds arrived in an event, and success means all of it arrived. */
  ghost predicate Justified(v: View, events: seq<Event>) {
    && (v.startReturned ==> StartDone(Some(v.request)) in events)
    && (forall p :: p in v.responses ==> v.responses[p] <= 2 && Response(p, true, v.responses[p]) in events)
    && (v.starting ==> SessionDone(Some(v.session)) in events)
    && (v.fix.Some? ==> Fixed(v.fix, events))
    && (v.fix.Some? ==> v.starting)
    && (v.success ==>
          && v.finished && v.startReturned && v.request in v.responses && v.responses[v.request] == 0
          && v.fix.Some?)
  }

  /** Some event reported this fix for a session that was created. */
  ghost predicate Fixed(fix: Option<Point>, events: seq<Event>) {
    exists e, session :: e in events && SessionDone(Some(session)) in events && Usable(e, session) == fix
  }

  lemma FixedGrows(fix: Option<Point>, events: seq<Event>, e: Event)
    requires Fixed(fix, events)
    ensures Fixed(fix, events + [e])
  {
    var f, session :| f in events && SessionDone(Some(session)) in events && Usable(f, session) == fix;
    assert f in events + [e] && SessionDone(Some(session)) in events + [e];
  }

  lemma FixedNow(events: seq<Event>, e: Event, session: Path)
    requires SessionDone(Some(session)) in events
    ensures Fixed(Usable(e, session), events + [e])
  {
    assert e in events + [e] && SessionDone(Some(session)) in events + [e];
  }

  lemma JustifiedGrows(v: View, events: seq<Event>, e: Event)
    requires Justified(v, events)
    ensures Justified(v, events + [e])
  {
    hide Fixed;
    if v.fix.Some? {
      FixedGrows(v.fix, events, e);
    }
  }

  lemma JustifiedStep(v: View, events: seq<Event>, e: Event)
    requires Justified(v, events)
    ensures Justified(After(v, e), events + [e])
  {
    hide Usable, Fixed;
    JustifiedGrows(v, events, e);
    assert e in events + [e];
    if v.starting {
      FixedNow(events, e, v.session);
    }
  }

  /** CreateSession is asked for once, so it returns once. */
  predicate CreatedOnce(events: seq<Event>) {
    forall i, j :: 0 <= i < j < |events| ==> !(events[i].SessionDone? && events[j].SessionDone?)
  }

  /** Some event reported this fix for this very session. */
  ghost predicate ReportedFor(fix: Option<Point>, session: Path, events: seq<Event>) {
    exists e :: e in events && Usable(e, session) == fix
  }

  lemma OwnSession(v: View, events: seq<Event>, e: Event)
    requires Justified(v, events) && CreatedOnce(events + [e])
    requires v.fix.Some? ==> ReportedFor(v.fix, v.session, events)
    ensures After(v, e).fix.Some? ==> ReportedFor(After(v, e).fix, After(v, e).session, events + [e])
  {
    hide Usable, Fixed, MaybeFinish;
    var all := events + [e];
    assert e == all[|events|] && e in all;
    if v.fix.Some? {
      var f :| f in events && Usable(f, v.session) == v.fix;
      assert f in all;
    }
    if v.starting && e.SessionDone? {
      CreatedTwice(events, e, v.session);
    }
    FieldsStay(v, e);
  }

  lemma CreatedTwice(events: seq<Event>, e: Event, session: Path)
    requires SessionDone(Some(session)) in events && e.SessionDone?
    ensures !CreatedOnce(events + [e])
  {
    var i :| 0 <= i < |events| && events[i] == SessionDone(Some(session));
    assert (events + [e])[i].SessionDone? && (events + [e])[|events|].SessionDone?;
  }

  lemma FieldsStay(v: View, e: Event)
    ensures !e.SessionDone? ==> After(v, e).session == v.session
    ensures After(v, e).fix == v.fix || (v.fix.None? && After(v, e).fix == Usable(e, v.session))
  {
  }

  /** A fix is published only if Start returned, the Response for the handle it returned granted
      permission, and the fix was reported for the session that was created; whatever else happened,
      in whatever order. */
  lemma {:induction false} PublishedIsJustified(session: Path, request: Path, events: seq<Event>)
    ensures
      var v := Run(Fresh(session, request), events);
      Justified(v, events) && (CreatedOnce(events) && v.fix.Some? ==> ReportedFor(v.fix, v.session, events))
    decreases |events|
  {
    hide After, Justified, ReportedFor;
    if events == [] {
      NothingHeld(session, request);
    } else {
      var before, e := events[..|events| - 1], events[|events| - 1];
      var v := Run(Fresh(session, request), before);
      assert before + [e] == events;
      PublishedIsJustified(session, request, before);
      JustifiedStep(v, before, e);
      if CreatedOnce(events) {
        assert forall i :: 0 <= i < |before| ==> before[i] == events[i];
        OwnSession(v, before, e);
      }
    }
  }

  lemma NothingHeld(session: Path, request: Path)
    ensures Justified(Fresh(session, request), []) && Fresh(session, request).fix.None?
  {
  }

  /** The same in full: the answers to the three requests, and the signal with the coordinates. */
  lemma PublishedArrived(session: Path, request: Path, events: seq<Event>)
    requires CreatedOnce(events) && Run(Fresh(session, request), events).success
    ensures
      var v := Run(Fresh(session, request), events);
      && SessionDone(Some(v.session)) in events && StartDone(Some(v.request)) in events
      && Response(v.request, true, 0) in events && v.fix.Some?
      && var (latitude, longitude) := v.fix.value;
         && LocationUpdated(true, v.session, Some(latitude), Some(longitude)) in events
         && -90.0 <= latitude <= 90.0 && -180.0 <= longitude <= 180.0
  {
    hide Run, Usable;
    PublishedIsJustified(session, request, events);
    var v := Run(Fresh(session, request), events);
    var e :| e in events && Usable(e, v.session) == v.fix;
    UsableIff(e, v.session, v.fix.value.0, v.fix.value.1);
  }

  // ----- order: every interleaving -----

  /** One request as the portal conducts it: one handle, one answer for it, one place, and noise -
      answers for other handles, unusable fixes, other sessions' ends - but nothing that ends it. */
  predicate Scenario(e: Event, session: Path, handle: Path, code: nat, place: Point, others: set<Path>) {
    match e
    case SessionDone(_) => false
    case StartDone(returned) => returned == Some(handle)
    case Response(path, wellFormed, c) => !wellFormed || (if path == handle then c == code else path in others || c > 2)
    case LocationUpdated(_, _, _, _) => Usable(e, session).None? || Usable(e, session) == Some(place)
    case SessionClosed(closed) => closed != session
    case BusClosed => false
    case Deadline => false
  }

  predicate AllScenario(events: seq<Event>, session: Path, handle: Path, code: nat, place: Point, others: set<Path>) {
    forall i :: 0 <= i < |events| ==> Scenario(events[i], session, handle, code, place, others)
  }

  predicate Returned(events: seq<Event>, handle: Path) {
    StartDone(Some(handle)) in events
  }

  predicate Answered(events: seq<Event>, handle: Path, code: nat) {
    Response(handle, true, code) in events
  }

  ghost predicate Reported(events: seq<Event>, session: Path) {
    exists e :: e in events && Usable(e, session).Some?
  }

  /** The outcome as a matter of what arrived, not when. */
  ghost predicate Decided(events: seq<Event>, session: Path, handle: Path, code: nat) {
    Returned(events, handle) && Answered(events, handle, code) && (code != 0 || Reported(events, session))
  }

  /** While undecided, the record is exactly what arrived. */
  ghost predicate Collected(v: View, events: seq<Event>, session: Path, handle: Path, code: nat, place: Point,
                            others: set<Path>)
  {
    && v.session == session && v.starting && v.startReturned == Returned(events, handle)
    && (v.startReturned ==> v.request == handle)
    && (handle in v.responses) == Answered(events, handle, code)
    && (handle in v.responses ==> v.responses[handle] == code)
    && (forall p :: p in v.responses && p != handle ==> p in others)
    && v.fix == (if Reported(events, session) then Some(place) else None)
  }

  ghost predicate Outcome(v: View, events: seq<Event>, session: Path, handle: Path, code: nat, place: Point,
                          others: set<Path>)
  {
    if Decided(events, session, handle, code)
    then v.finished && v.success == (code == 0) && (code == 0 ==> v.fix == Some(place))
    else !v.finished && !v.success && Collected(v, events, session, handle, code, place, others)
  }

  lemma RoomForHandle(responses: map<Path, nat>, handle: Path, others: set<Path>)
    requires handle !in responses && |others| < HANDLES && forall p :: p in responses ==> p in others
    ensures |responses| < HANDLES
  {
    assert responses.Keys <= others;
    Fewer(responses.Keys, others);
  }

  lemma Extends(before: seq<Event>, e: Event, session: Path, handle: Path, code: nat)
    ensures Returned(before + [e], handle) == (Returned(before, handle) || e == StartDone(Some(handle)))
    ensures Answered(before + [e], handle, code)
         == (Answered(before, handle, code) || e == Response(handle, true, code))
    ensures Reported(before + [e], session) == (Reported(before, session) || Usable(e, session).Some?)
  {
    var all := before + [e];
    assert forall x :: x in all <==> x in before || x == e;
  }

  lemma OutcomeStep(v: View, before: seq<Event>, e: Event, session: Path, handle: Path, code: nat, place: Point,
                    others: set<Path>)
    requires Outcome(v, before, session, handle, code, place, others)
    requires Scenario(e, session, handle, code, place, others) && code <= 2 && |others| < HANDLES
    ensures Outcome(After(v, e), before + [e], session, handle, code, place, others)
  {
    Extends(before, e, session, handle, code);
    if e.Response? && !v.finished && handle !in v.responses {
      RoomForHandle(v.responses, handle, others);
    }
  }

  /** However the events of a request are interleaved, the outcome follows from which arrived. */
  lemma {:induction false} OutcomeIgnoresOrder(v: View, events: seq<Event>, session: Path, handle: Path, code: nat,
                                              place: Point, others: set<Path>)
    requires v.session == session && v.starting && !v.startReturned && v.responses == map[] && v.fix.None?
    requires !v.finished && !v.success
    requires AllScenario(events, session, handle, code, place, others) && code <= 2 && |others| < HANDLES
    ensures Outcome(Run(v, events), events, session, handle, code, place, others)
    decreases |events|
  {
    if events == [] {
    } else {
      var before := events[..|events| - 1];
      OutcomeIgnoresOrder(v, before, session, handle, code, place, others);
      OutcomeStep(Run(v, before), before, events[|events| - 1], session, handle, code, place, others);
      assert before + [events[|events| - 1]] == events;
    }
  }

  /** In particular two interleavings of the same events end alike. */
  lemma InterleavingsAgree(v: View, events: seq<Event>, shuffled: seq<Event>, session: Path, handle: Path, code: nat,
                           place: Point, others: set<Path>)
    requires v.session == session && v.starting && !v.startReturned && v.responses == map[] && v.fix.None?
    requires !v.finished && !v.success && multiset(events) == multiset(shuffled)
    requires AllScenario(events, session, handle, code, place, others) && code <= 2 && |others| < HANDLES
    ensures Run(v, events).finished == Run(v, shuffled).finished && Run(v, events).success == Run(v, shuffled).success
    ensures Run(v, events).success ==> Run(v, events).fix == Run(v, shuffled).fix == Some(place)
  {
    assert forall e :: e in events <==> e in multiset(events);
    assert forall e :: e in shuffled <==> e in multiset(shuffled);
    assert forall e :: e in events <==> e in shuffled;
    forall i | 0 <= i < |shuffled|
      ensures Scenario(shuffled[i], session, handle, code, place, others)
    {
      assert shuffled[i] in events;
    }
    OutcomeIgnoresOrder(v, events, session, handle, code, place, others);
    OutcomeIgnoresOrder(v, shuffled, session, handle, code, place, others);
  }

  lemma {:induction false} RunOn(v: View, first: Event, events: seq<Event>)
    ensures Run(v, [first] + events) == Run(After(v, first), events)
    decreases |events|
  {
    var all := [first] + events;
    if events == [] {
      assert all[..0] == [] && Run(v, []) == v;
    } else {
      var init := events[..|events| - 1];
      assert all[..|all| - 1] == [first] + init;
      RunOn(v, first, init);
    }
  }

  /** From the start: once the session is there, a grant for the handle that Start returned and one usable
      report get the fix published, in whatever order they arrive. */
  lemma FixGetsPublished(session: Path, request: Path, created: Path, events: seq<Event>, handle: Path, place: Point,
                         others: set<Path>)
    requires AllScenario(events, created, handle, 0, place, others) && |others| < HANDLES
    requires StartDone(Some(handle)) in events && Response(handle, true, 0) in events
    requires LocationUpdated(true, created, Some(place.0), Some(place.1)) in events
    requires -90.0 <= place.0 <= 90.0 && -180.0 <= place.1 <= 180.0
    ensures
      var v := Run(Fresh(session, request), [SessionDone(Some(created))] + events);
      v.finished && v.success && v.fix == Some(place)
  {
    hide Run, AllScenario;
    var first := SessionDone(Some(created));
    RunOn(Fresh(session, request), first, events);
    OutcomeIgnoresOrder(After(Fresh(session, request), first), events, created, handle, 0, place, others);
    UsableIff(LocationUpdated(true, created, Some(place.0), Some(place.1)), created, place.0, place.1);
  }
}
