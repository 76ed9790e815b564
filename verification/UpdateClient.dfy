/** The app's side of an update (app/appimage_update_client.c:245-299, 355-421): the thread of the
    user interface, the worker that reads the helper's lines, and the helper's command loop
    (app/appimage_update.cpp:214-332), in every interleaving. */
module UpdateClient {
  /** What the helper says: R, X, and the progress reports that do not matter here. */
  datatype Line = Ready | Ack | Report

  /** What the app asks: A and Q confirm the update, anything else is a preference. */
  datatype Command = Confirm | Preference

  /** The helper looks for an update, offers one, waits for the app to exit, or is gone. */
  datatype Helper = Searching | Offering | Waiting | Gone(replaced: bool)

  datatype Worker = Reading | Acknowledged | Ended

  datatype Interface = Running | Stopping | Stopped | Exited(orderly: bool)

  /** The shared fields of the client, the socket's two directions and its end, and the three
      processes. asked records that some confirmation was delivered. */
  datatype State = State(ready: bool, apply: bool, stop: bool, hungUp: bool, commands: seq<Command>, lines: seq<Line>,
                         ui: Interface, worker: Worker, helper: Helper, asked: bool)

  datatype Action =
    | HelperReports(found: bool)
    | HelperReads
    | HelperDies
    | HelperReplaces
    | WorkerReads
    | Apply(sent: bool)
    | PrepareExit(sent: bool)
    | Prefer(sent: bool, late: bool)
    | StopBegins
    | StopJoins
    | Exit

  const INITIAL: State := State(false, false, false, false, [], [], Running, Reading, Searching, false)

  /** One turn of the helper's loop over its commands: a hang-up comes before buffered data. */
  function HelperTurn(s: State): State {
    if !(s.helper.Searching? || s.helper.Offering?) then s
    else if s.hungUp then s.(helper := Gone(false))
    else if s.commands == [] then s
    else
      var t := s.(commands := s.commands[1..]);
      match s.commands[0]
      case Preference => t
      case Confirm =>
        if s.helper.Offering? then t.(helper := Waiting, lines := s.lines + [Ack]) else t.(helper := Gone(false))
  }

  /** What the helper's search comes to: an update to offer, or a report. */
  function ReportTurn(s: State, found: bool): State {
    if !s.helper.Searching? then s
    else if found then s.(helper := Offering, lines := s.lines + [Ready])
    else s.(lines := s.lines + [Report])
  }

  function ReplaceTurn(s: State): State {
    if s.helper.Waiting? && s.ui.Exited? then s.(helper := Gone(true)) else s
  }

  function DieTurn(s: State): State {
    if s.helper.Gone? then s else s.(helper := Gone(false))
  }

  /** The worker's failure path kills the helper and, unless it was told to stop, reports the failure. */
  function Kill(s: State): State {
    DieTurn(s).(worker := Ended, ready := s.ready && s.stop)
  }

  function WorkerTurn(s: State): State {
    if !s.worker.Reading? || s.ui.Exited? then s
    else if s.lines == [] then if s.hungUp || s.helper.Gone? then Kill(s) else s
    else
      var t := s.(lines := s.lines[1..]);
      if s.stop then Kill(t)
      else
        match s.lines[0]
        case Ready => t.(ready := true)
        case Ack => if s.apply then t.(worker := Acknowledged) else t
        case Report => t
  }

  /** wn_appimage_apply; a command that cannot be sent takes the wish back. */
  function ApplyTurn(s: State, sent: bool): State {
    if s.ui != Running || !s.ready then s
    else if sent && !s.hungUp then s.(apply := true, asked := true, commands := s.commands + [Confirm])
    else s.(apply := false, ready := false)
  }

  /** wn_appimage_prepare_exit: nothing more to send when the update was confirmed already. */
  function PrepareTurn(s: State, sent: bool): State {
    if s.ui != Running || s.apply || !s.ready then s
    else if sent && !s.hungUp then s.(apply := true, asked := true, commands := s.commands + [Confirm])
    else s.(apply := false)
  }

  /** wn_appimage_check and wn_appimage_mode; a check that began before READY may overwrite it. */
  function PreferTurn(s: State, sent: bool, late: bool): State {
    if s.ui != Running then s
    else
      var t := if late then s.(ready := false) else s;
      if sent && !s.hungUp then t.(commands := s.commands + [Preference]) else t
  }

  /** wn_appimage_stop begins: only without a standing wish does it hang up before it joins the worker. */
  function StopTurn(s: State): State {
    if s.ui != Running then s
    else if s.apply then s.(ui := Stopping)
    else s.(ui := Stopping, stop := true, hungUp := true)
  }

  function JoinTurn(s: State): State {
    if s.ui == Stopping && s.worker != Reading then s.(ui := Stopped, hungUp := true) else s
  }

  function ExitTurn(s: State): State {
    if s.ui.Exited? then s else s.(ui := Exited(s.ui == Stopped), hungUp := true)
  }

  function Step(s: State, a: Action): State {
    match a
    case HelperReports(found) => ReportTurn(s, found)
    case HelperReads => HelperTurn(s)
    case HelperDies => DieTurn(s)
    case HelperReplaces => ReplaceTurn(s)
    case WorkerReads => WorkerTurn(s)
    case Apply(sent) => ApplyTurn(s, sent)
    case PrepareExit(sent) => PrepareTurn(s, sent)
    case Prefer(sent, late) => PreferTurn(s, sent, late)
    case StopBegins => StopTurn(s)
    case StopJoins => JoinTurn(s)
    case Exit => ExitTurn(s)
  }

  function Run(s: State, actions: seq<Action>): State
    decreases |actions|
  {
    if actions == [] then s else Step(Run(s, actions[..|actions| - 1]), actions[|actions| - 1])
  }

  /** What every step keeps. */
  predicate Inv(s: State) {
    && (s.helper.Waiting? || s.helper == Gone(true) ==> s.asked)
    && (Confirm in s.commands ==> s.asked)
    && (Ack in s.lines || s.worker.Acknowledged? ==> s.helper.Waiting? || s.helper.Gone?)
    && (s.worker.Ended? ==> s.helper.Gone?)
    && (s.helper == Gone(true) ==> s.ui.Exited?)
    && (s.ui == Stopped || s.ui == Exited(true) ==> !s.worker.Reading?)
  }

  predicate HelperAction(a: Action) {
    a.HelperReports? || a.HelperReads? || a.HelperDies? || a.HelperReplaces?
  }

  lemma Cons<T>(s: seq<T>)
    ensures s != [] ==> forall x :: x in s <==> x == s[0] || x in s[1..]
  {
    if s != [] {
      assert s == [s[0]] + s[1..];
    }
  }

  lemma ReadsKeeps(s: State)
    requires Inv(s)
    ensures Inv(HelperTurn(s))
  {
    Cons(s.commands);
  }

  lemma ReportKeeps(s: State, found: bool)
    requires Inv(s)
    ensures Inv(ReportTurn(s, found))
  {
  }

  lemma HelperKeeps(s: State, a: Action)
    requires Inv(s) && HelperAction(a)
    ensures Inv(Step(s, a))
  {
    hide HelperTurn, ReportTurn;
    if a.HelperReads? {
      ReadsKeeps(s);
    } else if a.HelperReports? {
      ReportKeeps(s, a.found);
    }
  }

  lemma WorkerKeeps(s: State)
    requires Inv(s)
    ensures Inv(WorkerTurn(s))
  {
    Cons(s.lines);
  }

  lemma InterfaceKeeps(s: State, a: Action)
    requires Inv(s) && !HelperAction(a) && !a.WorkerReads?
    ensures Inv(Step(s, a))
  {
  }

  lemma StepKeeps(s: State, a: Action)
    requires Inv(s)
    ensures Inv(Step(s, a))
  {
    if HelperAction(a) {
      HelperKeeps(s, a);
    } else if a.WorkerReads? {
      WorkerKeeps(s);
    } else {
      InterfaceKeeps(s, a);
    }
  }

  lemma {:induction false} RunKeeps(actions: seq<Action>)
    ensures Inv(Run(INITIAL, actions))
    decreases |actions|
  {
    if actions != [] {
      RunKeeps(actions[..|actions| - 1]);
      StepKeeps(Run(INITIAL, actions[..|actions| - 1]), actions[|actions| - 1]);
    }
  }

  /** In every run: a helper replaces the image only after the app has exited and only when a
      confirmation was delivered; and once the app has stopped its client, a helper that still lives
      has been asked, has acknowledged it, and waits for the app to exit. */
  lemma HelperActsOnlyWhenAsked(actions: seq<Action>)
    ensures
      var s := Run(INITIAL, actions);
      && (s.helper == Gone(true) ==> s.ui.Exited? && s.asked)
      && (s.ui == Stopped || s.ui == Exited(true) ==>
            s.helper.Gone? || (s.helper.Waiting? && s.worker.Acknowledged? && s.asked))
  {
    RunKeeps(actions);
  }

  // ----- a confirmed update is not lost -----

  predicate Found(s: State) {
    s.helper.Offering? || s.helper.Waiting? || s.helper.Gone?
  }

  /** A confirmation that stands is in the socket, or taken and answered, and nothing hung up. */
  predicate UnderWay(s: State) {
    && (s.ready || Ready in s.lines || Confirm in s.commands ==> Found(s))
    && (s.apply ==> Confirm in s.commands || s.helper.Waiting? || s.helper.Gone?)
    && (s.apply && (s.ui == Running || s.ui == Stopping) ==> !s.hungUp && !s.stop)
    && (s.stop ==> s.hungUp && !s.apply && s.ui != Running)
    && (s.hungUp ==> s.ui != Running)
  }

  lemma HelperUnderWay(s: State, a: Action)
    requires UnderWay(s) && HelperAction(a)
    ensures UnderWay(Step(s, a))
  {
    Cons(s.commands);
  }

  lemma WorkerUnderWay(s: State)
    requires UnderWay(s)
    ensures UnderWay(WorkerTurn(s))
  {
    Cons(s.lines);
  }

  lemma InterfaceUnderWay(s: State, a: Action)
    requires UnderWay(s) && !HelperAction(a) && !a.WorkerReads?
    ensures UnderWay(Step(s, a))
  {
  }

  /** Unless the helper fails by itself, it goes only after a hang-up, and not at all once a
      confirmation stands while the app leaves in good order. */
  predicate Unharmed(s: State) {
    && (s.helper.Gone? && (s.ui == Running || s.ui == Stopping) ==> s.hungUp)
    && (s.apply && (s.ui == Stopped || s.ui == Exited(true)) ==> s.helper.Waiting? || s.helper == Gone(true))
  }

  lemma HelperUnharmed(s: State, a: Action)
    requires Inv(s) && UnderWay(s) && Unharmed(s) && HelperAction(a) && !a.HelperDies?
    ensures Unharmed(Step(s, a))
  {
    Cons(s.commands);
  }

  lemma WorkerUnharmed(s: State)
    requires Inv(s) && UnderWay(s) && Unharmed(s)
    ensures Unharmed(WorkerTurn(s))
  {
  }

  lemma InterfaceUnharmed(s: State, a: Action)
    requires Inv(s) && UnderWay(s) && Unharmed(s) && !HelperAction(a) && !a.WorkerReads?
    ensures Unharmed(Step(s, a))
  {
  }

  lemma {:induction false} RunUnharmed(actions: seq<Action>)
    requires forall i :: 0 <= i < |actions| ==> !actions[i].HelperDies?
    ensures var s := Run(INITIAL, actions); Inv(s) && UnderWay(s) && Unharmed(s)
    decreases |actions|
  {
    hide Step, Inv, UnderWay, Unharmed;
    if actions == [] {
      InitialState();
    } else {
      var before, a := actions[..|actions| - 1], actions[|actions| - 1];
      RunUnharmed(before);
      var s := Run(INITIAL, before);
      StepKeeps(s, a);
      OneStep(s, a);
    }
  }

  lemma InitialState()
    ensures Inv(INITIAL) && UnderWay(INITIAL) && Unharmed(INITIAL)
  {
  }

  lemma OneStep(s: State, a: Action)
    requires Inv(s) && UnderWay(s) && Unharmed(s) && !a.HelperDies?
    ensures UnderWay(Step(s, a)) && Unharmed(Step(s, a))
  {
    hide Inv, UnderWay, Unharmed;
    if HelperAction(a) {
      HelperUnderWay(s, a);
      HelperUnharmed(s, a);
    } else if a.WorkerReads? {
      WorkerUnderWay(s);
      WorkerUnharmed(s);
    } else {
      InterfaceUnderWay(s, a);
      InterfaceUnharmed(s, a);
    }
  }

  /** A confirmed update is not lost: when the helper does not fail by itself and the app stops its
      client in good order, the helper of a confirmation that stands waits for the app to exit, and
      whatever happens then, it has waited or replaced the image. */
  lemma ConfirmedIsNotLost(actions: seq<Action>)
    requires forall i :: 0 <= i < |actions| ==> !actions[i].HelperDies?
    ensures
      var s := Run(INITIAL, actions);
      && (s.ui == Stopped && s.apply ==> s.helper.Waiting?)
      && (s.ui == Exited(true) && s.apply ==> s.helper.Waiting? || s.helper == Gone(true))
  {
    RunUnharmed(actions);
    var s := Run(INITIAL, actions);
    assert Inv(s) && Unharmed(s);
  }

  /** The actions one after the other, from the front. */
  function Steps(s: State, actions: seq<Action>): State
    decreases |actions|
  {
    if actions == [] then s else Steps(Step(s, actions[0]), actions[1..])
  }

  lemma {:induction false} StepsAreRun(done: seq<Action>, actions: seq<Action>)
    ensures Steps(Run(INITIAL, done), actions) == Run(INITIAL, done + actions)
    decreases |actions|
  {
    if actions == [] {
      assert done + actions == done;
    } else {
      var more := done + [actions[0]];
      assert more[..|more| - 1] == done;
      StepsAreRun(more, actions[1..]);
      assert more + actions[1..] == done + actions;
    }
  }

  // ----- a confirmation that is taken back -----

  /** The failing branch of wn_appimage_apply, taken while an earlier confirmation stands. */
  predicate FailedRepeat(s: State, a: Action) {
    a.Apply? && s.ui == Running && s.ready && s.apply && !(a.sent && !s.hungUp)
  }

  predicate RepeatFailedAt(actions: seq<Action>, i: nat) {
    i < |actions| && FailedRepeat(Run(INITIAL, actions[..i]), actions[i])
  }

  /** A confirmation was delivered, and the app does not stand by it any more. */
  predicate TakenBack(s: State) {
    s.asked && !s.apply
  }

  /** The helper offers once, so that an app that is no longer ready cannot confirm again. */
  predicate OneOffer(s: State) {
    && (s.helper.Searching? || s.ready || s.asked ==> Ready !in s.lines)
    && (s.helper.Searching? ==> !s.ready && !s.asked)
    && (forall i, j :: 0 <= i < j < |s.lines| ==> s.lines[i] != Ready || s.lines[j] != Ready)
    && (s.apply ==> s.asked)
    && (TakenBack(s) ==> !s.ready)
  }

  lemma OneOfferFromHelper(s: State, a: Action)
    requires OneOffer(s) && HelperAction(a)
    ensures OneOffer(Step(s, a))
  {
    assert forall y: Line :: forall x :: x in s.lines + [y] <==> x in s.lines || x == y;
  }

  lemma OneOfferFromWorker(s: State)
    requires OneOffer(s)
    ensures OneOffer(WorkerTurn(s))
  {
    Cons(s.lines);
  }

  lemma OneOfferFromInterface(s: State, a: Action)
    requires OneOffer(s) && !HelperAction(a) && !a.WorkerReads?
    ensures OneOffer(Step(s, a))
  {
  }

  lemma OneOfferKept(s: State, a: Action)
    requires OneOffer(s)
    ensures OneOffer(Step(s, a))
  {
    hide OneOffer;
    if HelperAction(a) {
      OneOfferFromHelper(s, a);
    } else if a.WorkerReads? {
      OneOfferFromWorker(s);
    } else {
      OneOfferFromInterface(s, a);
    }
  }

  lemma {:induction false} RunHasOneOffer(actions: seq<Action>)
    ensures OneOffer(Run(INITIAL, actions))
    decreases |actions|
  {
    if actions != [] {
      RunHasOneOffer(actions[..|actions| - 1]);
      OneOfferKept(Run(INITIAL, actions[..|actions| - 1]), actions[|actions| - 1]);
    }
  }

  lemma StepTakesBack(s: State, a: Action)
    requires OneOffer(s)
    ensures TakenBack(Step(s, a)) <==> TakenBack(s) || FailedRepeat(s, a)
  {
  }

  /** In every run the app withdraws a delivered confirmation exactly when a repeated apply could not
      be sent. Without that, then, only an update the app stands by is ever installed. */
  lemma {:induction false} TakenBackIffRepeatFailed(actions: seq<Action>)
    ensures TakenBack(Run(INITIAL, actions)) <==> exists i: nat :: RepeatFailedAt(actions, i)
    decreases |actions|
  {
    hide TakenBack, Step, FailedRepeat;
    if actions == [] {
      assert !TakenBack(INITIAL) by { NothingAsked(); }
    } else {
      var n: nat := |actions| - 1;
      var before := actions[..n];
      TakenBackIffRepeatFailed(before);
      RunHasOneOffer(before);
      StepTakesBack(Run(INITIAL, before), actions[n]);
      forall i: nat
        ensures RepeatFailedAt(actions, i) <==> RepeatFailedAt(before, i) || (i == n && RepeatFailedAt(actions, n))
      {
        if i < n {
          assert actions[..i] == before[..i];
        }
      }
      if exists i: nat :: RepeatFailedAt(before, i) {
        var i: nat :| RepeatFailedAt(before, i);
        assert RepeatFailedAt(actions, i);
      }
      assert RepeatFailedAt(actions, n) <==> FailedRepeat(Run(INITIAL, before), actions[n]);
    }
  }

  lemma NothingAsked()
    ensures !TakenBack(INITIAL)
  {
  }

  lemma InstalledIsStoodBy(actions: seq<Action>)
    requires forall i: nat :: !RepeatFailedAt(actions, i)
    ensures var s := Run(INITIAL, actions); s.helper.Waiting? || s.helper == Gone(true) ==> s.apply
  {
    RunKeeps(actions);
    TakenBackIffRepeatFailed(actions);
  }

  /** The worker had the helper's answer and has left; the helper lives on by itself. */
  predicate Committed(s: State) {
    s.worker.Acknowledged? && (s.helper.Waiting? || s.helper == Gone(true))
  }

  /** The worker has no answer and takes none: it ends only by killing the helper. */
  predicate Doomed(s: State) {
    && TakenBack(s)
    && !s.worker.Acknowledged?
    && (s.ui == Stopped || s.ui == Exited(true) ==> s.worker.Ended?)
    && (s.helper == Gone(true) ==> s.ui == Exited(false))
  }

  lemma CommittedStays(s: State, a: Action)
    requires Committed(s) && !a.HelperDies?
    ensures Committed(Step(s, a))
  {
  }

  lemma DoomedStays(s: State, a: Action)
    requires Inv(s) && OneOffer(s) && Doomed(s)
    ensures Doomed(Step(s, a))
  {
  }

  lemma RepeatFails(s: State, a: Action)
    requires Inv(s) && UnderWay(s) && Unharmed(s) && OneOffer(s) && FailedRepeat(s, a)
    ensures if s.worker.Acknowledged? then Committed(Step(s, a)) else Doomed(Step(s, a))
  {
  }

  /** What becomes of the helper after the failed repeat, whatever happens in between: it lives on to
      replace the image when the worker had read its answer before; otherwise an app that leaves in
      good order has killed it. */
  lemma {:induction false} AfterFailedRepeat(actions: seq<Action>, i: nat)
    requires forall k :: 0 <= k < |actions| ==> !actions[k].HelperDies?
    requires RepeatFailedAt(actions, i)
    ensures
      var s := Run(INITIAL, actions);
      if Run(INITIAL, actions[..i]).worker.Acknowledged? then Committed(s) else Doomed(s)
    decreases |actions|
  {
    hide Step, Inv, UnderWay, Unharmed, OneOffer, Committed, Doomed, FailedRepeat;
    var n: nat := |actions| - 1;
    var before := actions[..n];
    var s := Run(INITIAL, before);
    RunHasOneOffer(before);
    if i == n {
      RunUnharmed(before);
      RepeatFails(s, actions[n]);
    } else {
      assert before[..i] == actions[..i];
      AfterFailedRepeat(before, i);
      RunKeeps(before);
      if Run(INITIAL, actions[..i]).worker.Acknowledged? {
        CommittedStays(s, actions[n]);
      } else {
        DoomedStays(s, actions[n]);
      }
    }
  }

  /** When the app leaves in good order and the helper does not fail by itself, the update is installed
      if and only if the app stands by it, or withdrew it by a repeat that failed after the worker had
      read the helper's answer. */
  lemma OrderlyExitInstallsIff(actions: seq<Action>)
    requires forall k :: 0 <= k < |actions| ==> !actions[k].HelperDies?
    requires Run(INITIAL, actions).ui == Exited(true)
    ensures
      var s := Run(INITIAL, actions);
      Step(s, HelperReplaces).helper == Gone(true) <==>
      (s.apply || exists i: nat :: RepeatFailedAt(actions, i) && Run(INITIAL, actions[..i]).worker.Acknowledged?)
  {
    hide FailedRepeat;
    var s := Run(INITIAL, actions);
    RunKeeps(actions);
    ConfirmedIsNotLost(actions);
    TakenBackIffRepeatFailed(actions);
    forall i: nat | RepeatFailedAt(actions, i)
      ensures if Run(INITIAL, actions[..i]).worker.Acknowledged? then Committed(s) else Doomed(s)
    {
      AfterFailedRepeat(actions, i);
    }
  }

  /** Such a run: the repeat fails to be sent, the app reports a failure, and the image is replaced. */
  lemma FailedRepeatStillReplaces() returns (actions: seq<Action>)
    ensures var s := Run(INITIAL, actions); !s.apply && !s.ready && s.helper == Gone(true)
  {
    var first := [HelperReports(true), WorkerReads, Apply(true), HelperReads, WorkerReads];
    var rest := [Apply(false), StopBegins, StopJoins, Exit, HelperReplaces];
    actions := first + rest;
    Asked(first);
    StepsAreRun(first, rest);
    Replaced(Run(INITIAL, first), rest);
  }

  lemma OfferRead()
    ensures
      var s := Step(Step(INITIAL, HelperReports(true)), WorkerReads);
      && s.ready && !s.hungUp && !s.stop && s.ui == Running && s.worker == Reading
      && s.helper == Offering && s.lines == [] && s.commands == []
  {
    var s := Step(INITIAL, HelperReports(true));
    assert s.lines == [Ready] && s.lines[1..] == [];
  }

  lemma AnswerRead(s: State)
    requires s.ready && !s.hungUp && !s.stop && s.ui == Running && s.worker == Reading && s.helper == Offering
    requires s.lines == [] && s.commands == []
    ensures
      var t := Step(Step(Step(s, Apply(true)), HelperReads), WorkerReads);
      t.ready && t.ui == Running && t.worker == Acknowledged && t.helper == Waiting
  {
    var s1 := Step(s, Apply(true));
    assert s1.commands == [Confirm];
    var s2 := Step(s1, HelperReads);
    assert s2.lines == [Ack];
  }

  lemma Asked(actions: seq<Action>)
    requires actions == [HelperReports(true), WorkerReads, Apply(true), HelperReads, WorkerReads]
    ensures
      var s := Run(INITIAL, actions);
      s.ready && s.ui == Running && s.worker == Acknowledged && s.helper == Waiting
  {
    hide Step;
    OfferRead();
    var s1 := Step(INITIAL, actions[0]);
    var s2 := Step(s1, actions[1]);
    AnswerRead(s2);
    assert [] + actions == actions;
    StepsAreRun([], actions);
    var s3 := Step(s2, actions[2]);
    var s4 := Step(s3, actions[3]);
    Unfold(INITIAL, actions);
    Unfold(s1, actions[1..]);
    Unfold(s2, actions[2..]);
    Unfold(s3, actions[3..]);
    Unfold(s4, actions[4..]);
  }

  lemma Replaced(s: State, actions: seq<Action>)
    requires s.ready && s.ui == Running && s.worker == Acknowledged && s.helper == Waiting
    requires actions == [Apply(false), StopBegins, StopJoins, Exit, HelperReplaces]
    ensures var t := Steps(s, actions); !t.apply && !t.ready && t.helper == Gone(true)
  {
    var s1 := Step(s, actions[0]);
    var s2 := Step(s1, actions[1]);
    var s3 := Step(s2, actions[2]);
    var s4 := Step(s3, actions[3]);
    Unfold(s, actions);
    Unfold(s1, actions[1..]);
    Unfold(s2, actions[2..]);
    Unfold(s3, actions[3..]);
    Unfold(s4, actions[4..]);
  }

  lemma Unfold(s: State, actions: seq<Action>)
    requires actions != []
    ensures Steps(s, actions) == Steps(Step(s, actions[0]), actions[1..])
    ensures |actions| == 1 ==> Steps(s, actions) == Step(s, actions[0])
  {
  }
}
