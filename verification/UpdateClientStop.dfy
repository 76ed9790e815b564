/** That stopping the client ends: the interface thread never waits in vain for the worker
    (app/appimage_update_client.c:245-299, 355-365). */
module UpdateClientStop {
  import opened UpdateClient

  /** What stopping rests on: without a standing wish the worker was told and the socket shut down;
      with one, a helper that waits has sent an answer that the worker has not passed over. */
  predicate CanStop(s: State) {
    && (s.ui == Stopping && !s.apply ==> s.stop && s.hungUp)
    && (s.apply && s.helper.Waiting? && s.worker.Reading? ==> Ack in s.lines)
  }

  lemma HelperCanStop(s: State, a: Action)
    requires CanStop(s) && HelperAction(a)
    ensures CanStop(Step(s, a))
  {
    assert forall y: Line :: y in s.lines + [Ack] <==> y in s.lines || y == Ack;
    assert forall x: Line :: x != Ack ==> (Ack in s.lines + [x] <==> Ack in s.lines);
  }

  lemma WorkerCanStop(s: State)
    requires CanStop(s)
    ensures CanStop(WorkerTurn(s))
  {
    Cons(s.lines);
  }

  lemma InterfaceCanStop(s: State, a: Action)
    requires Inv(s) && OneOffer(s) && CanStop(s) && !HelperAction(a) && !a.WorkerReads?
    ensures CanStop(Step(s, a))
  {
  }

  lemma StepCanStop(s: State, a: Action)
    requires Inv(s) && OneOffer(s) && CanStop(s)
    ensures CanStop(Step(s, a))
  {
    hide Inv, OneOffer, CanStop;
    if HelperAction(a) {
      HelperCanStop(s, a);
    } else if a.WorkerReads? {
      WorkerCanStop(s);
    } else {
      InterfaceCanStop(s, a);
    }
  }

  lemma StepUnderWay(s: State, a: Action)
    requires UnderWay(s)
    ensures UnderWay(Step(s, a))
  {
    hide UnderWay;
    if HelperAction(a) {
      HelperUnderWay(s, a);
    } else if a.WorkerReads? {
      WorkerUnderWay(s);
    } else {
      InterfaceUnderWay(s, a);
    }
  }

  lemma {:induction false} RunCanStop(actions: seq<Action>)
    ensures var s := Run(INITIAL, actions); UnderWay(s) && CanStop(s)
    decreases |actions|
  {
    hide Step, Inv, UnderWay, OneOffer;
    if actions == [] {
      InitialState();
    } else {
      hide CanStop;
      var before, a := actions[..|actions| - 1], actions[|actions| - 1];
      var s := Run(INITIAL, before);
      RunCanStop(before);
      RunKeeps(before);
      RunHasOneOffer(before);
      StepUnderWay(s, a);
      StepCanStop(s, a);
    }
  }

  /** Without a standing wish the worker's very next turn kills the helper and ends. */
  lemma StopKillsAtOnce(actions: seq<Action>)
    requires Run(INITIAL, actions).ui == Stopping && !Run(INITIAL, actions).apply
    ensures
      var s := Run(INITIAL, actions);
      var t := Step(s, WorkerReads);
      s.worker.Reading? ==> t.worker.Ended? && t.helper.Gone? && Step(t, StopJoins).ui == Stopped
  {
    RunCanStop(actions);
  }

  // ----- with a standing wish -----

  function Left(s: State): nat {
    2 * |s.commands| + |s.lines|
  }

  /** While the worker is waited for, it or the helper has something to do that brings the end nearer. */
  lemma NeverStuck(s: State)
    requires UnderWay(s) && CanStop(s) && s.ui == Stopping && s.worker.Reading?
    ensures
      exists a :: (a == WorkerReads || a == HelperReads)
                  && var t := Step(s, a); t.ui == Stopping && (!t.worker.Reading? || Left(t) < Left(s))
  {
    var t := Step(s, WorkerReads);
    if t.worker.Reading? && Left(t) >= Left(s) {
      assert s.lines == [];
      var u := Step(s, HelperReads);
      assert u.ui == Stopping && Left(u) < Left(s);
    }
  }

  /** Whenever the app has begun to stop its client, turns of the helper and the worker alone bring the
      worker to its end, and the app goes on. */
  lemma {:induction false} StopEnds(actions: seq<Action>) returns (more: seq<Action>)
    requires Run(INITIAL, actions).ui == Stopping
    ensures forall i :: 0 <= i < |more| ==> more[i] == WorkerReads || more[i] == HelperReads
    ensures Step(Run(INITIAL, actions + more), StopJoins).ui == Stopped
    decreases Run(INITIAL, actions).worker.Reading?, Left(Run(INITIAL, actions))
  {
    hide UnderWay, CanStop, HelperTurn, WorkerTurn;
    var s := Run(INITIAL, actions);
    if !s.worker.Reading? {
      more := [];
      assert actions + [] == actions;
    } else {
      RunCanStop(actions);
      NeverStuck(s);
      var a :| (a == WorkerReads || a == HelperReads)
               && var t := Step(s, a); t.ui == Stopping && (!t.worker.Reading? || Left(t) < Left(s));
      var on := actions + [a];
      assert on[..|on| - 1] == actions;
      more := StopEnds(on);
      assert on + more == actions + ([a] + more);
      more := [a] + more;
    }
  }
}
