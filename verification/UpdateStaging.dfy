/** Staged files that change while an update is under way: what is installed then, and when a power
    loss can ruin it (app/appimage_update.cpp:249-320). */
module UpdateStaging {
  import opened Options
  import opened Update
  import Version

  predicate Restages(p: Pid, a: Action) {
    a.Restage? && a.p == p
  }

  /** The helper is behind its signature check and before its rename. */
  predicate Between(h: Helper) {
    Rank(Verified) <= Rank(h.phase) <= Rank(Preserved)
  }

  predicate InWindow(s: State, p: Pid) {
    p in s.helpers && Between(s.helpers[p])
  }

  lemma OwnOutside(w: World, s: State, h: Helper, a: Action)
    requires Places(s) && h.lock < |s.inodes| && Own(a) && !a.Verify? && !Between(h)
    ensures var g := OwnStep(w, s, h, a); g.Some? ==> !Between(g.value)
  {
  }

  lemma OwnInside(w: World, s: State, p: Pid, h: Helper, a: Action)
    requires Places(s) && h.lock < |s.inodes| && Own(a) && !a.Verify? && a.p == p && Between(h)
    ensures
      var g := OwnStep(w, s, h, a);
      g.Some? ==>
        && g.value.candidate == (if Restages(p, a) then a.image else h.candidate)
        && g.value.touched == (h.touched || Restages(p, a))
        && g.value.synced == (h.synced && !Restages(p, a))
  {
  }

  /** Apart from a power loss, a step changes no record but its own process's. */
  lemma ForeignRecord(w: World, s: State, a: Action, q: Pid)
    requires Places(s) && !a.PowerLoss? && a.p != q
    ensures
      var t := Step(w, s, a);
      (q in t.helpers <==> q in s.helpers) && (q in t.helpers ==> t.helpers[q] == s.helpers[q])
  {
    hide OwnStep, LockFree, Places;
  }

  /** The steps that take the lock or change the directory only move the phase on. */
  lemma DirectoryRecord(w: World, s: State, a: Action, p: Pid)
    requires Places(s) && p in s.helpers && !a.PowerLoss? && !a.Start? && a.p == p && !Own(a)
    ensures
      var h, t := s.helpers[p], Step(w, s, a);
      p in t.helpers ==>
        && t.helpers[p] == h.(phase := t.helpers[p].phase)
        && (|| t.helpers[p].phase == h.phase || (h.phase.Opened? && t.helpers[p].phase.Locked?)
            || (h.phase.Checked? && t.helpers[p].phase.Linked?) || (h.phase.Linked? && t.helpers[p].phase.Preserved?)
            || (h.phase.Preserved? && t.helpers[p].phase.Renamed?))
  {
    hide LockFree;
  }

  lemma OwnRecord(w: World, s: State, a: Action, p: Pid)
    requires Places(s) && p in s.helpers && Own(a) && a.p == p
    ensures
      var t := Step(w, s, a);
      match OwnStep(w, s, s.helpers[p], a)
      case Some(g) => p in t.helpers && t.helpers[p] == g
      case None => p !in t.helpers
  {
    hide OwnStep;
  }

  lemma OutsideStays(w: World, s: State, p: Pid, a: Action)
    requires Places(s) && !InWindow(s, p) && a != Verify(p)
    ensures !InWindow(Step(w, s, a), p)
  {
    hide OwnStep, HelperStep;
    if a.PowerLoss? || a.Start? {
    } else if a.p != p {
      ForeignRecord(w, s, a, p);
    } else if p in s.helpers && Own(a) {
      OwnRecord(w, s, a, p);
      OwnOutside(w, s, s.helpers[p], a);
    } else if p in s.helpers {
      DirectoryRecord(w, s, a, p);
    }
  }

  lemma InsideStep(w: World, s: State, p: Pid, a: Action)
    requires Places(s) && InWindow(s, p) && a != Verify(p) && InWindow(Step(w, s, a), p)
    ensures
      var g, h := s.helpers[p], Step(w, s, a).helpers[p];
      && h.candidate == (if Restages(p, a) then a.image else g.candidate)
      && h.touched == (g.touched || Restages(p, a))
      && h.synced == (g.synced && !Restages(p, a))
  {
    hide OwnStep, HelperStep, Between;
    if a.PowerLoss? || a.Start? {
    } else if a.p != p {
      ForeignRecord(w, s, a, p);
    } else if Own(a) {
      OwnRecord(w, s, a, p);
      OwnInside(w, s, p, s.helpers[p], a);
    } else {
      DirectoryRecord(w, s, a, p);
    }
  }

  lemma {:induction false} OutsideRun(w: World, s: State, p: Pid, during: seq<Action>)
    requires Places(s) && !InWindow(s, p)
    requires forall i :: 0 <= i < |during| ==> during[i] != Verify(p)
    ensures !InWindow(Run(w, s, during), p)
    decreases |during|
  {
    hide InWindow, Step;
    if during == [] {
    } else {
      OutsideStays(w, s, p, during[0]);
      OutsideRun(w, Step(w, s, during[0]), p, during[1..]);
    }
  }

  /** The contents of the staged file after the actions: those put there last. */
  function Staged(contents: Image, p: Pid, during: seq<Action>): Image
    decreases |during|
  {
    if during == [] then contents
    else Staged(if Restages(p, during[0]) then during[0].image else contents, p, during[1..])
  }

  predicate Undisturbed(p: Pid, during: seq<Action>) {
    forall i :: 0 <= i < |during| ==> !Restages(p, during[i])
  }

  lemma {:induction false} UndisturbedStaged(contents: Image, p: Pid, during: seq<Action>)
    requires Undisturbed(p, during)
    ensures Staged(contents, p, during) == contents
    decreases |during|
  {
    if during == [] {
    } else {
      assert !Restages(p, during[0]);
      UndisturbedStaged(contents, p, during[1..]);
    }
  }

  lemma {:induction false} InsideRun(w: World, s: State, p: Pid, during: seq<Action>)
    requires Places(s) && InWindow(s, p) && InWindow(Run(w, s, during), p)
    requires forall i :: 0 <= i < |during| ==> during[i] != Verify(p)
    ensures
      var g, h := s.helpers[p], Run(w, s, during).helpers[p];
      && h.candidate == Staged(g.candidate, p, during)
      && h.touched == (g.touched || !Undisturbed(p, during))
      && h.synced == (g.synced && Undisturbed(p, during))
    decreases |during|
  {
    hide Step, Restages;
    if during == [] {
    } else {
      var t := Step(w, s, during[0]);
      if InWindow(t, p) {
        InsideStep(w, s, p, during[0]);
        InsideRun(w, t, p, during[1..]);
        assert Undisturbed(p, during) <==> !Restages(p, during[0]) && Undisturbed(p, during[1..]) by {
          assert during == [during[0]] + during[1..];
        }
      } else {
        OutsideRun(w, t, p, during[1..]);
      }
    }
  }

  /** What is installed, when a helper renames at some time after its signature check: the contents
      put into the staged file last. So it is the image that was checked exactly when nothing else
      was put there in between; then it follows the image it replaces. */
  lemma InstalledIsStagedLast(w: World, s: State, p: Pid, during: seq<Action>)
    requires Inv(w, s) && p in s.helpers && s.helpers[p].phase == Verified && !s.helpers[p].touched
    requires forall i :: 0 <= i < |during| ==> during[i] != Verify(p)
    requires var t := Run(w, s, during); p in t.helpers && t.helpers[p].phase == Preserved
    ensures
      var checked := s.helpers[p].candidate;
      var was := Run(w, s, during).live.installed;
      var t := Step(w, Run(w, s, during), Rename(p));
      var now := t.live.installed;
      && t.inodes[now].parent == was
      && t.inodes[now].image == Staged(checked, p, during)
      && (t.inodes[now].touched <==> !Undisturbed(p, during))
      && (t.inodes[now].whole <==> s.helpers[p].synced && Undisturbed(p, during))
      && (Undisturbed(p, during) ==> t.inodes[now].image == checked && Follows(w, t.inodes[was].image, checked))
  {
    hide Lineage, Helpers, Step, Run, Undisturbed, Staged, Follows;
    var t := Run(w, s, during);
    InsideRun(w, s, p, during);
    RunKeeps(w, s, during);
    RenamedState(w, t, p);
    if Undisturbed(p, during) {
      UndisturbedStaged(s.helpers[p].candidate, p, during);
      RenameIsGuarded(w, t, p);
    }
  }

  /** The staged file of a helper changes behind its signature check, or behind its flush. */
  predicate LateForCheck(s: State, a: Action) {
    a.Restage? && InWindow(s, a.p)
  }

  predicate LateForFlush(s: State, a: Action) {
    a.Restage? && a.p in s.helpers && Rank(Offered) <= Rank(s.helpers[a.p].phase) <= Rank(Preserved)
  }

  /** Nothing was touched after its check. */
  predicate Untouched(s: State) {
    && (forall k :: 0 <= k < |s.inodes| ==> !s.inodes[k].touched)
    && forall p :: p in s.helpers && Rank(s.helpers[p].phase) >= Rank(Verified) ==> !s.helpers[p].touched
  }

  /** Every file that was installed was flushed before, and so is every announced candidate. */
  predicate Flushed(s: State) {
    && (forall k :: 0 <= k < |s.inodes| ==> s.inodes[k].whole && !s.inodes[k].ruined)
    && forall p :: p in s.helpers && Rank(s.helpers[p].phase) >= Rank(Offered) ==> s.helpers[p].synced
  }

  ghost predicate NoneLateForCheck(w: World, s: State, actions: seq<Action>)
    requires Places(s)
    decreases |actions|
  {
    actions != [] ==> !LateForCheck(s, actions[0]) && NoneLateForCheck(w, Step(w, s, actions[0]), actions[1..])
  }

  ghost predicate NoneLateForFlush(w: World, s: State, actions: seq<Action>)
    requires Places(s)
    decreases |actions|
  {
    actions != [] ==> !LateForFlush(s, actions[0]) && NoneLateForFlush(w, Step(w, s, actions[0]), actions[1..])
  }

  lemma OwnUntouched(w: World, s: State, h: Helper, a: Action)
    requires Places(s) && h.lock < |s.inodes| && Own(a)
    requires Rank(h.phase) >= Rank(Verified) ==> !h.touched
    requires a.Restage? ==> !(Rank(Verified) <= Rank(h.phase) <= Rank(Preserved))
    ensures
      var g := OwnStep(w, s, h, a);
      g.Some? && Rank(g.value.phase) >= Rank(Verified) ==> !g.value.touched
  {
  }

  lemma OwnFlushed(w: World, s: State, h: Helper, a: Action)
    requires Places(s) && h.lock < |s.inodes| && Own(a)
    requires Rank(h.phase) >= Rank(Offered) ==> h.synced
    requires a.Restage? ==> !(Rank(Offered) <= Rank(h.phase) <= Rank(Preserved))
    ensures
      var g := OwnStep(w, s, h, a);
      g.Some? && Rank(g.value.phase) >= Rank(Offered) ==> g.value.synced
  {
  }

  /** The files behind any step: those before it, perhaps the helper's staged file, perhaps damage. */
  lemma StepFiles(w: World, s: State, a: Action)
    requires Places(s)
    ensures
      var t := Step(w, s, a);
      || t.inodes == s.inodes
      || (&& a.Rename? && a.p in s.helpers && s.helpers[a.p].phase == Preserved
          && var h := s.helpers[a.p];
             t.inodes == s.inodes + [Inode(h.candidate, s.live.installed, h.touched, h.synced, false)])
      || (&& a.PowerLoss? && |t.inodes| == |s.inodes|
          && forall k :: 0 <= k < |s.inodes| ==> t.inodes[k] == Damaged(s.inodes[k], k, a.garbage))
  {
    hide OwnStep, LockFree;
  }

  lemma UntouchedStep(w: World, s: State, a: Action)
    requires Places(s) && Untouched(s) && !LateForCheck(s, a)
    ensures Untouched(Step(w, s, a))
  {
    hide OwnStep, HelperStep, Restarted;
    var t := Step(w, s, a);
    StepFiles(w, s, a);
    forall q | q in t.helpers && Rank(t.helpers[q].phase) >= Rank(Verified)
      ensures !t.helpers[q].touched
    {
      if a.PowerLoss? {
        NoHelpers(w, s, a);
      } else if a.p != q {
        ForeignRecord(w, s, a, q);
      } else if a.Start? {
      } else if Own(a) {
        OwnRecord(w, s, a, q);
        OwnUntouched(w, s, s.helpers[q], a);
      } else {
        DirectoryRecord(w, s, a, q);
      }
    }
  }

  lemma NoHelpers(w: World, s: State, a: Action)
    requires Places(s) && a.PowerLoss?
    ensures Step(w, s, a).helpers == map[]
  {
  }

  lemma FlushedStep(w: World, s: State, a: Action)
    requires Places(s) && Flushed(s) && !LateForFlush(s, a)
    ensures Flushed(Step(w, s, a))
  {
    hide OwnStep, HelperStep, Restarted;
    var t := Step(w, s, a);
    StepFiles(w, s, a);
    forall q | q in t.helpers && Rank(t.helpers[q].phase) >= Rank(Offered)
      ensures t.helpers[q].synced
    {
      if a.PowerLoss? {
        NoHelpers(w, s, a);
      } else if a.p != q {
        ForeignRecord(w, s, a, q);
      } else if a.Start? {
      } else if Own(a) {
        OwnRecord(w, s, a, q);
        OwnFlushed(w, s, s.helpers[q], a);
      } else {
        DirectoryRecord(w, s, a, q);
      }
    }
  }

  lemma {:induction false} UntouchedRun(w: World, s: State, actions: seq<Action>)
    requires Places(s) && Untouched(s) && NoneLateForCheck(w, s, actions)
    ensures Untouched(Run(w, s, actions))
    decreases |actions|
  {
    hide Step, Untouched;
    if actions == [] {
    } else {
      UntouchedStep(w, s, actions[0]);
      UntouchedRun(w, Step(w, s, actions[0]), actions[1..]);
    }
  }

  lemma {:induction false} FlushedRun(w: World, s: State, actions: seq<Action>)
    requires Places(s) && Flushed(s) && NoneLateForFlush(w, s, actions)
    ensures Flushed(Run(w, s, actions))
    decreases |actions|
  {
    hide Step, Flushed;
    if actions == [] {
    } else {
      FlushedStep(w, s, actions[0]);
      FlushedRun(w, Step(w, s, actions[0]), actions[1..]);
    }
  }

  lemma {:induction false} FlushIsEarlier(w: World, s: State, actions: seq<Action>)
    requires Places(s) && NoneLateForFlush(w, s, actions)
    ensures NoneLateForCheck(w, s, actions)
    decreases |actions|
  {
    hide Step;
    if actions != [] {
      FlushIsEarlier(w, Step(w, s, actions[0]), actions[1..]);
    }
  }

  /** When no staged file changes behind its flush, no power loss at any time ruins a file that the
      path names, live or durably, or that a rollback link keeps: everything was flushed first. */
  lemma InstalledIsWhole(w: World, image: Image, actions: seq<Action>)
    requires NoneLateForFlush(w, Init(image), actions)
    ensures
      var s := Run(w, Init(image), actions);
      forall k :: 0 <= k < |s.inodes| ==> !s.inodes[k].ruined
  {
    FlushedRun(w, Init(image), actions);
  }

  lemma {:induction false} AllClean(w: World, s: State, a: nat, k: nat)
    requires Inv(w, s) && Untouched(s) && Flushed(s) && k < |s.inodes| && Ancestor(s.inodes, a, k)
    ensures Clean(s.inodes, a, k)
    decreases k
  {
    if a != k {
      AllClean(w, s, a, s.inodes[k].parent);
    }
  }

  /** Then everything before the installed image is older and durably linked, without exception,
      and the image carries its predecessor's signature. */
  lemma UndisturbedUpdates(w: World, image: Image, actions: seq<Action>)
    requires ReleasePolicy(w) && NoneLateForFlush(w, Init(image), actions)
    ensures
      var s := Run(w, Init(image), actions);
      forall k, a :: (k == s.live.installed || k == s.disk.installed) && 0 <= a < |s.inodes| && a != k
                     && Ancestor(s.inodes, a, k) ==>
        && Version.Newer(w.version(s.inodes[a].image), w.version(s.inodes[k].image)) && Kept(s.disk, a)
        && s.inodes[k].parent < k && Follows(w, s.inodes[s.inodes[k].parent].image, s.inodes[k].image)
  {
    hide Inv, ReleasePolicy, NoneLateForFlush, NoneLateForCheck;
    var s := Run(w, Init(image), actions);
    InitHolds(w, image);
    RunKeeps(w, Init(image), actions);
    FlushedRun(w, Init(image), actions);
    FlushIsEarlier(w, Init(image), actions);
    UntouchedRun(w, Init(image), actions);
    forall k, a | (k == s.live.installed || k == s.disk.installed) && 0 <= a < |s.inodes| && a != k
                  && Ancestor(s.inodes, a, k)
      ensures Version.Newer(w.version(s.inodes[a].image), w.version(s.inodes[k].image)) && Kept(s.disk, a)
      ensures s.inodes[k].parent < k && Follows(w, s.inodes[s.inodes[k].parent].image, s.inodes[k].image)
    {
      AllClean(w, s, a, k);
      InstalledIsSafe(w, s, k);
      AncestorBelow(s.inodes, a, k);
    }
  }
}
