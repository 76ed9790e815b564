/** One helper left alone, with the user confirming and the parent exiting
    (app/appimage_update.cpp:141-320). */
module UpdateAttempt {
  import opened Options
  import opened Update

  /** Its steps up to its lock, up to the offer, up to the last check, and to the end. */
  function Locking(p: Pid, current: string): seq<Action> {
    [Start(p, current)] + ([Stat(p)] + ([Open(p)] + [Lock(p)]))
  }

  function Offering(p: Pid, image: Image): seq<Action> {
    [Seed(p, true)] + ([Download(p, image)] + ([Flush(p, true)] + [Command(p)]))
  }

  function Rechecking(p: Pid): seq<Action> {
    [ParentExit(p)] + ([Look(p)] + ([Verify(p)] + [Date(p)]))
  }

  function Replacing(p: Pid): seq<Action> {
    [Link(p)] + ([Sync(p)] + ([Rename(p)] + [Sync(p)]))
  }

  function Attempt(w: World, s: State, p: Pid, image: Image): State
    requires Places(s)
  {
    var current := w.version(s.inodes[s.live.installed].image);
    Run(w, Run(w, Run(w, Run(w, s, Locking(p, current)), Offering(p, image)), Rechecking(p)), Replacing(p))
  }

  /** The candidate follows the installed image, and both carry a release version. */
  predicate Replaces(w: World, s: State, image: Image)
    requires Places(s)
  {
    var was := s.inodes[s.live.installed].image;
    HasVersion(w, was) && HasVersion(w, image) && Follows(w, was, image)
  }

  lemma PutTwice(s: State, p: Pid, g: Helper, h: Helper)
    ensures Put(Put(s, p, g), p, h) == Put(s, p, h)
  {
  }

  lemma PutDead(s: State, p: Pid, h: Helper)
    requires s.helpers == map[]
    ensures Dead(Put(s, p, h), p) == s
  {
  }

  lemma RunOn(w: World, s: State, a: Action, rest: seq<Action>)
    requires Places(s)
    ensures Run(w, s, [a] + rest) == Run(w, Step(w, s, a), rest)
  {
    assert ([a] + rest)[1..] == rest;
  }

  lemma RunLast(w: World, s: State, a: Action)
    requires Places(s)
    ensures Run(w, s, [a]) == Step(w, s, a)
  {
    assert [a][1..] == [];
    assert Run(w, Step(w, s, a), []) == Step(w, s, a);
  }

  /** What a helper does depends on the files alone. */
  lemma SameOwnStep(w: World, s: State, t: State, h: Helper, a: Action)
    requires Places(s) && Places(t) && SameFiles(s, t) && h.lock < |s.inodes| && Own(a)
    ensures OwnStep(w, s, h, a) == OwnStep(w, t, h, a)
  {
  }

  lemma LoneStep(w: World, s: State, p: Pid, h: Helper, a: Action)
    requires Places(s) && s.helpers == map[] && h.lock < |s.inodes| && Own(a) && a.p == p
    ensures
      Step(w, Put(s, p, h), a) ==
      match OwnStep(w, s, h, a)
      case Some(g) => Put(s, p, g)
      case None => s
  {
    hide OwnStep, LockStep, LinkStep, SyncStep, RenameStep, Restarted;
    SameOwnStep(w, s, Put(s, p, h), h, a);
    match OwnStep(w, s, h, a)
    case Some(g) => PutTwice(s, p, h, g);
    case None => PutDead(s, p, h);
  }

  /** One step of the lone helper p; with nothing behind it, that is where the run ends. */
  lemma OwnRun(w: World, s: State, p: Pid, h: Helper, a: Action, rest: seq<Action>)
    requires Places(s) && s.helpers == map[] && h.lock < |s.inodes| && Own(a) && a.p == p
    ensures
      match OwnStep(w, s, h, a)
      case Some(g) => Run(w, Put(s, p, h), [a] + rest) == Run(w, Put(s, p, g), rest)
                      && Run(w, Put(s, p, h), [a]) == Put(s, p, g)
      case None => Run(w, Put(s, p, h), [a] + rest) == Run(w, s, rest) && Run(w, Put(s, p, h), [a]) == s
  {
    hide Run, OwnStep, Step;
    RunOn(w, Put(s, p, h), a, rest);
    RunLast(w, Put(s, p, h), a);
    LoneStep(w, s, p, h, a);
  }

  /** A process that has exited does nothing. */
  lemma {:induction false} ExitedRun(w: World, s: State, p: Pid, actions: seq<Action>)
    requires Places(s) && p !in s.helpers
    requires forall i :: 0 <= i < |actions| ==> !actions[i].Start? && !actions[i].PowerLoss? && actions[i].p == p
    ensures Run(w, s, actions) == s
    decreases |actions|
  {
    if actions == [] {
    } else {
      ExitedRun(w, s, p, actions[1..]);
    }
  }

  lemma LockingRun(w: World, s: State, p: Pid, current: string)
    requires Places(s) && s.helpers == map[]
    ensures
      var at := s.live.installed;
      Run(w, s, Locking(p, current)) == Put(s, p, Fresh(Locked, current, at, at))
  {
    hide Run;
    var at := s.live.installed;
    RunOn(w, s, Start(p, current), [Stat(p)] + ([Open(p)] + [Lock(p)]));
    OwnRun(w, s, p, Fresh(Started, current, 0, 0), Stat(p), [Open(p)] + [Lock(p)]);
    OwnRun(w, s, p, Fresh(Stated, current, at, 0), Open(p), [Lock(p)]);
    RunLast(w, Put(s, p, Fresh(Opened, current, at, at)), Lock(p));
    PutTwice(s, p, Fresh(Opened, current, at, at), Fresh(Locked, current, at, at));
  }

  /** A seed whose version is not the running one ends the helper. */
  lemma RefusedSeed(w: World, s: State, p: Pid, h: Helper, image: Image)
    requires Places(s) && s.helpers == map[] && h.phase == Locked && h.lock < |s.inodes|
    requires var seed := s.inodes[h.lock].image; !(HasVersion(w, seed) && w.version(seed) == h.current)
    ensures Run(w, Put(s, p, h), Offering(p, image)) == s
  {
    var rest := [Download(p, image)] + ([Flush(p, true)] + [Command(p)]);
    OwnRun(w, s, p, h, Seed(p, true), rest);
    ExitedRun(w, s, p, rest);
  }

  function SeededFrom(s: State, h: Helper): Helper
    requires h.lock < |s.inodes|
  {
    h.(phase := Seeded, from := h.lock, seed := s.inodes[h.lock].image)
  }

  lemma SeededRun(w: World, s: State, p: Pid, h: Helper, image: Image)
    requires Places(s) && s.helpers == map[] && h.phase == Locked && h.lock < |s.inodes|
    requires var seed := s.inodes[h.lock].image; HasVersion(w, seed) && w.version(seed) == h.current
    ensures Run(w, Put(s, p, h), Offering(p, image))
         == Run(w, Put(s, p, SeededFrom(s, h)), [Download(p, image)] + ([Flush(p, true)] + [Command(p)]))
  {
    hide Run;
    OwnRun(w, s, p, h, Seed(p, true), [Download(p, image)] + ([Flush(p, true)] + [Command(p)]));
  }

  /** A candidate that fails a check is not announced, and confirming then ends the helper. */
  lemma RefusedOffer(w: World, s: State, p: Pid, h: Helper, image: Image)
    requires Places(s) && s.helpers == map[] && h.phase == Seeded && h.lock < |s.inodes| && !Acceptable(w, h, image)
    ensures Run(w, Put(s, p, h), [Download(p, image)] + ([Flush(p, true)] + [Command(p)])) == s
  {
    hide Run;
    OwnRun(w, s, p, h, Download(p, image), [Flush(p, true)] + [Command(p)]);
    OwnRun(w, s, p, h, Flush(p, true), [Command(p)]);
    OwnRun(w, s, p, h, Command(p), []);
  }

  function Announced(w: World, h: Helper, image: Image): Helper {
    h.(phase := Waiting, candidate := image, version := w.version(image), synced := true)
  }

  lemma AcceptedOffer(w: World, s: State, p: Pid, h: Helper, image: Image)
    requires Places(s) && s.helpers == map[] && h.phase == Seeded && h.lock < |s.inodes| && h.parentAlive
    requires Acceptable(w, h, image) && h.original == s.live.installed
    ensures Run(w, Put(s, p, h), [Download(p, image)] + ([Flush(p, true)] + [Command(p)]))
         == Put(s, p, Announced(w, h, image))
  {
    hide Run, Acceptable;
    var g := h.(phase := Downloaded, candidate := image, version := w.version(image), synced := false);
    OwnRun(w, s, p, h, Download(p, image), [Flush(p, true)] + [Command(p)]);
    OwnRun(w, s, p, g, Flush(p, true), [Command(p)]);
    OwnRun(w, s, p, g.(phase := Offered, synced := true), Command(p), []);
  }

  lemma LookingRun(w: World, s: State, p: Pid, h: Helper, rest: seq<Action>)
    requires Places(s) && s.helpers == map[] && h.phase == Waiting && h.lock < |s.inodes|
    requires h.original == s.live.installed
    ensures Run(w, Put(s, p, h), [ParentExit(p)] + ([Look(p)] + rest))
         == Run(w, Put(s, p, h.(phase := Looked, parentAlive := false)), rest)
  {
    hide Run, Put;
    var g := h.(parentAlive := false);
    OwnRun(w, s, p, h, ParentExit(p), [Look(p)] + rest);
    OwnRun(w, s, p, g, Look(p), rest);
  }

  lemma RecheckingRun(w: World, s: State, p: Pid, h: Helper)
    requires Places(s) && s.helpers == map[] && h.phase == Waiting && h.lock < |s.inodes|
    requires Acceptable(w, h, h.candidate) && h.original == s.live.installed && h.version == w.version(h.candidate)
    ensures Run(w, Put(s, p, h), Rechecking(p))
         == Put(s, p, h.(phase := Checked, parentAlive := false, touched := false))
  {
    hide Run, Put;
    var g := h.(phase := Looked, parentAlive := false);
    LookingRun(w, s, p, h, [Verify(p)] + [Date(p)]);
    OwnRun(w, s, p, g, Verify(p), [Date(p)]);
    OwnRun(w, s, p, g.(phase := Verified, touched := false), Date(p), []);
  }

  lemma LinkRun(w: World, s: State, p: Pid, h: Helper, rest: seq<Action>)
    requires Places(s) && s.helpers == map[] && h.phase == Checked && h.lock < |s.inodes| && p !in s.live.rollbacks
    ensures
      var kept := s.live.(rollbacks := s.live.rollbacks[p := s.live.installed]);
      Run(w, Put(s, p, h), [Link(p)] + ([Sync(p)] + rest))
      == Run(w, Put(s.(live := kept, disk := kept), p, h.(phase := Preserved)), rest)
  {
    hide Run;
    var t := s.(live := s.live.(rollbacks := s.live.rollbacks[p := s.live.installed]));
    var g := h.(phase := Linked);
    RunOn(w, Put(s, p, h), Link(p), [Sync(p)] + rest);
    PutTwice(t, p, h, g);
    assert Step(w, Put(s, p, h), Link(p)) == Put(t, p, g);
    RunOn(w, Put(t, p, g), Sync(p), rest);
    PutTwice(t.(disk := t.live), p, g, g.(phase := Preserved));
  }

  /** The files behind the rename of helper h and its second fsync. */
  function Replaced(s: State, h: Helper): State {
    var directory := s.live.(installed := |s.inodes|);
    State(s.inodes + [Inode(h.candidate, s.live.installed, h.touched, h.synced, false)], directory, directory, map[])
  }

  lemma RenameRun(w: World, s: State, p: Pid, h: Helper)
    requires Places(s) && s.helpers == map[] && h.phase == Preserved && h.lock < |s.inodes|
    ensures Run(w, Put(s, p, h), [Rename(p)] + [Sync(p)]) == Replaced(s, h)
  {
    var t := Replaced(s, h).(disk := s.disk);
    var g := h.(phase := Renamed);
    RunOn(w, Put(s, p, h), Rename(p), [Sync(p)]);
    PutTwice(t, p, h, g);
    assert Step(w, Put(s, p, h), Rename(p)) == Put(t, p, g);
    RunLast(w, Put(t, p, g), Sync(p));
    PutDead(t.(disk := t.live), p, g);
  }

  /** The files with the rollback link of process p made and flushed. */
  function Preserving(s: State, p: Pid): State {
    var kept := s.live.(rollbacks := s.live.rollbacks[p := s.live.installed]);
    s.(live := kept, disk := kept)
  }

  lemma ReplacingRun(w: World, s: State, p: Pid, h: Helper)
    requires Places(s) && s.helpers == map[] && h.phase == Checked && h.lock < |s.inodes| && p !in s.live.rollbacks
    ensures Run(w, Put(s, p, h), Replacing(p)) == Replaced(Preserving(s, p), h)
  {
    hide Run;
    LinkRun(w, s, p, h, [Rename(p)] + [Sync(p)]);
    RenameRun(w, Preserving(s, p), p, h.(phase := Preserved));
  }

  lemma RefusedRun(w: World, s: State, p: Pid, h: Helper, image: Image)
    requires Places(s) && s.helpers == map[] && h.phase == Locked && h.lock == s.live.installed
    requires h.current == w.version(s.inodes[h.lock].image) && !Replaces(w, s, image)
    ensures Run(w, Put(s, p, h), Offering(p, image)) == s
  {
    hide Run;
    if HasVersion(w, s.inodes[h.lock].image) {
      SeededRun(w, s, p, h, image);
      RefusedOffer(w, s, p, SeededFrom(s, h), image);
    } else {
      RefusedSeed(w, s, p, h, image);
    }
  }

  lemma AcceptedRun(w: World, s: State, p: Pid, h: Helper, image: Image)
    requires Places(s) && s.helpers == map[] && h.phase == Locked && h.parentAlive
    requires h.lock == h.original == s.live.installed
    requires h.current == w.version(s.inodes[h.lock].image) && Replaces(w, s, image)
    ensures
      var g := Announced(w, SeededFrom(s, h), image);
      Run(w, Run(w, Put(s, p, h), Offering(p, image)), Rechecking(p))
      == Put(s, p, g.(phase := Checked, parentAlive := false, touched := false))
  {
    hide Run;
    SeededRun(w, s, p, h, image);
    AcceptedOffer(w, s, p, SeededFrom(s, h), image);
    RecheckingRun(w, s, p, Announced(w, SeededFrom(s, h), image));
  }

  /** Left alone, an update replaces the image exactly when the candidate follows it, durably. */
  lemma UpdateSucceedsIff(w: World, s: State, p: Pid, image: Image)
    requires Places(s) && s.helpers == map[] && p !in s.live.rollbacks
    ensures
      var directory := Directory(|s.inodes|, s.live.rollbacks[p := s.live.installed]);
      Attempt(w, s, p, image)
      == if Replaces(w, s, image)
         then State(s.inodes + [Inode(image, s.live.installed, false, true, false)], directory, directory, map[])
         else s
  {
    hide Run, Replaces;
    var at := s.live.installed;
    var h := Fresh(Locked, w.version(s.inodes[at].image), at, at);
    LockingRun(w, s, p, h.current);
    if Replaces(w, s, image) {
      AcceptedRun(w, s, p, h, image);
      var g := Announced(w, SeededFrom(s, h), image);
      ReplacingRun(w, s, p, g.(phase := Checked, parentAlive := false, touched := false));
    } else {
      RefusedRun(w, s, p, h, image);
      ExitedRun(w, s, p, Rechecking(p));
      ExitedRun(w, s, p, Replacing(p));
    }
  }

  lemma RestagedRun(w: World, s: State, p: Pid, h: Helper, other: Image)
    requires Places(s) && s.helpers == map[] && h.phase == Checked && h.lock < |s.inodes| && p !in s.live.rollbacks
    ensures
      var t := Run(w, Put(s, p, h), [Restage(p, other)] + Replacing(p));
      && t.live.installed == t.disk.installed == |s.inodes| < |t.inodes|
      && t.inodes[|s.inodes|].image == other
  {
    hide Run, Put;
    var g := h.(candidate := other, synced := false, touched := true);
    OwnRun(w, s, p, h, Restage(p, other), Replacing(p));
    ReplacingRun(w, s, p, g);
  }

  /** The same run with the staged file replaced behind the last check: whatever is put there is
      installed, though neither its signature nor its version was ever looked at. */
  lemma UncheckedIsInstalled(w: World, s: State, p: Pid, image: Image, other: Image)
    requires Places(s) && s.helpers == map[] && p !in s.live.rollbacks && Replaces(w, s, image)
    ensures
      var current := w.version(s.inodes[s.live.installed].image);
      var checked := Run(w, Run(w, Run(w, s, Locking(p, current)), Offering(p, image)), Rechecking(p));
      var t := Run(w, checked, [Restage(p, other)] + Replacing(p));
      && t.live.installed == t.disk.installed == |s.inodes| < |t.inodes|
      && t.inodes[|s.inodes|].image == other
  {
    hide Run, Put, Replaces;
    var at := s.live.installed;
    var h := Fresh(Locked, w.version(s.inodes[at].image), at, at);
    LockingRun(w, s, p, h.current);
    AcceptedRun(w, s, p, h, image);
    var g := Announced(w, SeededFrom(s, h), image).(phase := Checked, parentAlive := false, touched := false);
    RestagedRun(w, s, p, g, other);
  }
}
