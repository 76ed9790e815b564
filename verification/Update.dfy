/** The AppImage updater: any number of helper processes over one installed path, each of which may
    die between any two system calls, staged files that change at any time, and power losses that
    forget unsynced directory changes and ruin unsynced contents (app/appimage_update.cpp:141-338).
    Contents of images, signatures and the desktop metadata of an image are abstract. */
module Update {
  import opened Options
  import Version

  type Image = nat
  type Pid = nat

  /** What the libraries say about images: validateSignature against the seed, and image_version;
      then the version policy, which is wn_appimage_version and wn_appimage_newer. */
  datatype World = World(passes: (Image, Image) -> bool, version: Image -> string,
                         release: string -> bool, newer: (string, string) -> bool)

  ghost predicate ReleasePolicy(w: World) {
    && (forall v :: w.release(v) == (|v| < 128 && Version.Parse(v).Some?))
    && (forall v, u :: w.newer(v, u) == Version.Newer(v, u))
  }

  /** A file that the installed path has named. Inode 0 is the image the user installed; the
      parent of a later one is the inode it replaced. touched: its contents changed after their
      signature was checked; whole: they were flushed before it was installed; ruined: a power
      loss found them unflushed. */
  datatype Inode = Inode(image: Image, parent: nat, touched: bool, whole: bool, ruined: bool)

  /** The image directory: the installed path and the rollback links, by process id. */
  datatype Directory = Directory(installed: nat, rollbacks: map<Pid, nat>)

  datatype Phase =
    | Started | Stated | Opened | Locked | Seeded | Downloaded | Offered | Waiting
    | Looked | Verified | Checked | Linked | Preserved | Renamed

  function Rank(p: Phase): nat {
    match p
    case Started => 0
    case Stated => 1
    case Opened => 2
    case Locked => 3
    case Seeded => 4
    case Downloaded => 5
    case Offered => 6
    case Waiting => 7
    case Looked => 8
    case Verified => 9
    case Checked => 10
    case Linked => 11
    case Preserved => 12
    case Renamed => 13
  }

  /** The variables of one helper: the running version it was given, the inode lstat saw, the inode
      its flock is on, the inode the seed was copied from; the contents of its staged file, whether
      they are flushed, and whether they changed since their signature was last checked. */
  datatype Helper = Helper(phase: Phase, current: string, original: nat, lock: nat, from: nat, seed: Image,
                           candidate: Image, version: string, synced: bool, touched: bool, parentAlive: bool)

  /** live is the directory every process sees, disk what a power loss is sure to leave. */
  datatype State = State(inodes: seq<Inode>, live: Directory, disk: Directory, helpers: map<Pid, Helper>)

  datatype Action =
    | Start(p: Pid, current: string)
    | Stat(p: Pid)
    | Open(p: Pid)
    | Lock(p: Pid)
    | Seed(p: Pid, cloned: bool)
    | Download(p: Pid, image: Image)
    | Flush(p: Pid, done: bool)
    | Restage(p: Pid, image: Image)
    | Command(p: Pid)
    | ParentExit(p: Pid)
    | Look(p: Pid)
    | Verify(p: Pid)
    | Date(p: Pid)
    | Link(p: Pid)
    | Sync(p: Pid)
    | Rename(p: Pid)
    | Die(p: Pid)
    | PowerLoss(replaced: bool, kept: set<Pid>, garbage: map<nat, Image>)

  /** A helper whose require fails throws out of its loop and exits. */
  function Dead(s: State, p: Pid): State {
    s.(helpers := s.helpers - {p})
  }

  function Put(s: State, p: Pid, h: Helper): State {
    s.(helpers := s.helpers[p := h])
  }

  /** image_version: the metadata text, when it is a release version. */
  predicate HasVersion(w: World, image: Image) {
    w.release(w.version(image))
  }

  /** The candidate is signed by the key of the seed and strictly newer than the running version. */
  predicate Acceptable(w: World, h: Helper, image: Image) {
    w.passes(h.seed, image) && HasVersion(w, image) && w.newer(h.current, w.version(image))
  }

  /** In full: signed, with a text that image_version takes, and newer by the order on versions. */
  lemma AcceptableIff(w: World, h: Helper, image: Image)
    requires ReleasePolicy(w)
    ensures Acceptable(w, h, image) <==>
            w.passes(h.seed, image) && |w.version(image)| < 128 && Version.Newer(h.current, w.version(image))
  {
    Version.NewerByFirstDifference(h.current, w.version(image));
  }

  /** flock without waiting: no other process holds a lock on the same inode. */
  predicate LockFree(s: State, p: Pid, inode: nat) {
    forall q :: q in s.helpers && q != p && Rank(s.helpers[q].phase) >= Rank(Locked) ==> s.helpers[q].lock != inode
  }

  /** One step of one process, or a power loss. An action that a process is not ready for does nothing. */
  function Step(w: World, s: State, a: Action): (t: State)
    requires Places(s)
    ensures Places(t) && |s.inodes| <= |t.inodes|
  {
    if a.PowerLoss? then Restarted(s, a.replaced, a.kept, a.garbage)
    else if a.Start? then (if a.p in s.helpers then s else Put(s, a.p, Fresh(Started, a.current, 0, 0)))
    else if a.p in s.helpers then HelperStep(w, s, a, a.p, s.helpers[a.p])
    else s
  }

  /** A helper that has not read the installed image yet. */
  function Fresh(phase: Phase, current: string, original: nat, lock: nat): Helper {
    Helper(phase, current, original, lock, 0, 0, 0, "", false, false, true)
  }

  /** Every inode number in the state names an inode. */
  predicate Places(s: State) {
    && s.live.installed < |s.inodes|
    && s.disk.installed < |s.inodes|
    && forall p :: p in s.helpers ==> s.helpers[p].lock < |s.inodes|
  }

  /** Contents that were not flushed may be anything after a power loss. */
  function Damaged(inode: Inode, k: nat, garbage: map<nat, Image>): Inode {
    if inode.whole || k !in garbage then inode else inode.(image := garbage[k], ruined := true)
  }

  /** Of the unsynced directory changes a power loss keeps some and forgets the others. */
  function Restarted(s: State, replaced: bool, kept: set<Pid>, garbage: map<nat, Image>): (t: State)
    requires Places(s)
    ensures Places(t) && |s.inodes| == |t.inodes|
  {
    var directory := Directory(
      if replaced then s.live.installed else s.disk.installed,
      map p | p in s.live.rollbacks && (p in s.disk.rollbacks || p in kept) :: s.live.rollbacks[p]);
    var inodes := seq(|s.inodes|, k requires 0 <= k < |s.inodes| => Damaged(s.inodes[k], k, garbage));
    State(inodes, directory, directory, map[])
  }

  function HelperStep(w: World, s: State, a: Action, p: Pid, h: Helper): (t: State)
    requires Places(s) && p in s.helpers && h == s.helpers[p]
    requires !a.Start? && !a.PowerLoss?
    ensures Places(t) && s.inodes <= t.inodes
  {
    if a.Lock? then LockStep(s, p, h)
    else if a.Link? then LinkStep(s, p, h)
    else if a.Sync? then SyncStep(s, p, h)
    else if a.Rename? then RenameStep(s, p, h)
    else
      match OwnStep(w, s, h, a)
      case Some(g) => Put(s, p, g)
      case None => Dead(s, p)
  }

  /** A step that moves one helper along, or ends it, and leaves the files alone. */
  predicate Own(a: Action) {
    Looking(a) || Moving(a) || Checking(a)
  }

  predicate Looking(a: Action) {
    a.Stat? || a.Open? || a.Seed?
  }

  predicate Moving(a: Action) {
    a.Flush? || a.Restage? || a.Command? || a.ParentExit? || a.Die?
  }

  predicate Checking(a: Action) {
    a.Download? || a.Look? || a.Verify? || a.Date?
  }

  /** The new record of the helper; a lock is neither taken nor given up. */
  function OwnStep(w: World, s: State, h: Helper, a: Action): (g: Option<Helper>)
    requires Places(s) && h.lock < |s.inodes| && Own(a)
    ensures g.Some? ==> g.value.lock < |s.inodes|
    ensures g.Some? && Rank(g.value.phase) >= Rank(Locked) ==>
              Rank(h.phase) >= Rank(Locked) && g.value.lock == h.lock
  {
    match a
    case Stat(_) => StatStep(s, h)
    case Open(_) => OpenStep(s, h)
    case Seed(_, cloned) => SeedStep(w, s, h, if cloned then h.lock else s.live.installed)
    case Download(_, image) => DownloadStep(w, s, h, image)
    case Flush(_, done) => FlushStep(h, done)
    case Restage(_, image) => RestageStep(h, image)
    case Command(_) => CommandStep(h)
    case ParentExit(_) => Some(h.(parentAlive := false))
    case Look(_) => LookStep(s, h)
    case Verify(_) => VerifyStep(w, h)
    case Date(_) => DateStep(w, h)
    case Die(_) => None
  }

  function StatStep(s: State, h: Helper): Option<Helper> {
    if h.phase != Started then Some(h) else Some(h.(phase := Stated, original := s.live.installed))
  }

  function OpenStep(s: State, h: Helper): Option<Helper> {
    if h.phase != Stated then Some(h) else Some(h.(phase := Opened, lock := s.live.installed))
  }

  function LockStep(s: State, p: Pid, h: Helper): State {
    if h.phase != Opened then s
    else if !LockFree(s, p, h.lock) then Dead(s, p)
    else Put(s, p, h.(phase := Locked))
  }

  /** The private seed is a clone of the locked file, or failing that a copy by path. */
  function SeedStep(w: World, s: State, h: Helper, from: nat): Option<Helper>
    requires from < |s.inodes|
  {
    var seed := s.inodes[from].image;
    if h.phase != Locked then Some(h)
    else if HasVersion(w, seed) && w.version(seed) == h.current
    then Some(h.(phase := Seeded, from := from, seed := seed))
    else None
  }

  /** A finished download passes its checks, or the loop goes on. Its contents are not flushed yet. */
  function DownloadStep(w: World, s: State, h: Helper, image: Image): Option<Helper> {
    if h.phase == Seeded && Acceptable(w, h, image) && s.live.installed == h.original
    then Some(h.(phase := Downloaded, candidate := image, version := w.version(image), synced := false))
    else Some(h)
  }

  /** sync_file; only then is the update announced. A failure is caught, and the loop goes on. */
  function FlushStep(h: Helper, done: bool): Option<Helper> {
    if h.phase != Downloaded then Some(h)
    else if done then Some(h.(phase := Offered, synced := true))
    else Some(h.(phase := Seeded))
  }

  /** The staged file changes behind the helper's back, any time before it is renamed. */
  function RestageStep(h: Helper, image: Image): Option<Helper> {
    if Rank(Downloaded) <= Rank(h.phase) <= Rank(Preserved)
    then Some(h.(candidate := image, synced := false, touched := true))
    else Some(h)
  }

  /** A staged file can change whenever there is one: from the download to the rename. */
  lemma StagedMayChange(h: Helper, image: Image)
    ensures
      var staged := h.phase.Downloaded? || h.phase.Offered? || h.phase.Waiting? || h.phase.Looked?
                    || h.phase.Verified? || h.phase.Checked? || h.phase.Linked? || h.phase.Preserved?;
      RestageStep(h, image) == Some(if staged then h.(candidate := image, synced := false, touched := true) else h)
  {
  }

  /** The user's confirmation ends a helper without a candidate, and one whose parent hung up. */
  function CommandStep(h: Helper): Option<Helper> {
    if !h.phase.Seeded? && !h.phase.Offered? then Some(h)
    else if h.phase.Seeded? || !h.parentAlive then None
    else Some(h.(phase := Waiting))
  }

  /** Once the parent is gone everything is checked again. First, that the path still names the
      image that lstat saw at the start. */
  function LookStep(s: State, h: Helper): Option<Helper> {
    if h.phase != Waiting || h.parentAlive then Some(h)
    else if s.live.installed == h.original then Some(h.(phase := Looked))
    else None
  }

  /** Second, the signature. */
  function VerifyStep(w: World, h: Helper): Option<Helper> {
    if h.phase != Looked then Some(h)
    else if w.passes(h.seed, h.candidate) then Some(h.(phase := Verified, touched := false))
    else None
  }

  /** Third, the version. */
  function DateStep(w: World, h: Helper): Option<Helper> {
    if h.phase != Verified then Some(h)
    else if HasVersion(w, h.candidate) && w.version(h.candidate) == h.version && w.newer(h.current, h.version)
    then Some(h.(phase := Checked))
    else None
  }

  /** link fails when the name exists, here when an earlier helper had the same process id. */
  function LinkStep(s: State, p: Pid, h: Helper): State {
    if h.phase != Checked then s
    else if p in s.live.rollbacks then Dead(s, p)
    else Put(s.(live := s.live.(rollbacks := s.live.rollbacks[p := s.live.installed])), p, h.(phase := Linked))
  }

  /** fsync of the directory, once behind the link and once behind the rename. */
  function SyncStep(s: State, p: Pid, h: Helper): State {
    if h.phase == Linked then Put(s.(disk := s.live), p, h.(phase := Preserved))
    else if h.phase == Renamed then Dead(s.(disk := s.live), p)
    else s
  }

  function RenameStep(s: State, p: Pid, h: Helper): State {
    if h.phase != Preserved then s
    else
      var inode := Inode(h.candidate, s.live.installed, h.touched, h.synced, false);
      Put(s.(inodes := s.inodes + [inode], live := s.live.(installed := |s.inodes|)), p, h.(phase := Renamed))
  }

  function Init(image: Image): State {
    var directory := Directory(0, map[]);
    State([Inode(image, 0, false, true, false)], directory, directory, map[])
  }

  // ----- what every step keeps -----

  /** The later image carries the signature of the earlier one and is strictly newer. */
  predicate Follows(w: World, old_: Image, new_: Image) {
    w.passes(old_, new_) && w.newer(w.version(old_), w.version(new_))
  }

  /** The inode has a rollback name that no power loss removes. */
  ghost predicate Kept(d: Directory, inode: nat) {
    exists p :: p in d.rollbacks && d.rollbacks[p] == inode
  }

  ghost predicate Lineage(w: World, s: State) {
    && |s.inodes| > 0 && s.inodes[0].whole && !s.inodes[0].ruined
    && (forall k :: 0 < k < |s.inodes| ==> Descends(w, s, k))
  }

  /** The contents of inode k and of what it replaced are those that were checked. */
  predicate Sound(inodes: seq<Inode>, k: nat)
    requires 0 < k < |inodes| && inodes[k].parent < k
  {
    !inodes[k].touched && !inodes[k].ruined && !inodes[inodes[k].parent].ruined
  }

  ghost predicate Descends(w: World, s: State, k: nat)
    requires 0 < k < |s.inodes|
  {
    var parent := s.inodes[k].parent;
    && parent < k && Kept(s.disk, parent)
    && (Sound(s.inodes, k) ==> Follows(w, s.inodes[parent].image, s.inodes[k].image))
    && (s.inodes[k].ruined ==> !s.inodes[k].whole)
  }

  ghost predicate Names(s: State) {
    && Places(s)
    && (forall p :: p in s.disk.rollbacks ==> p in s.live.rollbacks && s.live.rollbacks[p] == s.disk.rollbacks[p])
    && (s.disk.installed == s.live.installed
        || (s.live.installed > 0 && s.inodes[s.live.installed].parent == s.disk.installed))
  }

  /** What a helper may rely on in each phase, about the images. */
  predicate Informed(w: World, inodes: seq<Inode>, installed: nat, h: Helper)
    requires installed < |inodes|
  {
    var r := Rank(h.phase);
    && (r >= Rank(Stated) ==> h.original <= installed)
    && (r >= Rank(Opened) ==> h.original <= h.lock <= installed)
    && (r >= Rank(Seeded) ==> h.lock <= h.from <= installed && h.seed == inodes[h.from].image
                              && w.version(h.seed) == h.current)
    && (r >= Rank(Looked) ==> !h.parentAlive)
    && (Rank(Looked) <= r <= Rank(Preserved) ==> h.original == installed)
    && (r >= Rank(Verified) && !h.touched ==> w.passes(h.seed, h.candidate))
    && (r >= Rank(Checked) && !h.touched ==> Acceptable(w, h, h.candidate))
  }

  /** And about the rollback link under its process id. */
  predicate Secured(live: Directory, disk: Directory, p: Pid, h: Helper) {
    && (h.phase.Linked? || h.phase.Preserved? ==> p in live.rollbacks && live.rollbacks[p] == live.installed)
    && (h.phase.Preserved? ==> p in disk.rollbacks && disk.rollbacks[p] == live.installed
                               && disk.installed == live.installed)
  }

  ghost predicate Consistent(w: World, s: State, p: Pid, h: Helper)
    requires Places(s)
  {
    Informed(w, s.inodes, s.live.installed, h) && Secured(s.live, s.disk, p, h)
  }

  ghost predicate Helpers(w: World, s: State)
    requires Places(s)
  {
    && (forall p :: p in s.helpers ==> Consistent(w, s, p, s.helpers[p]))
    && (forall p, q :: p in s.helpers && q in s.helpers && p != q ==> Apart(s.helpers[p], s.helpers[q]))
  }

  /** No two processes hold the lock of one inode. */
  predicate Apart(g: Helper, h: Helper) {
    Rank(g.phase) >= Rank(Locked) && Rank(h.phase) >= Rank(Locked) ==> g.lock != h.lock
  }

  ghost predicate Inv(w: World, s: State) {
    Names(s) && Lineage(w, s) && Helpers(w, s)
  }

  lemma InitHolds(w: World, image: Image)
    ensures Inv(w, Init(image))
  {
  }

  /** The files and directory are the same in both states. */
  predicate SameFiles(s: State, t: State) {
    s.inodes == t.inodes && s.live == t.live && s.disk == t.disk
  }

  lemma SameLineage(w: World, s: State, t: State)
    requires Inv(w, s) && SameFiles(s, t) && Places(t)
    ensures Names(t) && Lineage(w, t)
  {
    forall k | 0 < k < |t.inodes|
      ensures Descends(w, t, k)
    {
      assert Descends(w, s, k);
    }
  }

  lemma SameRecord(w: World, s: State, t: State, p: Pid)
    requires Inv(w, s) && SameFiles(s, t) && Places(t)
    requires p in s.helpers && p in t.helpers && s.helpers[p] == t.helpers[p]
    ensures Consistent(w, t, p, t.helpers[p])
  {
    hide Informed, Secured, Lineage;
    assert Consistent(w, s, p, s.helpers[p]);
  }

  /** A step that only changes the record of p. */
  lemma PutKeeps(w: World, s: State, p: Pid, h: Helper)
    requires Inv(w, s) && h.lock < |s.inodes| && Consistent(w, s, p, h)
    requires forall q :: q in s.helpers && q != p ==> Apart(s.helpers[q], h)
    ensures Inv(w, Put(s, p, h))
  {
    hide Informed, Secured, Lineage;
    var t := Put(s, p, h);
    SameLineage(w, s, t);
    forall q | q in t.helpers && q != p
      ensures Consistent(w, t, q, t.helpers[q])
    {
      SameRecord(w, s, t, q);
    }
    forall q, r | q in t.helpers && r in t.helpers && q != r
      ensures Apart(t.helpers[q], t.helpers[r])
    {
      assert q != p && r != p ==> Apart(s.helpers[q], s.helpers[r]);
    }
  }

  lemma DeadKeeps(w: World, s: State, p: Pid)
    requires Inv(w, s)
    ensures Inv(w, Dead(s, p))
  {
    hide Informed, Secured, Lineage, Apart;
    var t := Dead(s, p);
    SameLineage(w, s, t);
    forall q | q in t.helpers
      ensures Consistent(w, t, q, t.helpers[q])
    {
      SameRecord(w, s, t, q);
    }
  }

  /** The new record holds a lock only if the old one held the same, so it stays apart. */
  lemma MovesOn(w: World, s: State, p: Pid, h: Helper)
    requires Inv(w, s) && p in s.helpers
    requires h.lock < |s.inodes| && Consistent(w, s, p, h)
    requires Rank(h.phase) >= Rank(Locked) ==> Rank(s.helpers[p].phase) >= Rank(Locked) && h.lock == s.helpers[p].lock
    ensures Inv(w, Put(s, p, h))
  {
    forall q | q in s.helpers && q != p
      ensures Apart(s.helpers[q], h)
    {
      assert Apart(s.helpers[q], s.helpers[p]);
    }
    PutKeeps(w, s, p, h);
  }

  lemma LockedRecord(w: World, s: State, p: Pid, h: Helper)
    requires Places(s) && Consistent(w, s, p, h) && h.phase == Opened
    ensures Consistent(w, s, p, h.(phase := Locked))
  {
  }

  lemma LockKeeps(w: World, s: State, p: Pid)
    requires Inv(w, s) && p in s.helpers
    ensures Inv(w, LockStep(s, p, s.helpers[p]))
  {
    hide Informed, Secured, Lineage;
    var h := s.helpers[p];
    assert Consistent(w, s, p, h);
    if h.phase == Opened {
      if LockFree(s, p, h.lock) {
        LockedRecord(w, s, p, h);
        PutKeeps(w, s, p, h.(phase := Locked));
      } else {
        DeadKeeps(w, s, p);
      }
    }
  }

  /** From the last look at the path to the rename at most one helper runs: the locks are apart,
      and each of the two would hold the lock of the installed inode. */
  lemma OneUpdaterAtATime(w: World, s: State, p: Pid, q: Pid)
    requires Inv(w, s) && p in s.helpers && q in s.helpers
    requires Rank(Looked) <= Rank(s.helpers[p].phase) <= Rank(Preserved)
    requires Rank(Looked) <= Rank(s.helpers[q].phase) <= Rank(Preserved)
    ensures p == q
  {
    assert Consistent(w, s, p, s.helpers[p]) && Consistent(w, s, q, s.helpers[q]);
    assert p != q ==> Apart(s.helpers[p], s.helpers[q]);
  }

  lemma LookRecord(w: World, s: State, a: Action, p: Pid, h: Helper)
    requires Places(s) && h.lock < |s.inodes| && Consistent(w, s, p, h) && Looking(a)
    ensures var g := OwnStep(w, s, h, a); g.Some? ==> Consistent(w, s, p, g.value)
  {
  }

  lemma MovedRecord(w: World, s: State, a: Action, p: Pid, h: Helper)
    requires Places(s) && h.lock < |s.inodes| && Consistent(w, s, p, h) && Moving(a)
    ensures var g := OwnStep(w, s, h, a); g.Some? ==> Consistent(w, s, p, g.value)
  {
  }

  lemma CheckedRecord(w: World, s: State, a: Action, p: Pid, h: Helper)
    requires Places(s) && h.lock < |s.inodes| && Consistent(w, s, p, h) && Checking(a)
    ensures var g := OwnStep(w, s, h, a); g.Some? ==> Consistent(w, s, p, g.value)
  {
  }

  lemma OwnStepKeeps(w: World, s: State, a: Action, p: Pid)
    requires Inv(w, s) && p in s.helpers && Own(a)
    ensures Inv(w, HelperStep(w, s, a, p, s.helpers[p]))
  {
    hide Informed, Secured, Lineage, OwnStep, Apart;
    var h := s.helpers[p];
    assert Consistent(w, s, p, h);
    if Looking(a) {
      LookRecord(w, s, a, p, h);
    } else if Checking(a) {
      CheckedRecord(w, s, a, p, h);
    } else {
      MovedRecord(w, s, a, p, h);
    }
    match OwnStep(w, s, h, a)
    case Some(g) => MovesOn(w, s, p, g);
    case None => DeadKeeps(w, s, p);
  }

  lemma KeptGrows(d: Directory, e: Directory, inode: nat)
    requires Kept(d, inode)
    requires forall p :: p in d.rollbacks ==> p in e.rollbacks && e.rollbacks[p] == d.rollbacks[p]
    ensures Kept(e, inode)
  {
    var p :| p in d.rollbacks && d.rollbacks[p] == inode;
    assert p in e.rollbacks && e.rollbacks[p] == inode;
  }

  /** A step that leaves the files alone and whose disk still keeps every rollback link. */
  lemma LineageKeeps(w: World, s: State, t: State)
    requires Inv(w, s) && t.inodes == s.inodes
    requires forall p :: p in s.disk.rollbacks ==> p in t.disk.rollbacks && t.disk.rollbacks[p] == s.disk.rollbacks[p]
    ensures Lineage(w, t)
  {
    forall k | 0 < k < |t.inodes|
      ensures Descends(w, t, k)
    {
      assert Descends(w, s, k);
      KeptGrows(s.disk, t.disk, s.inodes[k].parent);
    }
  }

  lemma LinkedRecord(w: World, s: State, p: Pid, h: Helper)
    requires Places(s) && Informed(w, s.inodes, s.live.installed, h) && h.phase == Checked
    ensures Informed(w, s.inodes, s.live.installed, h.(phase := Linked))
  {
  }

  lemma LinkRecord(w: World, s: State, t: State, p: Pid, q: Pid)
    requires Inv(w, s) && p in s.helpers && q in s.helpers
    requires s.helpers[p].phase == Checked && p !in s.live.rollbacks
    requires t == LinkStep(s, p, s.helpers[p]) && Places(t)
    ensures Consistent(w, t, q, t.helpers[q])
  {
    hide Informed, Lineage, Apart;
    assert Consistent(w, s, q, s.helpers[q]);
    if q == p {
      LinkedRecord(w, s, p, s.helpers[p]);
    }
  }

  lemma LinkKeeps(w: World, s: State, p: Pid)
    requires Inv(w, s) && p in s.helpers
    ensures Inv(w, LinkStep(s, p, s.helpers[p]))
  {
    hide Informed, Secured, Lineage, Apart;
    var h := s.helpers[p];
    if h.phase == Checked {
      var t := LinkStep(s, p, h);
      if p in s.live.rollbacks {
        DeadKeeps(w, s, p);
      } else {
        LineageKeeps(w, s, t);
        forall q | q in t.helpers
          ensures Consistent(w, t, q, t.helpers[q])
        {
          LinkRecord(w, s, t, p, q);
        }
        StillApart(s, t, p);
      }
    }
  }

  /** Only p's record changed, and not the lock it holds. */
  lemma StillApart(s: State, t: State, p: Pid)
    requires forall q, r :: q in s.helpers && r in s.helpers && q != r ==> Apart(s.helpers[q], s.helpers[r])
    requires p in s.helpers && p in t.helpers && s.helpers[p].lock == t.helpers[p].lock
    requires Rank(s.helpers[p].phase) >= Rank(Locked)
    requires forall q :: q in t.helpers && q != p ==> q in s.helpers && t.helpers[q] == s.helpers[q]
    ensures forall q, r :: q in t.helpers && r in t.helpers && q != r ==> Apart(t.helpers[q], t.helpers[r])
  {
    forall q, r | q in t.helpers && r in t.helpers && q != r
      ensures Apart(t.helpers[q], t.helpers[r])
    {
      assert Apart(s.helpers[q], s.helpers[r]);
    }
  }

  /** fsync of the directory makes everything in it durable. */
  lemma FlushKeeps(w: World, s: State)
    requires Inv(w, s)
    ensures Inv(w, s.(disk := s.live))
  {
    hide Informed, Lineage, Apart;
    var t := s.(disk := s.live);
    LineageKeeps(w, s, t);
    forall q | q in t.helpers
      ensures Consistent(w, t, q, t.helpers[q])
    {
      assert Consistent(w, s, q, s.helpers[q]);
    }
  }

  lemma SyncedRecord(w: World, t: State, p: Pid, h: Helper)
    requires Places(t) && Consistent(w, t, p, h) && h.phase == Linked && t.disk == t.live
    ensures Consistent(w, t, p, h.(phase := Preserved))
  {
  }

  lemma SyncedKeeps(w: World, t: State, p: Pid)
    requires Inv(w, t) && p in t.helpers && t.disk == t.live
    ensures Inv(w, SyncStep(t, p, t.helpers[p]))
  {
    hide Informed, Secured, Lineage, Apart;
    assert Consistent(w, t, p, t.helpers[p]);
    if t.helpers[p].phase == Linked {
      SyncedRecord(w, t, p, t.helpers[p]);
      MovesOn(w, t, p, t.helpers[p].(phase := Preserved));
    } else if t.helpers[p].phase == Renamed {
      DeadKeeps(w, t, p);
    }
  }

  lemma SyncFlushes(s: State, p: Pid)
    requires p in s.helpers
    ensures var t := SyncStep(s, p, s.helpers[p]); t == s || t == SyncStep(s.(disk := s.live), p, s.helpers[p])
  {
  }

  lemma SyncKeeps(w: World, s: State, p: Pid)
    requires Inv(w, s) && p in s.helpers
    ensures Inv(w, SyncStep(s, p, s.helpers[p]))
  {
    FlushKeeps(w, s);
    SyncedKeeps(w, s.(disk := s.live), p);
    SyncFlushes(s, p);
  }

  /** A replaced image that still is as it was read: the new one follows it unless it was touched. */
  lemma NewFollows(w: World, inodes: seq<Inode>, installed: nat, h: Helper)
    requires installed < |inodes| && Informed(w, inodes, installed, h) && h.phase == Preserved && !h.touched
    ensures Follows(w, inodes[installed].image, h.candidate)
  {
  }

  /** The replaced inode already has a durable rollback link. */
  lemma RenameLineage(w: World, s: State, p: Pid)
    requires Inv(w, s) && p in s.helpers && s.helpers[p].phase == Preserved
    ensures Names(RenameStep(s, p, s.helpers[p])) && Lineage(w, RenameStep(s, p, s.helpers[p]))
  {
    hide Informed, Apart, Follows;
    var h := s.helpers[p];
    var t := RenameStep(s, p, h);
    assert Consistent(w, s, p, h);
    assert Kept(s.disk, s.live.installed);
    if !h.touched {
      NewFollows(w, s.inodes, s.live.installed, h);
    }
    forall k | 0 < k < |t.inodes|
      ensures Descends(w, t, k)
    {
      assert k < |s.inodes| ==> Descends(w, s, k);
    }
  }

  lemma InformedOf(w: World, inodes: seq<Inode>, inode: Inode, installed: nat, h: Helper)
    requires installed < |inodes| && Informed(w, inodes, installed, h)
    requires !(Rank(Looked) <= Rank(h.phase) <= Rank(Preserved))
    ensures Informed(w, inodes + [inode], |inodes|, h)
  {
  }

  lemma InformedRenamed(w: World, inodes: seq<Inode>, inode: Inode, installed: nat, h: Helper)
    requires installed < |inodes| && Informed(w, inodes, installed, h) && h.phase == Preserved
    ensures Informed(w, inodes + [inode], |inodes|, h.(phase := Renamed))
  {
  }

  /** No other helper past its last look at the path counted on the replaced inode. */
  lemma RenameRecord(w: World, s: State, t: State, p: Pid, q: Pid)
    requires Inv(w, s) && p in s.helpers && q in s.helpers && s.helpers[p].phase == Preserved && p != q
    requires t == RenameStep(s, p, s.helpers[p]) && Places(t)
    ensures Consistent(w, t, q, t.helpers[q])
  {
    hide Informed, Lineage, Apart;
    assert Consistent(w, s, q, s.helpers[q]);
    if Rank(Looked) <= Rank(s.helpers[q].phase) <= Rank(Preserved) {
      OneUpdaterAtATime(w, s, p, q);
    } else {
      InformedOf(w, s.inodes, t.inodes[|s.inodes|], s.live.installed, s.helpers[q]);
    }
  }

  lemma RenamedRecord(w: World, s: State, t: State, p: Pid)
    requires Inv(w, s) && p in s.helpers && s.helpers[p].phase == Preserved
    requires t == RenameStep(s, p, s.helpers[p]) && Places(t)
    ensures Consistent(w, t, p, t.helpers[p])
  {
    hide Informed, Lineage, Apart;
    assert Consistent(w, s, p, s.helpers[p]);
    InformedRenamed(w, s.inodes, t.inodes[|s.inodes|], s.live.installed, s.helpers[p]);
  }

  lemma RenameKeeps(w: World, s: State, p: Pid)
    requires Inv(w, s) && p in s.helpers
    ensures Inv(w, RenameStep(s, p, s.helpers[p]))
  {
    hide Informed, Secured, Lineage, Apart;
    if s.helpers[p].phase == Preserved {
      var t := RenameStep(s, p, s.helpers[p]);
      RenameLineage(w, s, p);
      forall q | q in t.helpers
        ensures Consistent(w, t, q, t.helpers[q])
      {
        if q == p {
          RenamedRecord(w, s, t, p);
        } else {
          RenameRecord(w, s, t, p, q);
        }
      }
      StillApart(s, t, p);
    }
  }

  lemma RestartKeeps(w: World, s: State, replaced: bool, kept: set<Pid>, garbage: map<nat, Image>)
    requires Inv(w, s)
    ensures Inv(w, Restarted(s, replaced, kept, garbage))
  {
    var t := Restarted(s, replaced, kept, garbage);
    forall k | 0 < k < |t.inodes|
      ensures Descends(w, t, k)
    {
      assert Descends(w, s, k);
      KeptGrows(s.disk, t.disk, s.inodes[k].parent);
      assert Sound(t.inodes, k) ==> Sound(s.inodes, k);
    }
  }

  lemma HelperStepKeeps(w: World, s: State, a: Action, p: Pid)
    requires Inv(w, s) && p in s.helpers && !a.Start? && !a.PowerLoss? && a.p == p
    ensures Inv(w, HelperStep(w, s, a, p, s.helpers[p]))
  {
    hide Inv, LockStep, LinkStep, SyncStep, RenameStep, OwnStep;
    if a.Lock? {
      LockKeeps(w, s, p);
    } else if a.Link? {
      LinkKeeps(w, s, p);
    } else if a.Sync? {
      SyncKeeps(w, s, p);
    } else if a.Rename? {
      RenameKeeps(w, s, p);
    } else {
      OwnStepKeeps(w, s, a, p);
    }
  }

  lemma StepKeeps(w: World, s: State, a: Action)
    requires Inv(w, s)
    ensures Inv(w, Step(w, s, a))
  {
    hide HelperStep, Restarted, Lineage;
    if a.Start? {
      if a.p !in s.helpers {
        PutKeeps(w, s, a.p, Fresh(Started, a.current, 0, 0));
      }
    } else if a.PowerLoss? {
      RestartKeeps(w, s, a.replaced, a.kept, a.garbage);
    } else if a.p in s.helpers {
      HelperStepKeeps(w, s, a, a.p);
    }
  }

  // ----- whole runs -----

  /** Any schedule of any number of helpers, deaths and power losses. */
  function Run(w: World, s: State, actions: seq<Action>): (t: State)
    requires Places(s)
    ensures Places(t) && |s.inodes| <= |t.inodes|
    decreases |actions|
  {
    if actions == [] then s else Run(w, Step(w, s, actions[0]), actions[1..])
  }

  lemma {:induction false} RunKeeps(w: World, s: State, actions: seq<Action>)
    requires Inv(w, s)
    ensures Inv(w, Run(w, s, actions))
    decreases |actions|
  {
    if actions == [] {
    } else {
      StepKeeps(w, s, actions[0]);
      RunKeeps(w, Step(w, s, actions[0]), actions[1..]);
    }
  }

  /** Inode k came about by replacing a, or by replacing something that replaced a, and so on. */
  ghost predicate Ancestor(inodes: seq<Inode>, a: nat, k: nat)
    requires k < |inodes|
    decreases k
  {
    a == k || (inodes[k].parent < k && Ancestor(inodes, a, inodes[k].parent))
  }

  lemma {:induction false} AncestorBelow(inodes: seq<Inode>, a: nat, k: nat)
    requires k < |inodes| && Ancestor(inodes, a, k)
    ensures a <= k
    decreases k
  {
    if a != k {
      AncestorBelow(inodes, a, inodes[k].parent);
    }
  }

  /** From inode a to inode k nothing was touched after its check, and no power loss ruined anything. */
  predicate Clean(inodes: seq<Inode>, a: nat, k: nat)
    requires k < |inodes|
    decreases k
  {
    !inodes[k].ruined
    && (a == k || (inodes[k].parent < k && !inodes[k].touched && Clean(inodes, a, inodes[k].parent)))
  }

  /** Everything that was replaced on the way to inode k still has its durable link. */
  lemma {:induction false} ChainIsKept(w: World, s: State, a: nat, k: nat)
    requires Inv(w, s) && k < |s.inodes| && Ancestor(s.inodes, a, k) && a != k
    ensures a < k && Kept(s.disk, a)
    decreases k
  {
    AncestorBelow(s.inodes, a, k);
    assert Descends(w, s, k);
    if a != s.inodes[k].parent {
      ChainIsKept(w, s, a, s.inodes[k].parent);
    }
  }

  /** Along a clean chain of updates versions strictly increase. */
  lemma {:induction false} ChainIncreases(w: World, s: State, a: nat, k: nat)
    requires Inv(w, s) && ReleasePolicy(w) && k < |s.inodes| && Clean(s.inodes, a, k) && a != k
    ensures a < k && Version.Newer(w.version(s.inodes[a].image), w.version(s.inodes[k].image))
    decreases k
  {
    assert Descends(w, s, k);
    var m := s.inodes[k].parent;
    assert Sound(s.inodes, k);
    if a != m {
      ChainIncreases(w, s, a, m);
      Version.NewerIsStrictOrder(w.version(s.inodes[a].image), w.version(s.inodes[m].image),
                                 w.version(s.inodes[k].image));
    }
  }

  lemma {:induction false} OriginalIsRoot(w: World, s: State, k: nat)
    requires Inv(w, s) && k < |s.inodes|
    ensures Ancestor(s.inodes, 0, k)
    decreases k
  {
    if k > 0 {
      assert Descends(w, s, k);
      OriginalIsRoot(w, s, s.inodes[k].parent);
    }
  }

  /** What the directory must show whichever of its two versions one looks at. */
  ghost predicate Safe(w: World, s: State, installed: nat)
    requires installed < |s.inodes|
  {
    && Ancestor(s.inodes, 0, installed)
    && (installed != 0 ==> Descends(w, s, installed))
    && forall a :: 0 <= a < |s.inodes| && a != installed && Ancestor(s.inodes, a, installed) ==>
         && Kept(s.disk, a)
         && (Clean(s.inodes, a, installed) ==>
               Version.Newer(w.version(s.inodes[a].image), w.version(s.inodes[installed].image)))
  }

  lemma InstalledIsSafe(w: World, s: State, installed: nat)
    requires Inv(w, s) && ReleasePolicy(w) && installed < |s.inodes|
    ensures Safe(w, s, installed)
  {
    hide Inv, ReleasePolicy;
    forall a: nat | a < |s.inodes| && a != installed && Ancestor(s.inodes, a, installed)
      ensures Kept(s.disk, a)
      ensures Clean(s.inodes, a, installed) ==>
                Version.Newer(w.version(s.inodes[a].image), w.version(s.inodes[installed].image))
    {
      ChainIsKept(w, s, a, installed);
      if Clean(s.inodes, a, installed) {
        ChainIncreases(w, s, a, installed);
      }
    }
    OriginalIsRoot(w, s, installed);
    ReplacedDescends(w, s, installed);
  }

  lemma ReplacedDescends(w: World, s: State, k: nat)
    requires Inv(w, s) && k < |s.inodes|
    ensures k != 0 ==> Descends(w, s, k)
  {
  }

  lemma OriginalStep(w: World, s: State, a: Action)
    requires Places(s) && s.inodes[0].whole
    ensures Step(w, s, a).inodes[0] == s.inodes[0]
  {
    hide OwnStep, LockFree;
    if !a.PowerLoss? && !a.Start? && a.p in s.helpers {
      assert s.inodes <= HelperStep(w, s, a, a.p, s.helpers[a.p]).inodes;
    }
  }

  lemma {:induction false} OriginalStays(w: World, s: State, actions: seq<Action>)
    requires Places(s) && s.inodes[0].whole
    ensures Run(w, s, actions).inodes[0] == s.inodes[0]
    decreases |actions|
  {
    hide Step;
    if actions == [] {
    } else {
      OriginalStep(w, s, actions[0]);
      OriginalStays(w, Step(w, s, actions[0]), actions[1..]);
    }
  }

  /** After any run the path, live or after losing power now, names the original image or one that
      carries its predecessor's signature, unless one of the two is not what was checked; every image
      before it has a durable rollback link, the original included, and is older along a clean chain. */
  lemma UpdateSafety(w: World, image: Image, actions: seq<Action>)
    requires ReleasePolicy(w)
    ensures var s := Run(w, Init(image), actions);
            s.inodes[0].image == image && Safe(w, s, s.live.installed) && Safe(w, s, s.disk.installed)
  {
    hide Inv, ReleasePolicy, Run, Safe;
    InitHolds(w, image);
    RunKeeps(w, Init(image), actions);
    var s := Run(w, Init(image), actions);
    InstalledIsSafe(w, s, s.live.installed);
    InstalledIsSafe(w, s, s.disk.installed);
    OriginalStays(w, Init(image), actions);
  }

  lemma RenamedState(w: World, s: State, p: Pid)
    requires Places(s) && p in s.helpers && s.helpers[p].phase == Preserved
    ensures
      var h := s.helpers[p];
      var t := Step(w, s, Rename(p));
      && t.inodes == s.inodes + [Inode(h.candidate, s.live.installed, h.touched, h.synced, false)]
      && t.live.installed == |s.inodes|
  {
  }

  /** The installed path changes in two ways only. A helper renames its staged file over it: then
      the parent process is gone, a durable rollback link under the helper's own process id already
      names the replaced image, and that is the one the staged file was checked against. Or a power
      loss forgets the latest rename. */
  lemma ReplacementIsGuarded(w: World, s: State, a: Action)
    requires Inv(w, s) && Step(w, s, a).live.installed != s.live.installed
    ensures
      var t := Step(w, s, a);
      var was, now := s.live.installed, t.live.installed;
      || (&& a.Rename? && a.p in s.helpers && !s.helpers[a.p].parentAlive
          && a.p in s.disk.rollbacks && s.disk.rollbacks[a.p] == was && s.disk.installed == was
          && now == |s.inodes| == |t.inodes| - 1 && t.inodes[now].parent == was
          && t.inodes[now].image == s.helpers[a.p].candidate && t.inodes[was] == s.inodes[was]
          && (!t.inodes[now].touched ==> Follows(w, t.inodes[was].image, t.inodes[now].image)))
      || (a.PowerLoss? && |t.inodes| == |s.inodes| && now == s.inodes[was].parent)
  {
    hide Lineage, Helpers, HelperStep;
    if !a.PowerLoss? {
      OnlyRenameMoves(w, s, a);
      RenameIsGuarded(w, s, a.p);
      RenamedState(w, s, a.p);
    }
  }

  lemma RenameIsGuarded(w: World, s: State, p: Pid)
    requires Inv(w, s) && p in s.helpers && s.helpers[p].phase == Preserved
    ensures
      var h := s.helpers[p];
      var was := s.live.installed;
      && !h.parentAlive && s.disk.installed == was && p in s.disk.rollbacks && s.disk.rollbacks[p] == was
      && (!h.touched ==> Follows(w, s.inodes[was].image, h.candidate))
  {
    hide Lineage, Apart;
    assert Consistent(w, s, p, s.helpers[p]);
  }

  lemma OnlyRenameMoves(w: World, s: State, a: Action)
    requires Places(s) && !a.PowerLoss? && Step(w, s, a).live.installed != s.live.installed
    ensures a.Rename? && a.p in s.helpers && s.helpers[a.p].phase == Preserved
  {
  }
}
