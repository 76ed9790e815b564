/** The dependency worklist of the release bundler (scripts/cross-bundle.js:77-114). Reading a file's
    dependencies, its kind and the two system lists are abstract. */
module Bundle {
  import opened Options

  type Path = string
  type Content = nat

  /** files are the target's files already in the bundle; index maps the lower-cased names of the
      libraries in the roots to what they contain. */
  datatype World = World(files: map<Path, Content>, index: map<string, Content>, libdir: Path,
                         dependencies: Content -> seq<string>, system: string -> bool, lower: string -> string,
                         rightKind: Content -> bool)

  // ----- names -----

  function BaseStart(path: Path, i: nat): (k: nat)
    requires i <= |path|
    ensures k <= i
  {
    if i == 0 || path[i - 1] == '/' then i else BaseStart(path, i - 1)
  }

  /** basename: what follows the last slash. */
  function Base(path: Path): string {
    path[BaseStart(path, |path|)..]
  }

  /** dirname: what precedes it. */
  function Dir(path: Path): Path {
    var k := BaseStart(path, |path|);
    if k == 0 then "." else path[..k - 1]
  }

  function Join(dir: Path, name: string): Path {
    dir + "/" + name
  }

  lemma {:induction false} BaseStartIs(path: Path, i: nat, k: nat)
    requires 0 < k <= i <= |path| && path[k - 1] == '/' && forall j :: k <= j < i ==> path[j] != '/'
    ensures BaseStart(path, i) == k
    decreases i
  {
    if k < i {
      BaseStartIs(path, i - 1, k);
    }
  }

  lemma {:induction false} BaseHasNoSlash(path: Path, i: nat)
    requires i <= |path|
    ensures forall j :: BaseStart(path, i) <= j < i ==> path[j] != '/'
  {
    if i > 0 && path[i - 1] != '/' {
      BaseHasNoSlash(path, i - 1);
    }
  }

  /** A library copied under its base name is found under it again, in the library directory. */
  lemma JoinSplits(dir: Path, path: Path)
    ensures Base(Join(dir, Base(path))) == Base(path) && Dir(Join(dir, Base(path))) == dir
  {
    BaseHasNoSlash(path, |path|);
    var joined := Join(dir, Base(path));
    var k := |dir| + 1;
    assert forall j :: k <= j < |joined| ==> joined[j] == Base(path)[j - k];
    BaseStartIs(joined, |joined|, k);
    assert joined[k..] == Base(path);
    assert joined[..k - 1] == dir;
  }

  // ----- the graph -----

  /** new Map over the initial files: of two files with one base name the later counts. */
  function Staged(initial: seq<Path>): map<string, Path> {
    if initial == [] then map[]
    else Staged(initial[..|initial| - 1])[Base(initial[|initial| - 1]) := initial[|initial| - 1]]
  }

  /** Where a dependency is found, or None when it is not. */
  function Resolve(w: World, initial: seq<Path>, dependency: string): Option<Path> {
    var name := Base(dependency);
    if name in Staged(initial) then Some(Staged(initial)[name])
    else if w.lower(name) in w.index && w.rightKind(w.index[w.lower(name)]) then Some(Join(w.libdir, name))
    else None
  }

  /** What a bundled path contains: a file that was there, or the library copied to it. */
  function ContentOf(w: World, path: Path): Option<Content> {
    if path in w.files then Some(w.files[path])
    else if w.lower(Base(path)) in w.index then Some(w.index[w.lower(Base(path))])
    else None
  }

  function Needs(w: World, path: Path): seq<string> {
    match ContentOf(w, path)
    case None => []
    case Some(content) => w.dependencies(content)
  }

  /** The file at p needs the one at q. */
  ghost predicate Edge(w: World, initial: seq<Path>, p: Path, q: Path) {
    exists i :: 0 <= i < |Needs(w, p)| && !w.system(Needs(w, p)[i]) && Resolve(w, initial, Needs(w, p)[i]) == Some(q)
  }

  ghost predicate Chain(w: World, initial: seq<Path>, chain: seq<Path>) {
    && chain != [] && chain[0] in initial
    && forall i :: 0 < i < |chain| ==> Edge(w, initial, chain[i - 1], chain[i])
  }

  /** Some initial file needs the path, directly or through others. */
  ghost predicate Reachable(w: World, initial: seq<Path>, path: Path) {
    exists chain :: Chain(w, initial, chain) && chain[|chain| - 1] == path
  }

  lemma InitialReachable(w: World, initial: seq<Path>, path: Path)
    requires path in initial
    ensures Reachable(w, initial, path)
  {
    assert Chain(w, initial, [path]);
  }

  lemma EdgeReachable(w: World, initial: seq<Path>, p: Path, q: Path)
    requires Reachable(w, initial, p) && Edge(w, initial, p, q)
    ensures Reachable(w, initial, q)
  {
    var chain :| Chain(w, initial, chain) && chain[|chain| - 1] == p;
    var longer := chain + [q];
    forall i | 0 < i < |longer|
      ensures Edge(w, initial, longer[i - 1], longer[i])
    {
      assert i < |chain| ==> Edge(w, initial, chain[i - 1], chain[i]);
    }
    assert Chain(w, initial, longer);
  }

  /** A set with the initial files and everything its members need has every reachable file. */
  lemma {:induction false} ClosedHasChain(w: World, initial: seq<Path>, closed: set<Path>, chain: seq<Path>, n: nat)
    requires (forall p :: p in initial ==> p in closed) && Chain(w, initial, chain) && n < |chain|
    requires forall p, q :: p in closed && Edge(w, initial, p, q) ==> q in closed
    ensures chain[n] in closed
  {
    if n > 0 {
      ClosedHasChain(w, initial, closed, chain, n - 1);
    }
  }

  lemma ClosedHasReachable(w: World, initial: seq<Path>, closed: set<Path>, path: Path)
    requires forall p :: p in initial ==> p in closed
    requires forall p, q :: p in closed && Edge(w, initial, p, q) ==> q in closed
    requires Reachable(w, initial, path)
    ensures path in closed
  {
    var chain :| Chain(w, initial, chain) && chain[|chain| - 1] == path;
    ClosedHasChain(w, initial, closed, chain, |chain| - 1);
  }

  /** Every non-system dependency in the list is found. */
  predicate Satisfied(w: World, initial: seq<Path>, needs: seq<string>) {
    forall i :: 0 <= i < |needs| && !w.system(needs[i]) ==> Resolve(w, initial, needs[i]).Some?
  }

  /** The search path of a file with these dependencies: the library directory and theirs. */
  function SearchPath(w: World, initial: seq<Path>, needs: seq<string>, n: nat): set<Path>
    requires n <= |needs|
  {
    if n == 0 then {w.libdir}
    else
      var d := needs[n - 1];
      SearchPath(w, initial, needs, n - 1)
      + if !w.system(d) && Resolve(w, initial, d).Some? then {Dir(Resolve(w, initial, d).value)} else {}
  }

  /** Whatever a file needs lies in a directory of its search path. */
  lemma {:induction false} SearchPathFinds(w: World, initial: seq<Path>, needs: seq<string>, n: nat, i: nat)
    requires i < n <= |needs| && !w.system(needs[i]) && Resolve(w, initial, needs[i]).Some?
    ensures Dir(Resolve(w, initial, needs[i]).value) in SearchPath(w, initial, needs, n)
  {
    if i < n - 1 {
      SearchPathFinds(w, initial, needs, n - 1, i);
    }
  }

  // ----- the loop -----

  /** The names that can ever be staged: those of the dependencies of all contents there are. */
  ghost function Names(w: World): set<string> {
    set c, d | c in w.files.Values + w.index.Values && d in w.dependencies(c) :: Base(d)
  }

  /** staged has the initial files, and otherwise only copies of the right libraries. */
  ghost predicate StagedWell(w: World, initial: seq<Path>, staged: map<string, Path>) {
    && (forall name :: name in Staged(initial) ==> name in staged && staged[name] == Staged(initial)[name])
    && forall name :: name in staged && name !in Staged(initial) ==>
         && staged[name] == Join(w.libdir, name) && w.lower(name) in w.index && w.rightKind(w.index[w.lower(name)])
         && Base(Join(w.libdir, name)) == name
  }

  /** The paths still to do or done are needed, there, and every staged file is among them. */
  ghost predicate Pending(w: World, initial: seq<Path>, pending: set<Path>, staged: map<string, Path>,
                          copied: map<Path, Content>)
  {
    && (forall p :: p in initial ==> p in pending)
    && (forall name :: name in staged ==> staged[name] in pending)
    && (forall p :: p in pending ==> Reachable(w, initial, p) && (p in w.files || p in copied))
    && (forall p :: p in copied ==> p !in w.files && p in pending && ContentOf(w, p) == Some(copied[p]))
  }

  /** The finished files: all they need is staged, and their search path is as it must be. */
  ghost predicate Done(w: World, initial: seq<Path>, staged: map<string, Path>, paths: map<Path, set<Path>>) {
    forall p :: p in paths ==>
      && Scanned(w, initial, staged, Needs(w, p), |Needs(w, p)|)
      && paths[p] == SearchPath(w, initial, Needs(w, p), |Needs(w, p)|)
  }

  ghost predicate Scanned(w: World, initial: seq<Path>, staged: map<string, Path>, needs: seq<string>, n: nat)
    requires n <= |needs|
  {
    forall i :: 0 <= i < n && !w.system(needs[i]) ==> Resolve(w, initial, needs[i]).Some? && Base(needs[i]) in staged
  }

  lemma {:induction false} StagedAreInitial(initial: seq<Path>)
    ensures forall p :: p in initial ==> Base(p) in Staged(initial)
    ensures forall name :: name in Staged(initial) ==> Staged(initial)[name] in initial
  {
    if initial != [] {
      StagedAreInitial(initial[..|initial| - 1]);
      assert initial == initial[..|initial| - 1] + [initial[|initial| - 1]];
    }
  }

  /** A copied library never lands on a file that was there: that name would have been staged. */
  lemma TargetIsFree(w: World, initial: seq<Path>, dependency: string)
    requires (forall p :: p in w.files <==> p in initial) && Base(dependency) !in Staged(initial)
    ensures
      var target := Join(w.libdir, Base(dependency));
      target !in w.files && Base(target) == Base(dependency)
  {
    JoinSplits(w.libdir, dependency);
    StagedAreInitial(initial);
  }

  lemma StagedResolves(w: World, initial: seq<Path>, staged: map<string, Path>, dependency: string)
    requires StagedWell(w, initial, staged) && Base(dependency) in staged
    ensures Resolve(w, initial, dependency) == Some(staged[Base(dependency)])
  {
  }

  /** One dependency that is not a system library: found among the staged files, or copied. */
  method Need(w: World, initial: seq<Path>, dependency: string, staged: map<string, Path>)
    returns (ok: bool, target: Path, source: Option<Content>)
    requires StagedWell(w, initial, staged) && forall p :: p in w.files <==> p in initial
    ensures ok <==> Resolve(w, initial, dependency).Some?
    ensures ok ==> Resolve(w, initial, dependency) == Some(target)
    ensures ok ==> source.Some? == (Base(dependency) !in staged)
    ensures ok && source.Some? ==> target !in w.files && ContentOf(w, target) == source
    ensures ok ==> StagedWell(w, initial, staged[Base(dependency) := target])
  {
    var name := Base(dependency);
    if name in staged {
      StagedResolves(w, initial, staged, dependency);
      return true, staged[name], None;
    }
    TargetIsFree(w, initial, dependency);
    target := Join(w.libdir, name);
    if w.lower(name) !in w.index {
      return false, target, None;
    }
    var content := w.index[w.lower(name)];
    if !w.rightKind(content) {
      return false, target, None;
    }
    return true, target, Some(content);
  }

  lemma CopyKeeps(w: World, initial: seq<Path>, pending: set<Path>, staged: map<string, Path>,
                  copied: map<Path, Content>, name: string, target: Path, source: Content)
    requires Pending(w, initial, pending, staged, copied) && Reachable(w, initial, target)
    requires target !in w.files && ContentOf(w, target) == Some(source)
    ensures Pending(w, initial, pending + {target}, staged[name := target], copied[target := source])
  {
    hide Reachable, ContentOf;
  }

  ghost function Elements(queue: seq<Path>): set<Path> {
    set p | p in queue
  }

  /** What looking at some dependencies of a file may change: more is staged, and queued with it. */
  ghost predicate Grown(w: World, initial: seq<Path>, seen: set<Path>, queue0: seq<Path>, staged0: map<string, Path>,
                        queue: seq<Path>, staged: map<string, Path>, copied: map<Path, Content>)
  {
    && StagedWell(w, initial, staged) && Pending(w, initial, Elements(queue) + seen, staged, copied)
    && staged0.Keys <= staged.Keys
    && (staged.Keys == staged0.Keys ==> queue == queue0)
    && staged.Keys <= staged0.Keys + Names(w)
  }

  lemma GrownOn(w: World, initial: seq<Path>, seen: set<Path>, queue0: seq<Path>, staged0: map<string, Path>,
                queue1: seq<Path>, staged1: map<string, Path>, copied1: map<Path, Content>,
                queue2: seq<Path>, staged2: map<string, Path>, copied2: map<Path, Content>)
    requires Grown(w, initial, seen, queue0, staged0, queue1, staged1, copied1)
    requires Grown(w, initial, seen, queue1, staged1, queue2, staged2, copied2)
    ensures Grown(w, initial, seen, queue0, staged0, queue2, staged2, copied2)
  {
    hide Pending, StagedWell, Names;
  }

  /** One dependency of a file: the file it is found in, and that file queued if it is new. */
  method Visit(w: World, initial: seq<Path>, path: Path, ghost i: nat, dependency: string, queue0: seq<Path>,
               ghost seen: set<Path>, staged0: map<string, Path>, copied0: map<Path, Content>)
    returns (ok: bool, target: Path, queue: seq<Path>, staged: map<string, Path>, copied: map<Path, Content>)
    requires forall p :: p in w.files <==> p in initial
    requires Grown(w, initial, seen, queue0, staged0, queue0, staged0, copied0)
    requires Reachable(w, initial, path) && i < |Needs(w, path)|
    requires dependency == Needs(w, path)[i] && !w.system(dependency)
    ensures Grown(w, initial, seen, queue0, staged0, queue, staged, copied)
    ensures staged0.Keys <= staged.Keys
    ensures ok <==> Resolve(w, initial, dependency).Some?
    ensures ok ==> Resolve(w, initial, dependency) == Some(target) && Base(dependency) in staged
  {
    hide Base, Dir, Join, ContentOf, Reachable, Pending, StagedWell, Resolve, Names, Edge, Needs;
    queue, staged, copied := queue0, staged0, copied0;
    var source;
    ok, target, source := Need(w, initial, dependency, staged);
    if ok && source.Some? {
      NeedIsEdge(w, initial, path, i, target);
      EdgeReachable(w, initial, path, target);
      NameIsKnown(w, path, i);
      CopyKeeps(w, initial, Elements(queue) + seen, staged, copied, Base(dependency), target, source.value);
      assert Elements(queue + [target]) + seen == Elements(queue) + seen + {target};
      queue, staged, copied := queue + [target], staged[Base(dependency) := target], copied[target := source.value];
    }
  }

  /** The body of the loop for one file: all its dependencies in order. */
  method Scan(w: World, initial: seq<Path>, path: Path, needs: seq<string>, queue0: seq<Path>, ghost seen: set<Path>,
              staged0: map<string, Path>, copied0: map<Path, Content>)
    returns (ok: bool, queue: seq<Path>, staged: map<string, Path>, copied: map<Path, Content>, directories: set<Path>)
    requires forall p :: p in w.files <==> p in initial
    requires Grown(w, initial, seen, queue0, staged0, queue0, staged0, copied0)
    requires needs == Needs(w, path) && Reachable(w, initial, path)
    ensures Grown(w, initial, seen, queue0, staged0, queue, staged, copied)
    ensures ok <==> Satisfied(w, initial, needs)
    ensures ok ==> Scanned(w, initial, staged, needs, |needs|) && directories == SearchPath(w, initial, needs, |needs|)
  {
    hide Needs, Base, Dir, Reachable, Grown, Resolve, SearchPath, Scanned, Satisfied;
    StartScan(w, initial, staged0, needs);
    queue, staged, copied, directories := queue0, staged0, copied0, {w.libdir};
    for i := 0 to |needs|
      invariant Grown(w, initial, seen, queue0, staged0, queue, staged, copied)
      invariant Scanned(w, initial, staged, needs, i) && directories == SearchPath(w, initial, needs, i)
    {
      ghost var queue1, staged1, copied1 := queue, staged, copied;
      if !w.system(needs[i]) {
        var target;
        GrownHere(w, initial, seen, queue0, staged0, queue, staged, copied);
        ok, target, queue, staged, copied := Visit(w, initial, path, i, needs[i], queue, seen, staged, copied);
        GrownOn(w, initial, seen, queue0, staged0, queue1, staged1, copied1, queue, staged, copied);
        if !ok {
          Unsatisfied(w, initial, needs, i);
          return;
        }
        directories := directories + {Dir(target)};
      }
      ScanOn(w, initial, staged1, staged, needs, i);
    }
    ok := true;
    AllScanned(w, initial, staged, needs);
  }

  lemma StartScan(w: World, initial: seq<Path>, staged: map<string, Path>, needs: seq<string>)
    ensures Scanned(w, initial, staged, needs, 0) && SearchPath(w, initial, needs, 0) == {w.libdir}
  {
  }

  lemma ScanOn(w: World, initial: seq<Path>, before: map<string, Path>, after: map<string, Path>,
               needs: seq<string>, i: nat)
    requires i < |needs| && Scanned(w, initial, before, needs, i) && before.Keys <= after.Keys
    requires !w.system(needs[i]) ==> Resolve(w, initial, needs[i]).Some? && Base(needs[i]) in after
    ensures Scanned(w, initial, after, needs, i + 1)
    ensures SearchPath(w, initial, needs, i + 1)
         == SearchPath(w, initial, needs, i)
            + if w.system(needs[i]) then {} else {Dir(Resolve(w, initial, needs[i]).value)}
  {
    hide Base, Dir, Resolve;
  }

  lemma AllScanned(w: World, initial: seq<Path>, staged: map<string, Path>, needs: seq<string>)
    requires Scanned(w, initial, staged, needs, |needs|)
    ensures Satisfied(w, initial, needs)
  {
    hide Base, Resolve;
  }

  lemma Unsatisfied(w: World, initial: seq<Path>, needs: seq<string>, i: nat)
    requires i < |needs| && !w.system(needs[i]) && Resolve(w, initial, needs[i]).None?
    ensures !Satisfied(w, initial, needs)
  {
    hide Resolve;
  }

  lemma NeedIsEdge(w: World, initial: seq<Path>, p: Path, i: nat, q: Path)
    requires i < |Needs(w, p)| && !w.system(Needs(w, p)[i]) && Resolve(w, initial, Needs(w, p)[i]) == Some(q)
    ensures Edge(w, initial, p, q)
  {
    hide Needs, Resolve;
  }

  lemma NameIsKnown(w: World, path: Path, i: nat)
    requires i < |Needs(w, path)|
    ensures Base(Needs(w, path)[i]) in Names(w)
  {
    var content := ContentOf(w, path).value;
    assert content in w.files.Values + w.index.Values;
    assert Needs(w, path)[i] in w.dependencies(content);
  }

  lemma GrownHere(w: World, initial: seq<Path>, seen: set<Path>, queue0: seq<Path>, staged0: map<string, Path>,
                  queue: seq<Path>, staged: map<string, Path>, copied: map<Path, Content>)
    requires Grown(w, initial, seen, queue0, staged0, queue, staged, copied)
    ensures Grown(w, initial, seen, queue, staged, queue, staged, copied)
  {
    hide Pending, StagedWell, Names;
  }

  // ----- the whole run -----

  ghost predicate Inv(w: World, initial: seq<Path>, queue: seq<Path>, staged: map<string, Path>,
                      copied: map<Path, Content>, paths: map<Path, set<Path>>)
  {
    && StagedWell(w, initial, staged) && Pending(w, initial, Elements(queue) + paths.Keys, staged, copied)
    && Done(w, initial, staged, paths)
  }

  /** The bundle holds exactly what the initial files need, and every file finds what it needs. */
  ghost predicate Complete(w: World, initial: seq<Path>, copied: map<Path, Content>, paths: map<Path, set<Path>>) {
    && (forall p :: p in paths <==> Reachable(w, initial, p))
    && (forall p :: p in copied <==> Reachable(w, initial, p) && p !in w.files)
    && (forall p :: p in copied ==> ContentOf(w, p) == Some(copied[p]))
    && forall p :: p in paths ==> Finds(w, initial, paths, p)
  }

  ghost predicate Finds(w: World, initial: seq<Path>, paths: map<Path, set<Path>>, p: Path)
    requires p in paths
  {
    forall i :: 0 <= i < |Needs(w, p)| && !w.system(Needs(w, p)[i]) ==>
      var q := Resolve(w, initial, Needs(w, p)[i]);
      q.Some? && q.value in paths && Dir(q.value) in paths[p]
  }

  lemma InitialPending(w: World, initial: seq<Path>)
    requires forall p :: p in w.files <==> p in initial
    ensures Pending(w, initial, Elements(initial), Staged(initial), map[])
  {
    hide Reachable, ContentOf, Staged, Base;
    StagedAreInitial(initial);
    forall p | p in initial
      ensures Reachable(w, initial, p)
    {
      InitialReachable(w, initial, p);
    }
  }

  lemma InitialInv(w: World, initial: seq<Path>)
    requires forall p :: p in w.files <==> p in initial
    ensures Inv(w, initial, initial, Staged(initial), map[], map[])
  {
    hide Pending, Staged, Base, Join;
    InitialPending(w, initial);
    var none: map<Path, set<Path>> := map[];
    assert Elements(initial) + none.Keys == Elements(initial);
  }

  lemma DoneGrows(w: World, initial: seq<Path>, before: map<string, Path>, after: map<string, Path>,
                  paths: map<Path, set<Path>>)
    requires Done(w, initial, before, paths) && before.Keys <= after.Keys
    ensures Done(w, initial, after, paths)
  {
    hide Needs, Base, Resolve, SearchPath;
  }

  lemma DoneStep(w: World, initial: seq<Path>, before: map<string, Path>, after: map<string, Path>,
                 paths: map<Path, set<Path>>, p: Path)
    requires Done(w, initial, before, paths) && before.Keys <= after.Keys
    requires Scanned(w, initial, after, Needs(w, p), |Needs(w, p)|)
    ensures Done(w, initial, after, paths[p := SearchPath(w, initial, Needs(w, p), |Needs(w, p)|)])
  {
    hide Needs, Base, Resolve, SearchPath, Scanned;
    DoneGrows(w, initial, before, after, paths);
  }

  /** With nothing left to do, the finished files are closed under what they need. */
  lemma FinishedIsClosed(w: World, initial: seq<Path>, staged: map<string, Path>, copied: map<Path, Content>,
                         paths: map<Path, set<Path>>, p: Path, i: nat)
    requires Inv(w, initial, [], staged, copied, paths) && p in paths
    requires i < |Needs(w, p)| && !w.system(Needs(w, p)[i])
    ensures
      var q := Resolve(w, initial, Needs(w, p)[i]);
      q.Some? && q.value in paths && Dir(q.value) in paths[p]
  {
    hide Needs, Base, Dir, Resolve, Reachable, ContentOf;
    var needs := Needs(w, p);
    StagedResolves(w, initial, staged, needs[i]);
    SearchPathFinds(w, initial, needs, |needs|, i);
    assert Elements([]) + paths.Keys == paths.Keys;
  }

  lemma FinishedIsComplete(w: World, initial: seq<Path>, staged: map<string, Path>, copied: map<Path, Content>,
                           paths: map<Path, set<Path>>)
    requires Inv(w, initial, [], staged, copied, paths)
    ensures Complete(w, initial, copied, paths)
  {
    hide Needs, Base, Dir, Resolve, Reachable, ContentOf, SearchPath, Scanned, StagedWell;
    assert Elements([]) + paths.Keys == paths.Keys;
    forall p, q | p in paths && Edge(w, initial, p, q)
      ensures q in paths
    {
      var i :| 0 <= i < |Needs(w, p)| && !w.system(Needs(w, p)[i]) && Resolve(w, initial, Needs(w, p)[i]) == Some(q);
      FinishedIsClosed(w, initial, staged, copied, paths, p, i);
    }
    forall p | Reachable(w, initial, p)
      ensures p in paths
    {
      ClosedHasReachable(w, initial, paths.Keys, p);
    }
    forall p | p in paths
      ensures Finds(w, initial, paths, p)
    {
      forall i: nat | i < |Needs(w, p)| && !w.system(Needs(w, p)[i])
        ensures var q := Resolve(w, initial, Needs(w, p)[i]); q.Some? && q.value in paths && Dir(q.value) in paths[p]
      {
        FinishedIsClosed(w, initial, staged, copied, paths, p, i);
      }
    }
  }

  ghost predicate Resolvable(w: World, initial: seq<Path>) {
    forall p :: Reachable(w, initial, p) ==> Satisfied(w, initial, Needs(w, p))
  }

  lemma CompleteIsResolvable(w: World, initial: seq<Path>, copied: map<Path, Content>, paths: map<Path, set<Path>>)
    requires Complete(w, initial, copied, paths)
    ensures Resolvable(w, initial)
  {
    hide Needs, Dir, Resolve, Reachable, ContentOf;
    forall p | Reachable(w, initial, p)
      ensures Satisfied(w, initial, Needs(w, p))
    {
      assert Finds(w, initial, paths, p);
    }
  }

  /** The bundler's loop ends for every finite set of files. It succeeds exactly when every library
      that some initial file needs, however indirectly, is found; and then the bundle is complete. */
  method Bundle(w: World, initial: seq<Path>)
    returns (ok: bool, copied: map<Path, Content>, paths: map<Path, set<Path>>)
    requires forall p :: p in w.files <==> p in initial
    ensures ok <==> Resolvable(w, initial)
    ensures ok ==> Complete(w, initial, copied, paths)
  {
    hide Reachable, Pending, StagedWell, Done, Needs, Satisfied, Scanned, SearchPath, ContentOf, Names, Resolvable;
    var queue := initial;
    var staged := Staged(initial);
    copied, paths := map[], map[];
    InitialInv(w, initial);
    while queue != []
      invariant Inv(w, initial, queue, staged, copied, paths)
      decreases Names(w) - staged.Keys, |queue|
    {
      var path := queue[|queue| - 1];
      ghost var popped, staged1 := queue, staged;
      queue := queue[..|queue| - 1];
      assert popped == queue + [path];
      if path in paths {
        assert Elements(queue) + paths.Keys == Elements(popped) + paths.Keys;
        continue;
      }
      ghost var seen := paths.Keys + {path};
      assert Elements(queue) + seen == Elements(popped) + paths.Keys;
      PendingContent(w, initial, Elements(queue) + seen, staged, copied, path);
      var content := if path in w.files then w.files[path] else copied[path];
      var directories;
      var needs := w.dependencies(content);
      StartGrown(w, initial, seen, queue, staged, copied);
      ghost var queue1 := queue;
      ok, queue, staged, copied, directories := Scan(w, initial, path, needs, queue, seen, staged, copied);
      if !ok {
        NotResolvable(w, initial, path);
        return;
      }
      DoneStep(w, initial, staged1, staged, paths, path);
      paths := paths[path := directories];
      assert paths.Keys == seen;
      Progress(w, staged1, staged);
    }
    FinishedIsComplete(w, initial, staged, copied, paths);
    CompleteIsResolvable(w, initial, copied, paths);
    ok := true;
  }

  lemma PendingContent(w: World, initial: seq<Path>, pending: set<Path>, staged: map<string, Path>,
                       copied: map<Path, Content>, path: Path)
    requires Pending(w, initial, pending, staged, copied) && path in pending
    ensures Reachable(w, initial, path) && (path in w.files || path in copied)
    ensures Needs(w, path) == w.dependencies(if path in w.files then w.files[path] else copied[path])
  {
    hide Reachable;
  }

  lemma StartGrown(w: World, initial: seq<Path>, seen: set<Path>, queue: seq<Path>, staged: map<string, Path>,
                   copied: map<Path, Content>)
    requires StagedWell(w, initial, staged) && Pending(w, initial, Elements(queue) + seen, staged, copied)
    ensures Grown(w, initial, seen, queue, staged, queue, staged, copied)
  {
    hide StagedWell, Pending, Names;
  }

  lemma NotResolvable(w: World, initial: seq<Path>, path: Path)
    requires Reachable(w, initial, path) && !Satisfied(w, initial, Needs(w, path))
    ensures !Resolvable(w, initial)
  {
    hide Reachable, Satisfied, Needs;
  }

  lemma Progress(w: World, before: map<string, Path>, after: map<string, Path>)
    requires before.Keys <= after.Keys <= before.Keys + Names(w)
    ensures after.Keys == before.Keys || Names(w) - after.Keys < Names(w) - before.Keys
  {
    hide Names;
    if after.Keys != before.Keys {
      var name :| name in after.Keys && name !in before.Keys;
      assert name in Names(w) - before.Keys && name !in Names(w) - after.Keys;
    }
  }
}
