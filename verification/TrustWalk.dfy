/** The walk that trusts a runtime path only if every entry on its route is trusted
    (app/main_sandbox.c:122-200). */
module TrustWalk {
  import opened Options
  import opened Paths

  const PATH_MAX := 4096
  const LINKS_MAX := 40

  /** What the walk demands of an entry it passes: owned by root, and unless it is a link, a file or
      directory that nobody else may write. */
  predicate TrustedEntry(e: Entry) {
    e.rootOwned && (e.kind.Symlink? || (!e.writable && (e.kind.Directory? || e.kind.Regular?)))
  }

  ghost predicate AllTrusted(fs: Tree, trail: seq<seq<Name>>) {
    forall i :: 0 <= i < |trail| ==> trail[i] in fs && TrustedEntry(fs[trail[i]])
  }

  predicate RootTrusted(fs: Tree) {
    [] in fs && fs[[]].rootOwned && !fs[[]].writable
  }

  /** Two trailing slashes: the only trailing slashes the walk takes as a demand for a directory. */
  predicate Demands(text: string) {
    |text| >= 2 && text[|text| - 1] == '/' && text[|text| - 2] == '/'
  }

  function FullPath(path: string, cwd: string): string {
    if Absolute(path) then path else cwd + "/" + path
  }

  /** The route a path takes is trusted: ordinary resolution finds it within 40 link expansions and
      every entry looked at on the way is trusted. */
  ghost predicate TrustedRoute(fs: Tree, text: string) {
    var o := Resolve(fs, [], Components(text), Demands(text), LINKS_MAX);
    RootTrusted(fs) && o.Resolved? && AllTrusted(fs, o.trail)
  }

  // ----- the walk on components: links are spliced into what remains -----

  function Spliced(rest: seq<Name>, demand: bool, target: string): bool {
    if rest == [] then demand || EndsWithSlash(target) else demand
  }

  function Walk(fs: Tree, dir: seq<Name>, comps: seq<Name>, demand: bool, left: nat): Outcome
    decreases left, |comps|
  {
    if comps == [] then Resolved(dir, left, [])
    else if comps[0] == "." then Walk(fs, dir, comps[1..], demand, left)
    else if comps[0] == ".." then Walk(fs, Parent(dir), comps[1..], demand, left)
    else
      var p, rest := dir + [comps[0]], comps[1..];
      if p !in fs || !TrustedEntry(fs[p]) then Unresolved
      else
        match fs[p].kind
        case Directory => Seen(p, Walk(fs, p, rest, demand, left))
        case Symlink(target) =>
          if left == 0 then Unresolved
          else Seen(p, Walk(fs, if Absolute(target) then [] else dir, Components(target) + rest,
                            Spliced(rest, demand, target), left - 1))
        case _ => if rest == [] && !demand then Resolved(p, left, [p]) else Unresolved
  }

  /** Continuing a walk after a part of the path has been resolved. */
  ghost function Continue(fs: Tree, o: Outcome, rest: seq<Name>, demand: bool): Outcome {
    if o.Unresolved? || !AllTrusted(fs, o.trail) then Unresolved
    else SeenAll(o.trail, Walk(fs, o.at, rest, demand, o.left))
  }

  lemma SeenNothing(o: Outcome)
    ensures SeenAll([], o) == o
  {
  }

  lemma ContinueSeen(fs: Tree, p: seq<Name>, o: Outcome, rest: seq<Name>, demand: bool)
    requires p in fs && TrustedEntry(fs[p])
    ensures Continue(fs, Seen(p, o), rest, demand) == Seen(p, Continue(fs, o, rest, demand))
  {
    if o.Resolved? {
      AllTrustedJoin(fs, [p], o.trail);
      var w := Walk(fs, o.at, rest, demand, o.left);
      if w.Resolved? {
        assert ([p] + o.trail) + w.trail == [p] + (o.trail + w.trail);
      }
    }
  }

  lemma AllTrustedJoin(fs: Tree, a: seq<seq<Name>>, b: seq<seq<Name>>)
    ensures AllTrusted(fs, a + b) <==> AllTrusted(fs, a) && AllTrusted(fs, b)
  {
    if AllTrusted(fs, a + b) {
      forall i | 0 <= i < |a|
        ensures a[i] in fs && TrustedEntry(fs[a[i]])
      {
        assert (a + b)[i] == a[i];
      }
      forall i | 0 <= i < |b|
        ensures b[i] in fs && TrustedEntry(fs[b[i]])
      {
        assert (a + b)[|a| + i] == b[i];
      }
    }
  }

  function LinkDemand(rest: seq<Name>, demand: bool, target: string): bool {
    rest != [] || demand || EndsWithSlash(target)
  }

  lemma DemandIrrelevant(fs: Tree, dir: seq<Name>, comps: seq<Name>, d: bool, d': bool, left: nat)
    requires comps == [] || d == d'
    ensures Walk(fs, dir, comps, d, left) == Walk(fs, dir, comps, d', left)
  {
  }

  /** The spliced walk agrees with ordinary resolution, one prefix of the path at a time. */
  lemma {:induction false} WalkFollowsResolve(fs: Tree, dir: seq<Name>, a: seq<Name>, b: seq<Name>, demand: bool,
                                              left: nat)
    ensures Walk(fs, dir, a + b, demand, left) ==
            Continue(fs, Resolve(fs, dir, a, b != [] || demand, left), b, demand)
    decreases left, |a|
  {
    if a == [] {
      assert a + b == b;
      SeenNothing(Walk(fs, dir, b, demand, left));
    } else {
      var rest := a[1..];
      assert (a + b)[0] == a[0] && (a + b)[1..] == rest + b;
      if a[0] == "." {
        WalkFollowsResolve(fs, dir, rest, b, demand, left);
      } else if a[0] == ".." {
        WalkFollowsResolve(fs, Parent(dir), rest, b, demand, left);
      } else {
        var p := dir + [a[0]];
        if p in fs {
          match fs[p].kind
          case Directory =>
            WalkFollowsResolve(fs, p, rest, b, demand, left);
            StepThrough(fs, p, Resolve(fs, p, rest, b != [] || demand, left), b, demand);
          case Symlink(target) =>
            if left > 0 {
              FollowLink(fs, dir, p, target, rest, b, demand, left);
            }
          case _ =>
            StepTo(fs, p, rest, b, demand, left);
        }
      }
    }
  }

  lemma StepThrough(fs: Tree, p: seq<Name>, o: Outcome, b: seq<Name>, demand: bool)
    requires p in fs
    ensures Continue(fs, Seen(p, o), b, demand) ==
            if TrustedEntry(fs[p]) then Seen(p, Continue(fs, o, b, demand)) else Unresolved
  {
    if TrustedEntry(fs[p]) {
      ContinueSeen(fs, p, o, b, demand);
    } else if o.Resolved? {
      assert (Seen(p, o).trail)[0] == p;
    }
  }

  lemma StepTo(fs: Tree, p: seq<Name>, rest: seq<Name>, b: seq<Name>, demand: bool, left: nat)
    requires p in fs && (fs[p].kind.Regular? || fs[p].kind.Other?)
    ensures Continue(fs, if rest == [] && !(b != [] || demand) then Resolved(p, left, [p]) else Unresolved, b,
                     demand) ==
            if TrustedEntry(fs[p]) && rest + b == [] && !demand then Resolved(p, left, [p]) else Unresolved
  {
    assert rest + b == [] <==> rest == [] && b == [];
    assert [p][0] == p;
    assert [p] + [] == [p];
  }

  lemma {:induction false} FollowLink(fs: Tree, dir: seq<Name>, p: seq<Name>, target: string,
                                      rest: seq<Name>, b: seq<Name>, demand: bool, left: nat)
    requires p in fs && fs[p].kind == Symlink(target) && left > 0
    ensures
      var from := if Absolute(target) then [] else dir;
      var inner := Resolve(fs, from, Components(target), LinkDemand(rest, b != [] || demand, target), left - 1);
      (if TrustedEntry(fs[p])
       then Seen(p, Walk(fs, from, Components(target) + (rest + b), Spliced(rest + b, demand, target), left - 1))
       else Unresolved) ==
      Continue(fs, if inner.Unresolved? then Unresolved
                   else SeenAll([p] + inner.trail, Resolve(fs, inner.at, rest, b != [] || demand, inner.left)),
               b, demand)
    decreases left, 0
  {
    var from := if Absolute(target) then [] else dir;
    var more := rest + b;
    var spliced := Spliced(more, demand, target);
    assert more == [] <==> rest == [] && b == [];
    WalkFollowsResolve(fs, from, Components(target), more, spliced, left - 1);
    var inner := Resolve(fs, from, Components(target), LinkDemand(rest, b != [] || demand, target), left - 1);
    assert LinkDemand(rest, b != [] || demand, target) == (more != [] || spliced);
    var next := Unresolved;
    if inner.Resolved? {
      WalkFollowsResolve(fs, inner.at, rest, b, demand, inner.left);
      DemandIrrelevant(fs, inner.at, more, spliced, demand, inner.left);
      next := Resolve(fs, inner.at, rest, b != [] || demand, inner.left);
    }
    FollowFinish(fs, p, inner, next, b, demand, more, spliced);
  }

  lemma FollowFinish(fs: Tree, p: seq<Name>, inner: Outcome, next: Outcome, b: seq<Name>, demand: bool,
                     more: seq<Name>, spliced: bool)
    requires p in fs
    requires inner.Resolved? ==> Walk(fs, inner.at, more, spliced, inner.left) == Continue(fs, next, b, demand)
    ensures (if TrustedEntry(fs[p]) then Seen(p, Continue(fs, inner, more, spliced)) else Unresolved) ==
            Continue(fs, if inner.Unresolved? then Unresolved else SeenAll([p] + inner.trail, next), b, demand)
  {
    if inner.Resolved? {
      JoinTrails(fs, p, inner.trail, next, b, demand);
    }
  }

  lemma JoinTrails(fs: Tree, p: seq<Name>, trail: seq<seq<Name>>, o: Outcome, b: seq<Name>, demand: bool)
    requires p in fs
    ensures Continue(fs, SeenAll([p] + trail, o), b, demand) ==
            if TrustedEntry(fs[p]) && AllTrusted(fs, trail) then Seen(p, SeenAll(trail, Continue(fs, o, b, demand)))
            else Unresolved
  {
    if o.Resolved? {
      AllTrustedJoin(fs, [p] + trail, o.trail);
      AllTrustedJoin(fs, [p], trail);
      assert [p][0] == p;
      var w := Walk(fs, o.at, b, demand, o.left);
      if w.Resolved? {
        assert (([p] + trail) + o.trail) + w.trail == [p] + (trail + (o.trail + w.trail));
      }
    }
  }

  /** The walk accepts exactly the paths that resolve over trusted entries only. */
  lemma WalkIsTrustedResolution(fs: Tree, dir: seq<Name>, comps: seq<Name>, demand: bool, left: nat)
    ensures var o := Resolve(fs, dir, comps, demand, left);
            Walk(fs, dir, comps, demand, left).Resolved? <==> o.Resolved? && AllTrusted(fs, o.trail)
  {
    assert comps + [] == comps;
    WalkFollowsResolve(fs, dir, comps, [], demand, left);
  }

  // ----- the walk on text -----

  /** The text the walk keeps for a resolved place; below the root it starts with two slashes, as
      joining to "/" makes it. */
  function CurrentText(p: seq<Name>): string {
    if p == [] then "/" else CurrentText(p[..|p| - 1]) + "/" + p[|p| - 1]
  }

  /** lstat of a text whose every component but the last is a real directory. */
  function Lstat(fs: Tree, text: string): Option<Entry> {
    var p := Components(text);
    if p in fs then Some(fs[p]) else None
  }

  lemma CurrentTextStep(p: seq<Name>, name: Name)
    ensures CurrentText(p + [name]) == CurrentText(p) + "/" + name
  {
    assert (p + [name])[..|p|] == p;
  }

  lemma {:induction false} ComponentsOfCurrent(p: seq<Name>)
    requires NamesOk(p)
    ensures Components(CurrentText(p)) == p
  {
    if p == [] {
      assert "/"[1..] == "";
      assert SkipSlashes("/") == "";
    } else {
      var init, name := p[..|p| - 1], p[|p| - 1];
      assert p == init + [name];
      ComponentsOfCurrent(init);
      CurrentTextStep(init, name);
      ComponentsJoin(CurrentText(init), name);
      ComponentsOfName(name);
    }
  }

  /** What lstat says of a name in a resolved directory. */
  lemma LstatOfChild(fs: Tree, p: seq<Name>, name: Name)
    requires WellFormed(fs) && p in fs && NameOk(name)
    ensures Lstat(fs, CurrentText(p) + "/" + name) == if p + [name] in fs then Some(fs[p + [name]]) else None
  {
    CurrentTextStep(p, name);
    ComponentsOfCurrent(p + [name]);
  }

  /** The last slash of a text that has one. */
  function LastSlash(text: string): (i: nat)
    requires '/' in text
    ensures i < |text| && text[i] == '/' && '/' !in text[i + 1..]
  {
    if text[|text| - 1] == '/' then |text| - 1
    else
      assert text == text[..|text| - 1] + [text[|text| - 1]];
      var i := LastSlash(text[..|text| - 1]);
      assert text[i + 1..] == text[..|text| - 1][i + 1..] + [text[|text| - 1]];
      i
  }

  /** `..` cuts the text back to the parent's. */
  method ParentText(current: string, ghost p: seq<Name>) returns (out: string)
    requires current == CurrentText(p) && NamesOk(p)
    ensures out == CurrentText(Parent(p))
  {
    CurrentLastSlash(p);
    var slash := LastSlash(current);
    if slash == 0 {
      out := current[..1];
    } else {
      out := current[..slash];
    }
  }

  lemma CurrentLastSlash(p: seq<Name>)
    requires NamesOk(p)
    ensures '/' in CurrentText(p)
    ensures p == [] ==> LastSlash(CurrentText(p)) == 0 && CurrentText(p)[..1] == CurrentText(p)
    ensures p != [] ==>
              0 < LastSlash(CurrentText(p)) && CurrentText(p)[..LastSlash(CurrentText(p))] == CurrentText(Parent(p))
  {
    if p == [] {
      LastSlashIs("", "");
    } else {
      LastSlashIs(CurrentText(Parent(p)), p[|p| - 1]);
      CurrentNotEmpty(Parent(p));
    }
  }

  lemma CurrentNotEmpty(p: seq<Name>)
    ensures CurrentText(p) != ""
  {
  }

  lemma LastSlashIs(head: string, name: string)
    requires '/' !in name
    ensures '/' in head + "/" + name
    ensures LastSlash(head + "/" + name) == |head| && (head + "/" + name)[..|head|] == head
  {
    var t := head + "/" + name;
    assert t[|head|] == '/';
    var i := LastSlash(t);
    NoSlashFrom(t, i + 1);
    assert t[|head| + 1..] == name;
    NoSlashFrom(t, |head| + 1);
  }

  lemma NoSlashFrom(t: string, k: nat)
    requires k <= |t| && '/' !in t[k..]
    ensures forall j :: k <= j < |t| ==> t[j] != '/'
  {
    forall j | k <= j < |t|
      ensures t[j] != '/'
    {
      assert t[j] == t[k..][j - k];
    }
  }

  // ----- one component of the text at a time -----

  /** What remains after the first component: the source overwrites one slash. */
  function AfterHead(part: string): (rest: string)
    ensures part != "" && part[0] != '/' ==> |rest| < |part|
  {
    var n := HeadLength(part);
    if n < |part| then part[n + 1..] else ""
  }

  lemma HeadAndRest(part: string)
    requires part != "" && part[0] != '/'
    ensures HeadLength(part) > 0 && '/' !in part[..HeadLength(part)]
    ensures Components(part) == [part[..HeadLength(part)]] + Components(AfterHead(part))
    ensures |AfterHead(part)| < |part|
  {
    var n := HeadLength(part);
    FirstComponent(part);
    if n < |part| {
      assert part[n..] == "/" + AfterHead(part);
      LeadingSlash(AfterHead(part));
    } else {
      assert part[n..] == "";
    }
  }

  lemma {:induction false} DemandsSkip(text: string)
    requires SkipSlashes(text) != ""
    ensures Demands(SkipSlashes(text)) == Demands(text)
    decreases |text|
  {
    if text[0] == '/' {
      DemandsSkip(text[1..]);
      if |text| == 2 {
        assert text[1..][1..] == "";
      }
    }
  }

  /** A demand carries over to what follows a component, and a component that is last is demanded to
      be a directory exactly when some text is left after it. */
  lemma DemandsRest(part: string)
    requires part != "" && part[0] != '/'
    ensures Components(AfterHead(part)) != [] ==> Demands(AfterHead(part)) == Demands(part)
    ensures Components(AfterHead(part)) == [] ==> (Demands(part) <==> AfterHead(part) != "")
  {
    if AfterHead(part) == "" {
      LastOfHead(part);
    } else {
      HeadSplit(part);
      DemandsAfter(Head(part), AfterHead(part));
    }
  }

  function Head(t: string): string {
    t[..HeadLength(t)]
  }

  lemma HeadSplit(part: string)
    requires part != "" && part[0] != '/' && AfterHead(part) != ""
    ensures Head(part) != "" && part == Head(part) + "/" + AfterHead(part)
  {
  }

  lemma DemandsAfter(head: string, rest: string)
    requires head != "" && rest != ""
    ensures Components(rest) != [] ==> Demands(rest) == Demands(head + "/" + rest)
    ensures Components(rest) == [] ==> Demands(head + "/" + rest)
  {
    var t := head + "/" + rest;
    assert t[|t| - 1] == rest[|rest| - 1];
    if Components(rest) == [] {
      OnlySlashes(rest);
    } else if |rest| == 1 {
      LoneName(rest);
    }
  }

  lemma LastOfHead(part: string)
    requires part != "" && part[0] != '/' && AfterHead(part) == ""
    ensures !Demands(part) && Components("") == []
  {
    var n := HeadLength(part);
    assert n >= |part| - 1;
    assert part[n - 1] in part[..n];
  }

  lemma {:induction false} OnlySlashes(text: string)
    requires Components(text) == []
    ensures forall i :: 0 <= i < |text| ==> text[i] == '/'
    decreases |text|
  {
    if text != "" {
      assert text[0] == '/';
      SkipIsStable(text);
      SkipIsStable(text[1..]);
      OnlySlashes(text[1..]);
      forall i | 0 <= i < |text|
        ensures text[i] == '/'
      {
        if i > 0 {
          assert text[i] == text[1..][i - 1];
        }
      }
    }
  }

  lemma LoneName(text: string)
    requires |text| == 1 && Components(text) != []
    ensures text[0] != '/'
  {
    assert text == [text[0]];
    LoneSlash();
  }

  /** Splicing a link's text in front of the rest splices its components, and the demand with it. */
  lemma SplicedText(target: string, rest: string, demand: bool)
    requires target != ""
    requires Components(rest) != [] ==> Demands(rest) == demand
    requires Components(rest) == [] ==> (demand <==> rest != "")
    ensures Components(target + "/" + rest) == Components(target) + Components(rest)
    ensures Demands(target + "/" + rest) == Spliced(Components(rest), demand, target)
  {
    ComponentsJoin(target, rest);
    var t := target + "/" + rest;
    if Components(rest) == [] {
      OnlySlashes(rest);
    } else if |rest| == 1 {
      LoneName(rest);
    }
  }

  // ----- the method -----

  datatype Verdict = Trusted | Refused | GaveUp   // the source returns 0, -1 and -1

  /** The entry at the text's head makes a text that is too long: its own path, or what its link is
      expanded to. */
  predicate EntryOutgrows(fs: Tree, dir: seq<Name>, t: string, left: nat) {
    var p := dir + [Head(t)];
    || |CurrentText(dir)| + 1 + |Head(t)| >= PATH_MAX
    || (&& p in fs && TrustedEntry(fs[p]) && fs[p].kind.Symlink? && left > 0
        && (|fs[p].kind.target| >= PATH_MAX - 1 || |fs[p].kind.target| + 1 + |AfterHead(t)| >= PATH_MAX))
  }

  /** Some entry on the way makes a text that is too long. */
  predicate Outgrows(fs: Tree, dir: seq<Name>, text: string, left: nat)
    decreases left, |text|
  {
    var t := SkipSlashes(text);
    t != "" &&
    if Head(t) == "." then Outgrows(fs, dir, AfterHead(t), left)
    else if Head(t) == ".." then Outgrows(fs, Parent(dir), AfterHead(t), left)
    else
      || EntryOutgrows(fs, dir, t, left)
      || (var p := dir + [Head(t)];
          p in fs && TrustedEntry(fs[p]) &&
          match fs[p].kind
          case Directory => Outgrows(fs, p, AfterHead(t), left)
          case Symlink(target) =>
            left > 0 && Outgrows(fs, if Absolute(target) then [] else dir, target + "/" + AfterHead(t), left - 1)
          case _ => false)
  }

  /** The path so far, what is left of the text, and the links that may still be spliced in. */
  predicate Room(dir: seq<Name>, text: string, left: nat, longest: nat) {
    text != "" ==> |CurrentText(dir)| + 1 + |text| + left * (longest + 1) < PATH_MAX
  }

  lemma RoomForChild(dir: seq<Name>, t: string, left: nat, longest: nat)
    requires t != "" && t[0] != '/' && Room(dir, t, left, longest)
    ensures |CurrentText(dir)| + 1 + |Head(t)| < PATH_MAX && Room(dir, AfterHead(t), left, longest)
    ensures Room(Parent(dir), AfterHead(t), left, longest) && Room(dir + [Head(t)], AfterHead(t), left, longest)
  {
    hide CurrentText;
    RestLength(t);
    ParentIsShorter(dir);
    ChildText(dir, Head(t));
    NotNegative(left, longest);
  }

  lemma NotNegative(left: nat, longest: nat)
    ensures left * (longest + 1) >= 0
    ensures left > 0 ==> left * (longest + 1) == (left - 1) * (longest + 1) + longest + 1 > longest
  {
    if left > 0 {
      assert left * (longest + 1) == (left - 1) * (longest + 1) + (longest + 1);
      NotNegative(left - 1, longest);
    }
  }

  lemma RoomForLink(dir: seq<Name>, t: string, left: nat, longest: nat, target: string)
    requires t != "" && t[0] != '/' && Room(dir, t, left, longest) && left > 0 && |target| <= longest
    ensures |target| < PATH_MAX - 1 && |target| + 1 + |AfterHead(t)| < PATH_MAX
    ensures Room(dir, target + "/" + AfterHead(t), left - 1, longest)
    ensures Room([], target + "/" + AfterHead(t), left - 1, longest)
  {
    RestLength(t);
    CurrentNotEmpty(dir);
    NotNegative(left, longest);
    NotNegative(left - 1, longest);
  }

  lemma RoomSkips(dir: seq<Name>, text: string, left: nat, longest: nat)
    requires Room(dir, text, left, longest)
    ensures Room(dir, SkipSlashes(text), left, longest)
  {
  }

  /** No text on the way is too long when the path and the links it can pass leave room for all. */
  lemma {:induction false} ShortPathsFit(fs: Tree, dir: seq<Name>, text: string, left: nat, longest: nat)
    requires forall p <- fs.Keys :: fs[p].kind.Symlink? ==> |fs[p].kind.target| <= longest
    requires Room(dir, text, left, longest)
    ensures !Outgrows(fs, dir, text, left)
    decreases left, |text|
  {
    hide Room, CurrentText;
    var t := SkipSlashes(text);
    RoomSkips(dir, text, left, longest);
    if t != "" {
      var p, rest := dir + [Head(t)], AfterHead(t);
      RoomForChild(dir, t, left, longest);
      if Head(t) == "." {
        ShortPathsFit(fs, dir, rest, left, longest);
      } else if Head(t) == ".." {
        ShortPathsFit(fs, Parent(dir), rest, left, longest);
      } else if p in fs && TrustedEntry(fs[p]) {
        match fs[p].kind
        case Directory =>
          ShortPathsFit(fs, p, rest, left, longest);
        case Symlink(target) =>
          if left > 0 {
            RoomForLink(dir, t, left, longest, target);
            ShortPathsFit(fs, if Absolute(target) then [] else dir, target + "/" + rest, left - 1, longest);
          }
        case _ =>
      }
    }
  }

  lemma RestLength(t: string)
    requires t != "" && t[0] != '/'
    ensures |Head(t)| <= |t| && (AfterHead(t) != "" ==> |Head(t)| + 1 + |AfterHead(t)| == |t|)
  {
  }

  lemma ParentIsShorter(dir: seq<Name>)
    ensures |CurrentText(Parent(dir))| <= |CurrentText(dir)|
  {
  }

  lemma ChildText(dir: seq<Name>, name: Name)
    ensures |CurrentText(dir + [name])| == |CurrentText(dir)| + 1 + |name|
  {
    CurrentTextStep(dir, name);
  }

  /** Why the walk of a path gives up: there is no working directory to start from, or a text on the
      way does not fit PATH_MAX. */
  predicate TooLong(fs: Tree, path: string, workingDirectory: Option<string>) {
    || |path| >= PATH_MAX
    || (!Absolute(path) &&
        (workingDirectory.None? || |workingDirectory.value| + 1 + |path| >= PATH_MAX))
    || (&& RootTrusted(fs)
        && Outgrows(fs, [], FullPath(path, if Absolute(path) then "" else workingDirectory.value), LINKS_MAX))
  }

  /** A path that leaves room for forty of the longest links there are is always answered. */
  lemma ShortPathsAreAnswered(fs: Tree, path: string, workingDirectory: Option<string>, longest: nat)
    requires forall p <- fs.Keys :: fs[p].kind.Symlink? ==> |fs[p].kind.target| <= longest
    requires Absolute(path) || workingDirectory.Some?
    requires var text := FullPath(path, if Absolute(path) then "" else workingDirectory.value);
             |text| + LINKS_MAX * (longest + 1) + 2 < PATH_MAX
    ensures !TooLong(fs, path, workingDirectory)
  {
    ShortPathsFit(fs, [], FullPath(path, if Absolute(path) then "" else workingDirectory.value), LINKS_MAX, longest);
  }

  /** trusted_ancestors. Unless a text is too long its answer is exactly whether the route is trusted. */
  method TrustedAncestors(fs: Tree, path: string, workingDirectory: Option<string>) returns (v: Verdict)
    requires WellFormed(fs)
    ensures v.GaveUp? <==> path != "" && TooLong(fs, path, workingDirectory)
    ensures v.Trusted? ==> path != "" && (Absolute(path) || workingDirectory.Some?)
    ensures v.Trusted? ==> TrustedRoute(fs, FullPath(path, if Absolute(path) then "" else workingDirectory.value))
    ensures v.Trusted? ==> TrustedRoute(fs, if path[0] == '/' then path else workingDirectory.value + "/" + path)
    ensures v.Refused? && path != "" ==> Absolute(path) || workingDirectory.Some?
    ensures v.Refused? && path != "" ==>
              !TrustedRoute(fs, FullPath(path, if Absolute(path) then "" else workingDirectory.value))
  {
    if path == "" {
      return Refused;
    }
    if |path| >= PATH_MAX {
      return GaveUp;
    }
    var pending := path;
    if path[0] != '/' {
      if workingDirectory.None? {
        return GaveUp;
      }
      pending := workingDirectory.value + "/" + path;
      if |pending| >= PATH_MAX {
        return GaveUp;
      }
    }
    if !fs[[]].rootOwned || fs[[]].writable {
      return Refused;
    }
    WalkIsTrustedResolution(fs, [], Components(pending), Demands(pending), LINKS_MAX);
    v := WalkText(fs, pending);
  }

  /** Whether the walk goes through from a place with some text left. */
  predicate Accepts(fs: Tree, dir: seq<Name>, part: string, left: nat) {
    Walk(fs, dir, Components(part), Demands(part), left).Resolved?
  }

  lemma AcceptsSkips(fs: Tree, dir: seq<Name>, part: string, left: nat)
    ensures SkipSlashes(part) == "" ==> Accepts(fs, dir, part, left)
    ensures Accepts(fs, dir, part, left) == Accepts(fs, dir, SkipSlashes(part), left)
  {
    SkipIsStable(part);
    if SkipSlashes(part) != "" {
      DemandsSkip(part);
    }
    DemandIrrelevant(fs, dir, Components(part), Demands(part), Demands(SkipSlashes(part)), left);
  }

  /** The walk on text, unfolded for a first component that moves within the tree already seen. */
  lemma AcceptsDots(fs: Tree, dir: seq<Name>, t: string, left: nat)
    requires t != "" && t[0] != '/'
    ensures Head(t) == "." ==> Accepts(fs, dir, t, left) == Accepts(fs, dir, AfterHead(t), left)
    ensures Head(t) == ".." ==> Accepts(fs, dir, t, left) == Accepts(fs, Parent(dir), AfterHead(t), left)
  {
    HeadAndRest(t);
    DemandsRest(t);
    var comps := Components(t);
    assert comps[0] == Head(t) && comps[1..] == Components(AfterHead(t));
    DemandIrrelevant(fs, dir, comps[1..], Demands(t), Demands(AfterHead(t)), left);
    DemandIrrelevant(fs, Parent(dir), comps[1..], Demands(t), Demands(AfterHead(t)), left);
  }

  lemma AcceptsUnfold(fs: Tree, dir: seq<Name>, t: string, left: nat)
    requires t != "" && t[0] != '/' && Head(t) != "." && Head(t) != ".."
    ensures Walk(fs, dir, Components(t), Demands(t), left) ==
            Walk(fs, dir, [Head(t)] + Components(AfterHead(t)), Demands(t), left)
    ensures ([Head(t)] + Components(AfterHead(t)))[1..] == Components(AfterHead(t))
  {
    HeadAndRest(t);
  }

  /** The walk on text, unfolded for a first component that names an entry. */
  lemma AcceptsEntry(fs: Tree, dir: seq<Name>, t: string, left: nat)
    requires t != "" && t[0] != '/' && Head(t) != "." && Head(t) != ".."
    ensures dir + [Head(t)] !in fs || !TrustedEntry(fs[dir + [Head(t)]]) ==> !Accepts(fs, dir, t, left)
    ensures dir + [Head(t)] in fs && TrustedEntry(fs[dir + [Head(t)]]) && fs[dir + [Head(t)]].kind.Directory? ==>
              Accepts(fs, dir, t, left) == Accepts(fs, dir + [Head(t)], AfterHead(t), left)
    ensures dir + [Head(t)] in fs && TrustedEntry(fs[dir + [Head(t)]]) && fs[dir + [Head(t)]].kind.Regular? ==>
              Accepts(fs, dir, t, left) == (AfterHead(t) == "")
    ensures dir + [Head(t)] in fs && TrustedEntry(fs[dir + [Head(t)]]) && fs[dir + [Head(t)]].kind.Symlink? ==>
              var target := fs[dir + [Head(t)]].kind.target;
              target != "" ==>
                Accepts(fs, dir, t, left) ==
                (left > 0 && Accepts(fs, if Absolute(target) then [] else dir, target + "/" + AfterHead(t), left - 1))
  {
    var p, rest := dir + [Head(t)], AfterHead(t);
    AcceptsUnfold(fs, dir, t, left);
    DemandsRest(t);
    if p in fs && TrustedEntry(fs[p]) {
      match fs[p].kind
      case Directory => DemandIrrelevant(fs, p, Components(rest), Demands(t), Demands(rest), left);
      case Symlink(target) =>
        if target != "" {
          SplicedText(target, rest, Demands(t));
        }
      case Regular => NoComponents();
      case Other =>
    }
  }

  lemma NoComponents()
    ensures Components("") == []
  {
  }

  lemma HeadIsName(t: string)
    requires t != "" && t[0] != '/' && Head(t) != "." && Head(t) != ".."
    ensures NameOk(Head(t))
  {
    HeadAndRest(t);
  }

  lemma ParentPlaced(fs: Tree, dir: seq<Name>)
    requires IsTree(fs) && dir in fs && fs[dir].kind.Directory?
    ensures Parent(dir) in fs && fs[Parent(dir)].kind.Directory?
  {
  }

  /** The outcome of looking at one named entry: a verdict, or where the walk goes on. */
  datatype Round = Done(verdict: Verdict) | Onward(current: string, links: nat, part: string)

  /** What inspecting the entry named by the text's head may lead to. */
  ghost predicate RoundFits(fs: Tree, dir: seq<Name>, part: string, links: nat, r: Round, at: seq<Name>)
    requires links <= LINKS_MAX
  {
    var p, rest := dir + [Head(part)], AfterHead(part);
    var usable := p in fs && TrustedEntry(fs[p]);
    match r
    case Done(v) =>
      !v.Trusted? && (v.GaveUp? <==> EntryOutgrows(fs, dir, part, LINKS_MAX - links)) &&
      (v.Refused? ==>
         !usable || (fs[p].kind.Symlink? && links == LINKS_MAX) || (fs[p].kind.Regular? && rest != ""))
    case Onward(_, links', part') =>
      usable && !EntryOutgrows(fs, dir, part, LINKS_MAX - links) &&
      match fs[p].kind {
        case Directory => at == p && links' == links && part' == rest
        case Regular => at == p && links' == links && part' == rest == ""
        case Symlink(target) =>
          && links < LINKS_MAX && links' == links + 1 && part' == target + "/" + rest
          && at == if Absolute(target) then [] else dir
        case Other => false
      }
  }

  lemma RoundAccepts(fs: Tree, dir: seq<Name>, part: string, links: nat, r: Round, at: seq<Name>)
    requires part != "" && part[0] != '/' && Head(part) != "." && Head(part) != ".."
    requires links <= LINKS_MAX && WellFormed(fs) && RoundFits(fs, dir, part, links, r, at)
    ensures r == Done(Refused) ==> !Accepts(fs, dir, part, LINKS_MAX - links)
    ensures r.Onward? ==>
              && links <= r.links <= LINKS_MAX
              && Accepts(fs, dir, part, LINKS_MAX - links) == Accepts(fs, at, r.part, LINKS_MAX - r.links)
  {
    hide Outgrows, EntryOutgrows, Accepts, IsTree, NamesOk;
    var p := dir + [Head(part)];
    AcceptsEntry(fs, dir, part, LINKS_MAX - links);
    if r.Onward? && fs[p].kind.Regular? {
      NothingLeft(fs, at, r.part, LINKS_MAX - links);
    }
  }

  lemma RoundOutgrows(fs: Tree, dir: seq<Name>, part: string, links: nat, r: Round, at: seq<Name>)
    requires part != "" && part[0] != '/' && Head(part) != "." && Head(part) != ".."
    requires links <= LINKS_MAX && RoundFits(fs, dir, part, links, r, at)
    ensures r.Done? ==> (r.verdict.GaveUp? <==> Outgrows(fs, dir, part, LINKS_MAX - links))
    ensures r.Onward? && r.links <= LINKS_MAX ==>
              Outgrows(fs, dir, part, LINKS_MAX - links) == Outgrows(fs, at, r.part, LINKS_MAX - r.links)
  {
    assert SkipSlashes(part) == part && SkipSlashes("") == "";
  }

  lemma OutgrowsSkips(fs: Tree, dir: seq<Name>, part: string, left: nat)
    ensures Outgrows(fs, dir, part, left) == Outgrows(fs, dir, SkipSlashes(part), left)
    ensures SkipSlashes(part) == "" ==> !Outgrows(fs, dir, part, left)
  {
    assert SkipSlashes(SkipSlashes(part)) == SkipSlashes(part);
  }

  lemma OutgrowsDots(fs: Tree, dir: seq<Name>, t: string, left: nat)
    requires t != "" && t[0] != '/'
    ensures Head(t) == "." ==> Outgrows(fs, dir, t, left) == Outgrows(fs, dir, AfterHead(t), left)
    ensures Head(t) == ".." ==> Outgrows(fs, dir, t, left) == Outgrows(fs, Parent(dir), AfterHead(t), left)
  {
    assert SkipSlashes(t) == t;
  }

  lemma NothingLeft(fs: Tree, dir: seq<Name>, rest: string, left: nat)
    ensures rest == "" ==> Accepts(fs, dir, rest, left)
  {
    NoComponents();
  }

  /** The part of the loop's body that inspects an entry. */
  method InspectEntry(fs: Tree, current: string, links: nat, part: string, ghost dir: seq<Name>)
    returns (r: Round, ghost at: seq<Name>)
    requires WellFormed(fs) && dir in fs && fs[dir].kind.Directory? && current == CurrentText(dir)
    requires links <= LINKS_MAX
    requires part != "" && part[0] != '/' && Head(part) != "." && Head(part) != ".."
    ensures RoundFits(fs, dir, part, links, r, at)
    ensures r.Onward? ==> at in fs && r.current == CurrentText(at) && (fs[at].kind.Directory? || r.part == "")
  {
    at := dir;
    var name, rest := Head(part), AfterHead(part);
    HeadIsName(part);
    LstatOfChild(fs, dir, name);
    var next := current + "/" + name;
    if |next| >= PATH_MAX {
      return Done(GaveUp), at;
    }
    var found := Lstat(fs, next);
    if found.None? || !found.value.rootOwned || (!found.value.kind.Symlink? && found.value.writable) {
      return Done(Refused), at;
    }
    match found.value.kind
    case Symlink(target) =>
      if links + 1 > LINKS_MAX {
        return Done(Refused), at;
      }
      var expanded := target + "/" + rest;
      if |target| >= PATH_MAX - 1 || |expanded| >= PATH_MAX {
        return Done(GaveUp), at;
      }
      if target[0] == '/' {
        return Onward("/", links + 1, expanded), [];
      }
      return Onward(current, links + 1, expanded), dir;
    case Other =>
      return Done(Refused), at;
    case _ =>
      if rest != "" && !found.value.kind.Directory? {
        return Done(Refused), at;
      }
      CurrentTextStep(dir, name);
      return Onward(next, links, rest), dir + [name];
  }

  /** A place the walk can be in: a directory, or anything once no text is left. */
  ghost predicate PlaceFits(fs: Tree, current: string, part: string, dir: seq<Name>) {
    dir in fs && current == CurrentText(dir) && (fs[dir].kind.Directory? || part == "")
  }

  /** What one turn of the loop may do to the question whether the walk goes through. */
  ghost predicate RoundKeeps(fs: Tree, dir: seq<Name>, part: string, links: nat, r: Round, at: seq<Name>)
    requires links <= LINKS_MAX
  {
    match r
    case Done(v) =>
      && (v.Trusted? ==> Accepts(fs, dir, part, LINKS_MAX - links))
      && (v.Refused? ==> !Accepts(fs, dir, part, LINKS_MAX - links))
      && (v.GaveUp? <==> Outgrows(fs, dir, part, LINKS_MAX - links))
    case Onward(current', links', part') =>
      && links <= links' <= LINKS_MAX && (links' == links ==> |part'| < |part|)
      && PlaceFits(fs, current', part', at)
      && Accepts(fs, dir, part, LINKS_MAX - links) == Accepts(fs, at, part', LINKS_MAX - links')
      && Outgrows(fs, dir, part, LINKS_MAX - links) == Outgrows(fs, at, part', LINKS_MAX - links')
  }

  method DotsRound(fs: Tree, current: string, links: nat, t: string, ghost dir: seq<Name>)
    returns (r: Round, ghost at: seq<Name>)
    requires WellFormed(fs) && PlaceFits(fs, current, t, dir) && links <= LINKS_MAX
    requires t != "" && t[0] != '/' && (Head(t) == "." || Head(t) == "..")
    ensures RoundKeeps(fs, dir, t, links, r, at)
  {
    hide Accepts, Outgrows;
    HeadAndRest(t);
    AcceptsDots(fs, dir, t, LINKS_MAX - links);
    OutgrowsDots(fs, dir, t, LINKS_MAX - links);
    if Head(t) == "." {
      return Onward(current, links, AfterHead(t)), dir;
    }
    ParentPlaced(fs, dir);
    var parent := ParentText(current, dir);
    return Onward(parent, links, AfterHead(t)), Parent(dir);
  }

  method EntryRound(fs: Tree, current: string, links: nat, t: string, ghost dir: seq<Name>)
    returns (r: Round, ghost at: seq<Name>)
    requires WellFormed(fs) && PlaceFits(fs, current, t, dir) && links <= LINKS_MAX
    requires t != "" && t[0] != '/' && Head(t) != "." && Head(t) != ".."
    ensures RoundKeeps(fs, dir, t, links, r, at)
  {
    hide Accepts, Outgrows, RoundFits, EntryOutgrows;
    HeadAndRest(t);
    r, at := InspectEntry(fs, current, links, t, dir);
    RoundAccepts(fs, dir, t, links, r, at);
    RoundOutgrows(fs, dir, t, links, r, at);
  }

  method WalkRound(fs: Tree, current: string, links: nat, part: string, ghost dir: seq<Name>)
    returns (r: Round, ghost at: seq<Name>)
    requires WellFormed(fs) && PlaceFits(fs, current, part, dir) && links <= LINKS_MAX
    ensures RoundKeeps(fs, dir, part, links, r, at)
  {
    hide Accepts, Outgrows;
    var t := SkipSlashes(part);
    if t == "" {
      r, at := Done(Trusted), dir;
    } else if Head(t) == "." || Head(t) == ".." {
      r, at := DotsRound(fs, current, links, t, dir);
    } else {
      r, at := EntryRound(fs, current, links, t, dir);
    }
    RoundSkips(fs, dir, part, t, links, r, at);
  }

  lemma RoundSkips(fs: Tree, dir: seq<Name>, part: string, t: string, links: nat, r: Round, at: seq<Name>)
    requires links <= LINKS_MAX && t == SkipSlashes(part)
    requires if t == "" then r == Done(Trusted) else RoundKeeps(fs, dir, t, links, r, at)
    ensures RoundKeeps(fs, dir, part, links, r, at)
  {
    hide Accepts, Outgrows;
    AcceptsSkips(fs, dir, part, LINKS_MAX - links);
    OutgrowsSkips(fs, dir, part, LINKS_MAX - links);
  }

  /** The loop over the pending text. */
  method WalkText(fs: Tree, pending: string) returns (v: Verdict)
    requires WellFormed(fs)
    ensures v.Trusted? ==> Accepts(fs, [], pending, LINKS_MAX)
    ensures v.Refused? ==> !Accepts(fs, [], pending, LINKS_MAX)
    ensures v.GaveUp? <==> Outgrows(fs, [], pending, LINKS_MAX)
  {
    hide Accepts, Outgrows;
    var current, links: nat, part := "/", 0, pending;
    ghost var dir: seq<Name>, goal := [], Accepts(fs, [], pending, LINKS_MAX);
    ghost var long := Outgrows(fs, [], pending, LINKS_MAX);
    while true
      invariant links <= LINKS_MAX && PlaceFits(fs, current, part, dir)
      invariant goal == Accepts(fs, dir, part, LINKS_MAX - links)
      invariant long == Outgrows(fs, dir, part, LINKS_MAX - links)
      decreases LINKS_MAX - links, |part|
    {
      var r;
      r, dir := WalkRound(fs, current, links, part, dir);
      if r.Done? {
        return r.verdict;
      }
      current, links, part := r.current, r.links, r.part;
    }
  }

  // ----- against the standard's rule for trailing slashes -----

  /** What the standard says of a path text: a trailing slash demands a directory. */
  predicate StandardResolves(fs: Tree, text: string) {
    text != "" && Resolve(fs, [], Components(text), EndsWithSlash(text), LINKS_MAX).Resolved?
  }

  function DirectoriesOnly(fs: Tree, o: Outcome): Outcome {
    if o.Resolved? && o.at in fs && fs[o.at].kind.Directory? then o else Unresolved
  }

  lemma FilterSeen(fs: Tree, p: seq<Name>, o: Outcome)
    ensures DirectoriesOnly(fs, Seen(p, o)) == Seen(p, DirectoriesOnly(fs, o))
  {
  }

  lemma FilterSeenAll(fs: Tree, ps: seq<seq<Name>>, o: Outcome)
    ensures DirectoriesOnly(fs, SeenAll(ps, o)) == SeenAll(ps, DirectoriesOnly(fs, o))
  {
  }

  /** Demanding a directory only filters what is found. */
  lemma {:induction false} DirectoryDemand(fs: Tree, dir: seq<Name>, comps: seq<Name>, left: nat)
    requires IsTree(fs) && dir in fs && fs[dir].kind.Directory?
    ensures Resolve(fs, dir, comps, false, left).Resolved? ==> Resolve(fs, dir, comps, false, left).at in fs
    ensures Resolve(fs, dir, comps, true, left) == DirectoriesOnly(fs, Resolve(fs, dir, comps, false, left))
    decreases left, |comps|, 0
  {
    if comps != [] {
      var c, rest := comps[0], comps[1..];
      if c == "." {
        DirectoryDemand(fs, dir, rest, left);
      } else if c == ".." {
        ParentPlaced(fs, dir);
        DirectoryDemand(fs, Parent(dir), rest, left);
      } else {
        EntryDemand(fs, dir, c, rest, comps, left);
      }
    }
  }

  lemma {:induction false} EntryDemand(fs: Tree, dir: seq<Name>, c: Name, rest: seq<Name>, comps: seq<Name>, left: nat)
    requires IsTree(fs) && dir in fs && fs[dir].kind.Directory?
    requires comps != [] && c == comps[0] && rest == comps[1..] && c != "." && c != ".."
    ensures Resolve(fs, dir, comps, false, left).Resolved? ==> Resolve(fs, dir, comps, false, left).at in fs
    ensures Resolve(fs, dir, comps, true, left) == DirectoriesOnly(fs, Resolve(fs, dir, comps, false, left))
    decreases left, |rest|, 1
  {
    hide Components;
    var p := dir + [c];
    if p in fs {
      match fs[p].kind
      case Directory =>
        DirectoryDemand(fs, p, rest, left);
        FilterSeen(fs, p, Resolve(fs, p, rest, false, left));
      case Symlink(target) =>
        if left > 0 {
          LinkDirectoryDemand(fs, p, if Absolute(target) then [] else dir, target, rest, left);
        }
      case Regular =>
      case Other =>
    }
  }

  function ThroughLink(fs: Tree, p: seq<Name>, inner: Outcome, rest: seq<Name>, demand: bool): Outcome {
    if inner.Resolved? then SeenAll([p] + inner.trail, Resolve(fs, inner.at, rest, demand, inner.left)) else Unresolved
  }

  lemma {:induction false} LinkDirectoryDemand(fs: Tree, p: seq<Name>, from: seq<Name>, target: string,
                                               rest: seq<Name>, left: nat)
    requires IsTree(fs) && from in fs && fs[from].kind.Directory? && left > 0
    ensures
      var link := Resolve(fs, from, Components(target), LinkDemand(rest, false, target), left - 1);
      var any := ThroughLink(fs, p, link, rest, false);
      && (any.Resolved? ==> any.at in fs)
      && ThroughLink(fs, p, Resolve(fs, from, Components(target), true, left - 1), rest, true)
         == DirectoriesOnly(fs, any)
    decreases left, 0, 0
  {
    DirectoryDemand(fs, from, Components(target), left - 1);
    var inner := Resolve(fs, from, Components(target), LinkDemand(rest, false, target), left - 1);
    if inner.Resolved? && fs[inner.at].kind.Directory? {
      DirectoryDemand(fs, inner.at, rest, inner.left);
      FilterSeenAll(fs, [p] + inner.trail, Resolve(fs, inner.at, rest, false, inner.left));
    }
  }

  /** The place a trusted route leads to. */
  ghost function Destination(fs: Tree, text: string): seq<Name>
    requires TrustedRoute(fs, text)
  {
    Resolve(fs, [], Components(text), Demands(text), LINKS_MAX).at
  }

  /** A path the walk accepts also resolves by the standard's rules, except exactly when it has a
      trailing slash and leads to a regular file. */
  lemma TrustedResolvesUnlessFileWithSlash(fs: Tree, text: string)
    requires IsTree(fs) && TrustedRoute(fs, text) && text != ""
    ensures Destination(fs, text) in fs
    ensures StandardResolves(fs, text) <==> !(EndsWithSlash(text) && !fs[Destination(fs, text)].kind.Directory?)
  {
    DirectoryDemand(fs, [], Components(text), LINKS_MAX);
  }

  lemma OneName()
    ensures Components("/f/") == ["f"]
  {
    LeadingSlash("f/");
    assert "/" + "f/" == "/f/";
    ComponentsJoin("f", "");
    assert "f" + "/" + "" == "f/";
    ComponentsOfName("f");
    NoComponents();
  }

  /** Such a path exists: a root-owned file named with one slash too many. */
  lemma FileWithSlashAccepted()
    ensures var fs := map[[] := Entry(Directory, true, false), ["f"] := Entry(Regular, true, false)];
            WellFormed(fs) && TrustedRoute(fs, "/f/") && !StandardResolves(fs, "/f/")
  {
    hide Components;
    var fs: Tree := map[[] := Entry(Directory, true, false), ["f"] := Entry(Regular, true, false)];
    assert Parent(["f"]) == [];
    OneName();
    assert ["f"][1..] == [] && [] + ["f"] == ["f"];
    var o := Resolve(fs, [], ["f"], false, LINKS_MAX);
    assert o == Resolved(["f"], LINKS_MAX, [["f"]]);
  }
}
