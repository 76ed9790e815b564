/** The table of paths the sandbox may read or write (app/main_sandbox.c:24-29, 51-55, 91-120). */
module SandboxRules {
  import opened Collections
  import opened Options
  import opened Paths

  const CAPACITY := 128

  datatype Rule = Rule(path: string, permissions: string)

  /** What realpath answers. */
  datatype RealPath = Found(path: string) | Missing | Failed

  /** Whether path is directory or lies below it, as the source tests it on text. */
  predicate Within(path: string, directory: string) {
    || directory == "/"
    || (directory <= path && (|path| == |directory| || path[|directory|] == '/'))
  }

  predicate Writable(permissions: string) {
    'w' in permissions
  }

  // ----- what the text test means -----

  /** The text realpath gives for a place in the tree. */
  function RealText(p: seq<Name>): string {
    if p == [] then "/" else if |p| == 1 then "/" + p[0] else RealText(p[..|p| - 1]) + "/" + p[|p| - 1]
  }

  predicate Canonical(text: string) {
    NamesOk(Components(text)) && text == RealText(Components(text))
  }

  lemma {:induction false} RealTextComponents(p: seq<Name>)
    requires NamesOk(p)
    ensures Components(RealText(p)) == p
  {
    if p == [] {
      LoneSlash();
    } else if |p| == 1 {
      ComponentsOfName(p[0]);
      LeadingSlash(p[0]);
      assert p == [p[0]];
    } else {
      var init, name := p[..|p| - 1], p[|p| - 1];
      RealTextComponents(init);
      ComponentsJoin(RealText(init), name);
      ComponentsOfName(name);
      assert p == init + [name];
    }
  }

  lemma {:induction false} RealTextJoin(a: seq<Name>, b: seq<Name>)
    requires a != []
    ensures b == [] ==> RealText(a + b) == RealText(a)
    ensures b != [] ==> RealText(a + b) == RealText(a) + RealText(b) && RealText(b)[0] == '/'
  {
    if b == [] {
      assert a + b == a;
    } else {
      var init, name := b[..|b| - 1], b[|b| - 1];
      assert (a + b)[..|a + b| - 1] == a + init;
      RealTextJoin(a, init);
      if |b| == 1 {
        assert init == [] && b == [name];
      } else {
        JoinAssoc(RealText(a), RealText(init) + "/", name);
        JoinAssoc(RealText(a), RealText(init), "/");
      }
    }
  }

  /** On canonical texts the source's test is the prefix order on components. */
  lemma WithinIsPrefix(path: string, directory: string)
    requires Canonical(path) && Canonical(directory)
    ensures Within(path, directory) <==> Components(directory) <= Components(path)
  {
    var a, b := Components(path), Components(directory);
    if b == [] {
      assert directory == "/";
    } else {
      RealTextComponents(b);
      if b <= a {
        var rest := a[|b|..];
        assert a == b + rest;
        RealTextJoin(b, rest);
      }
      if Within(path, directory) {
        WithinSplits(path, directory);
      }
    }
  }

  lemma WithinSplits(path: string, directory: string)
    requires Within(path, directory) && Components(directory) != []
    ensures Components(directory) <= Components(path)
  {
    LoneSlash();
    if directory == "/" {
    } else if |path| == |directory| {
      assert path == directory;
    } else {
      var rest := path[|directory| + 1..];
      assert path == directory + "/" + rest;
      ComponentsJoin(directory, rest);
    }
  }

  predicate Overlap(a: string, b: string) {
    Within(a, b) || Within(b, a)
  }

  /** Two directories that both cover a path overlap. */
  lemma CoversOverlap(path: string, d: string, d': string)
    requires Canonical(path) && Canonical(d) && Canonical(d') && Within(path, d) && Within(path, d')
    ensures Overlap(d, d')
  {
    WithinIsPrefix(path, d);
    WithinIsPrefix(path, d');
    WithinIsPrefix(d, d');
    WithinIsPrefix(d', d);
    var p, a, b := Components(path), Components(d), Components(d');
    if |a| <= |b| {
      assert a == p[..|a|] == b[..|a|];
    } else {
      assert b == p[..|b|] == a[..|b|];
    }
  }

  // ----- the table -----

  predicate Conflict(r: Rule, path: string, permissions: string) {
    Writable(permissions) != Writable(r.permissions) && Overlap(path, r.path)
  }

  /** No path twice, and overlapping rules agree on whether writing is allowed. */
  ghost predicate Consistent(rules: seq<Rule>) {
    && (forall i :: 0 <= i < |rules| ==> Canonical(rules[i].path))
    && (forall i, j :: 0 <= i < j < |rules| ==> rules[i].path != rules[j].path)
    && (forall i, j :: 0 <= i < j < |rules| ==> !Conflict(rules[i], rules[j].path, rules[j].permissions))
  }

  /** What adding a rule means: None is a failure, and otherwise the new table. */
  ghost function Added(rules: seq<Rule>, path: string, permissions: string): Option<seq<Rule>> {
    if exists k :: 0 <= k < |rules| && rules[k].path == path then
      if Rule(path, permissions) in rules then Some(rules) else None
    else if exists k :: 0 <= k < |rules| && Conflict(rules[k], path, permissions) then None
    else if |rules| >= CAPACITY then None
    else Some(rules + [Rule(path, permissions)])
  }

  lemma ConflictSymmetric(a: Rule, b: Rule)
    ensures Conflict(a, b.path, b.permissions) == Conflict(b, a.path, a.permissions)
  {
  }

  /** A rule already present conflicts with nothing else in the table. */
  lemma PresentRuleFits(rules: seq<Rule>, k: nat, i: nat)
    requires Consistent(rules) && k < |rules| && i < |rules| && i != k
    ensures !Conflict(rules[i], rules[k].path, rules[k].permissions) && rules[i].path != rules[k].path
  {
    ConflictSymmetric(rules[i], rules[k]);
  }

  class RuleTable {
    const rules: array<Rule>
    var count: nat

    ghost predicate Valid()
      reads this, rules
    {
      rules.Length == CAPACITY && count <= CAPACITY && Consistent(rules[..count])
    }

    constructor ()
      ensures Valid() && count == 0 && fresh(rules)
    {
      rules := new Rule[128](_ => Rule("", ""));
      count := 0;
    }

    /** add: the source's scan over the table is the closed form Added. */
    method Add(resolved: RealPath, permissions: string, optional: bool) returns (ok: bool)
      requires Valid() && (resolved.Found? ==> Canonical(resolved.path))
      modifies this`count, rules
      ensures Valid()
      ensures !resolved.Found? ==> rules[..count] == old(rules[..count]) && ok == (resolved.Missing? && optional)
      ensures resolved.Found? ==>
                var r := Added(old(rules[..count]), resolved.path, permissions);
                && ok == r.Some?
                && rules[..count] == if ok then r.value else old(rules[..count])
    {
      if !resolved.Found? {
        return resolved.Missing? && optional;
      }
      var path := resolved.path;
      ghost var before := rules[..count];
      var i := 0;
      while i < count
        invariant 0 <= i <= count == |before| && rules[..count] == before
        invariant forall k :: 0 <= k < i ==> before[k].path != path && !Conflict(before[k], path, permissions)
      {
        assert rules[i] == before[i];
        if rules[i].path == path {
          if rules[i].permissions == permissions {
            assert before[i] == Rule(path, permissions);
            return true;
          }
          DifferentPermissions(before, i, path, permissions);
          return false;
        }
        if Writable(permissions) != Writable(rules[i].permissions)
          && (Within(path, rules[i].path) || Within(rules[i].path, path)) {
          ConflictFails(before, i, path, permissions);
          return false;
        }
        i := i + 1;
      }
      if count == CAPACITY {
        return false;
      }
      rules[count] := Rule(path, permissions);
      count := count + 1;
      assert rules[..count] == before + [Rule(path, permissions)];
      AppendConsistent(before, Rule(path, permissions));
      return true;
    }
  }

  lemma NotPresent(rules: seq<Rule>, i: nat, r: Rule)
    requires Consistent(rules) && i < |rules| && rules[i] != r
    requires rules[i].path == r.path || Conflict(rules[i], r.path, r.permissions)
    ensures r !in rules
  {
    forall k | 0 <= k < |rules|
      ensures rules[k] != r
    {
      if k != i {
        PresentRuleFits(rules, k, i);
      }
    }
  }

  lemma DifferentPermissions(rules: seq<Rule>, i: nat, path: string, permissions: string)
    requires Consistent(rules) && i < |rules| && rules[i].path == path && rules[i].permissions != permissions
    ensures Added(rules, path, permissions) == None
  {
    NotPresent(rules, i, Rule(path, permissions));
  }

  lemma ConflictFails(rules: seq<Rule>, i: nat, path: string, permissions: string)
    requires Consistent(rules) && i < |rules| && Conflict(rules[i], path, permissions) && rules[i].path != path
    ensures Added(rules, path, permissions) == None
  {
    NotPresent(rules, i, Rule(path, permissions));
  }

  lemma AppendConsistent(rules: seq<Rule>, r: Rule)
    requires Consistent(rules) && Canonical(r.path)
    requires forall k :: 0 <= k < |rules| ==> rules[k].path != r.path && !Conflict(rules[k], r.path, r.permissions)
    ensures Consistent(rules + [r])
  {
  }

  /** Some place is covered by both directories. */
  ghost predicate Shared(d: string, d': string) {
    exists q :: Canonical(q) && Within(q, d) && Within(q, d')
  }

  lemma WithinItself(d: string)
    ensures Within(d, d)
  {
  }

  /** Two rules conflict when they cover a common place and disagree on whether it may be written. */
  lemma ConflictIff(r: Rule, path: string, permissions: string)
    requires Canonical(r.path) && Canonical(path)
    ensures Conflict(r, path, permissions) <==>
            Shared(path, r.path) && (('w' in permissions) != ('w' in r.permissions))
  {
    hide Canonical;
    if Shared(path, r.path) {
      var q :| Canonical(q) && Within(q, path) && Within(q, r.path);
      CoversOverlap(q, path, r.path);
    }
    WithinItself(path);
    WithinItself(r.path);
    if Within(path, r.path) {
      assert Canonical(path) && Within(path, path);
    } else if Within(r.path, path) {
      assert Canonical(r.path) && Within(r.path, r.path);
    }
  }

  /** A new path is taken exactly when there is room, and every rule that covers a place below it
      agrees on whether that may be written. */
  lemma NewPathIsAddedIff(rules: seq<Rule>, path: string, permissions: string)
    requires Consistent(rules) && Canonical(path)
    requires forall k :: 0 <= k < |rules| ==> rules[k].path != path
    ensures Added(rules, path, permissions).Some? <==>
      && |rules| < 128
      && forall k :: 0 <= k < |rules| && Shared(path, rules[k].path) ==>
           (('w' in permissions) <==> ('w' in rules[k].permissions))
  {
    hide Canonical, Conflict, Shared;
    forall k | 0 <= k < |rules|
      ensures Conflict(rules[k], path, permissions) <==>
              Shared(path, rules[k].path) && (('w' in permissions) != ('w' in rules[k].permissions))
    {
      ConflictIff(rules[k], path, permissions);
    }
  }

  /** Write authority is well defined: rules that cover the same path agree on it. */
  lemma AuthorityIsWellDefined(rules: seq<Rule>, path: string, i: nat, j: nat)
    requires Consistent(rules) && Canonical(path) && i < |rules| && j < |rules|
    requires Within(path, rules[i].path) && Within(path, rules[j].path)
    ensures Writable(rules[i].permissions) == Writable(rules[j].permissions)
  {
    CoversOverlap(path, rules[i].path, rules[j].path);
    if i < j {
      assert !Conflict(rules[i], rules[j].path, rules[j].permissions);
    } else if j < i {
      assert !Conflict(rules[j], rules[i].path, rules[i].permissions);
    }
  }

  /** Adding never takes authority away from a path or changes it: what earlier rules say of any
      path they cover still holds of every rule that covers it. */
  lemma AddKeepsAuthority(rules: seq<Rule>, path: string, permissions: string, q: string, i: nat, j: nat)
    requires Consistent(rules) && Canonical(path) && Canonical(q) && Added(rules, path, permissions).Some?
    requires i < |rules| && Within(q, rules[i].path)
    requires j < |Added(rules, path, permissions).value|
    requires Within(q, Added(rules, path, permissions).value[j].path)
    ensures Writable(Added(rules, path, permissions).value[j].permissions) == Writable(rules[i].permissions)
  {
    var after := Added(rules, path, permissions).value;
    if after != rules {
      AppendConsistent(rules, Rule(path, permissions));
      assert after[i] == rules[i];
    }
    AuthorityIsWellDefined(after, q, i, j);
  }
}
