/** What a trusted route is good for: no other user can change where it leads
    (app/main_sandbox.c:122-200). */
module TrustMeaning {
  import opened Options
  import opened Paths
  import opened TrustWalk

  /** Others may change an entry that somebody else owns, or that they may write; the mode of a
      symbolic link means nothing. */
  predicate Open(e: Entry) {
    !e.rootOwned || (e.writable && !e.kind.Symlink?)
  }

  /** Others may change what is at p, or put something there: the entry or a directory above is open. */
  predicate MayDiffer(fs: Tree, p: seq<Name>) {
    exists n :: 0 <= n <= |p| && p[..n] in fs && Open(fs[p[..n]])
  }

  /** after is what others may have made of fs. */
  ghost predicate Tampered(fs: Tree, after: Tree) {
    forall p :: !MayDiffer(fs, p) ==> (p in fs <==> p in after) && (p in fs ==> after[p] == fs[p])
  }

  /** The entry is there, and neither it nor a directory above is open. */
  predicate Secure(fs: Tree, p: seq<Name>) {
    p in fs && forall n :: 0 <= n <= |p| ==> p[..n] in fs && !Open(fs[p[..n]])
  }

  predicate AllSecure(fs: Tree, trail: seq<seq<Name>>) {
    forall i :: 0 <= i < |trail| ==> Secure(fs, trail[i])
  }

  lemma NoneSecure(fs: Tree)
    ensures AllSecure(fs, [])
  {
  }

  lemma SecureJoin(fs: Tree, p: seq<Name>, a: seq<seq<Name>>, b: seq<seq<Name>>)
    requires Secure(fs, p) && AllSecure(fs, a) && AllSecure(fs, b)
    ensures AllSecure(fs, [p] + a + b) && AllSecure(fs, [p] + b)
  {
  }

  lemma SecureStays(fs: Tree, after: Tree, p: seq<Name>)
    requires Secure(fs, p) && Tampered(fs, after)
    ensures p in fs && p in after && after[p] == fs[p]
  {
    assert !MayDiffer(fs, p);
  }

  lemma SecureChild(fs: Tree, dir: seq<Name>, c: Name)
    requires Secure(fs, dir) && dir + [c] in fs && TrustedEntry(fs[dir + [c]])
    ensures Secure(fs, dir + [c])
  {
    var p := dir + [c];
    forall n | 0 <= n <= |p|
      ensures p[..n] in fs && !Open(fs[p[..n]])
    {
      if n <= |dir| {
        assert p[..n] == dir[..n];
      } else {
        assert p[..n] == p;
      }
    }
  }

  lemma SecureParent(fs: Tree, dir: seq<Name>)
    requires Secure(fs, dir)
    ensures Secure(fs, Parent(dir))
  {
    var p := Parent(dir);
    forall n | 0 <= n <= |p|
      ensures p[..n] in fs && !Open(fs[p[..n]])
    {
      assert p[..n] == dir[..n];
    }
    assert p[..|p|] == p;
  }

  lemma SecureRoot(fs: Tree)
    requires RootTrusted(fs) && IsTree(fs)
    ensures Secure(fs, [])
  {
    var root: seq<Name> := [];
    assert forall n :: 0 <= n <= 0 ==> root[..n] == [];
  }

  lemma SeenTrusted(fs: Tree, p: seq<Name>, o: Outcome)
    requires Seen(p, o).Resolved? && AllTrusted(fs, Seen(p, o).trail)
    ensures o.Resolved? && p in fs && TrustedEntry(fs[p]) && AllTrusted(fs, o.trail)
  {
    AllTrustedJoin(fs, [p], o.trail);
    assert [p][0] == p;
  }

  lemma SeenAllTrusted(fs: Tree, p: seq<Name>, inner: Outcome, o: Outcome)
    requires inner.Resolved? && SeenAll([p] + inner.trail, o).Resolved?
    requires AllTrusted(fs, SeenAll([p] + inner.trail, o).trail)
    ensures o.Resolved? && p in fs && TrustedEntry(fs[p]) && AllTrusted(fs, inner.trail) && AllTrusted(fs, o.trail)
  {
    AllTrustedJoin(fs, [p] + inner.trail, o.trail);
    AllTrustedJoin(fs, [p], inner.trail);
    assert [p][0] == p;
  }

  /** Whatever others do, a trusted part of a route still leads to the same place by the same way. */
  lemma {:induction false} RouteStays(fs: Tree, after: Tree, dir: seq<Name>, comps: seq<Name>, demand: bool, left: nat)
    requires Tampered(fs, after) && Secure(fs, dir)
    requires var o := Resolve(fs, dir, comps, demand, left); o.Resolved? && AllTrusted(fs, o.trail)
    ensures
      var o := Resolve(fs, dir, comps, demand, left);
      Resolve(after, dir, comps, demand, left) == o && Secure(fs, o.at) && AllSecure(fs, o.trail)
    decreases left, |comps|, 1
  {
    hide Tampered, Secure, AllTrusted, AllSecure;
    NoneSecure(fs);
    if comps != [] {
      var c, rest := comps[0], comps[1..];
      if c == "." {
        RouteStays(fs, after, dir, rest, demand, left);
      } else if c == ".." {
        SecureParent(fs, dir);
        RouteStays(fs, after, Parent(dir), rest, demand, left);
      } else {
        EntryStays(fs, after, dir, c, rest, comps, demand, left);
      }
    }
  }

  lemma {:induction false} EntryStays(fs: Tree, after: Tree, dir: seq<Name>, c: Name, rest: seq<Name>, comps: seq<Name>,
                                     demand: bool, left: nat)
    requires Tampered(fs, after) && Secure(fs, dir)
    requires comps != [] && c == comps[0] && rest == comps[1..] && c != "." && c != ".."
    requires var o := Resolve(fs, dir, comps, demand, left); o.Resolved? && AllTrusted(fs, o.trail)
    ensures
      var o := Resolve(fs, dir, comps, demand, left);
      Resolve(after, dir, comps, demand, left) == o && Secure(fs, o.at) && AllSecure(fs, o.trail)
    decreases left, |comps|, 0
  {
    hide Tampered, Secure, AllTrusted, AllSecure, Components;
    var p := dir + [c];
    match fs[p].kind
    case Directory =>
      SeenTrusted(fs, p, Resolve(fs, p, rest, demand, left));
      SecureChild(fs, dir, c);
      SecureStays(fs, after, p);
      RouteStays(fs, after, p, rest, demand, left);
      SecureJoin(fs, p, [], Resolve(fs, p, rest, demand, left).trail);
    case Symlink(target) =>
      var from := if Absolute(target) then [] else dir;
      var must := rest != [] || demand || EndsWithSlash(target);
      var inner := Resolve(fs, from, Components(target), must, left - 1);
      SeenAllTrusted(fs, p, inner, Resolve(fs, inner.at, rest, demand, inner.left));
      SecureChild(fs, dir, c);
      SecureStays(fs, after, p);
      SecureAbove(fs, dir);
      RouteStays(fs, after, from, Components(target), must, left - 1);
      RouteStays(fs, after, inner.at, rest, demand, inner.left);
      SecureJoin(fs, p, inner.trail, Resolve(fs, inner.at, rest, demand, inner.left).trail);
    case Other => LastTrusted(fs, p);
    case Regular =>
      LastTrusted(fs, p);
      SecureChild(fs, dir, c);
      SecureStays(fs, after, p);
      NoneSecure(fs);
      SecureJoin(fs, p, [], []);
      assert [p] + [] == [p];
  }

  lemma LastTrusted(fs: Tree, p: seq<Name>)
    requires AllTrusted(fs, [p])
    ensures p in fs && TrustedEntry(fs[p])
  {
    assert [p][0] == p;
  }

  lemma SecureAbove(fs: Tree, dir: seq<Name>)
    requires Secure(fs, dir)
    ensures Secure(fs, [])
  {
    assert dir[..0] == [];
    var root: seq<Name> := [];
    assert forall n :: 0 <= n <= 0 ==> root[..n] == dir[..0];
  }

  /** A trusted route is out of other users' reach: whatever they make of the tree, it leads to the same
      place, over the same entries, and is still trusted. */
  lemma TrustedRouteStays(fs: Tree, after: Tree, text: string)
    requires IsTree(fs) && TrustedRoute(fs, text) && Tampered(fs, after)
    ensures TrustedRoute(after, text)
    ensures Resolve(after, [], Components(text), Demands(text), LINKS_MAX)
         == Resolve(fs, [], Components(text), Demands(text), LINKS_MAX)
  {
    hide Tampered, Secure, AllSecure;
    SecureRoot(fs);
    RouteStays(fs, after, [], Components(text), Demands(text), LINKS_MAX);
    SecureStays(fs, after, []);
    TrailStays(fs, after, Resolve(fs, [], Components(text), Demands(text), LINKS_MAX).trail);
  }

  lemma TrailStays(fs: Tree, after: Tree, trail: seq<seq<Name>>)
    requires Tampered(fs, after) && AllSecure(fs, trail) && AllTrusted(fs, trail)
    ensures AllTrusted(after, trail)
  {
    hide Tampered, Secure;
    forall i | 0 <= i < |trail|
      ensures trail[i] in after && TrustedEntry(after[trail[i]])
    {
      SecureStays(fs, after, trail[i]);
    }
  }

  /** A route that is refused although it resolves passes an entry that others may change, or one that
      is neither directory, file nor link; or the root itself is open. */
  lemma RefusedRouteIsOpen(fs: Tree, text: string)
    requires IsTree(fs) && !TrustedRoute(fs, text)
    requires Resolve(fs, [], Components(text), Demands(text), LINKS_MAX).Resolved?
    ensures
      var trail := Resolve(fs, [], Components(text), Demands(text), LINKS_MAX).trail;
      || Open(fs[[]])
      || exists i :: 0 <= i < |trail| && (trail[i] !in fs || Open(fs[trail[i]]) || fs[trail[i]].kind.Other?)
  {
  }
}
