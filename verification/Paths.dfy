/** Path text, and ordinary path resolution on a static tree of directories, files and symbolic
    links (section 4.13 of POSIX.1-2017, Base Definitions). */
module Paths {
  import opened Collections
  import opened Options

  datatype Kind = Directory | Regular | Symlink(target: string) | Other
  datatype Entry = Entry(kind: Kind, rootOwned: bool, writable: bool)  // writable: by group or others

  type Name = string
  type Tree = map<seq<Name>, Entry>

  predicate NameOk(n: Name) {
    n != "" && '/' !in n && n != "." && n != ".."
  }

  predicate NamesOk(p: seq<Name>) {
    forall i :: 0 <= i < |p| ==> NameOk(p[i])
  }

  /** Every entry but the root lies in a directory of the tree. */
  ghost predicate IsTree(fs: Tree) {
    && [] in fs && fs[[]].kind.Directory?
    && (forall p <- fs.Keys :: p != [] ==> Parent(p) in fs && fs[Parent(p)].kind.Directory?)
  }

  /** A tree with proper names, in which link texts are not empty. */
  ghost predicate WellFormed(fs: Tree) {
    && IsTree(fs)
    && (forall p <- fs.Keys :: NamesOk(p))
    && (forall p <- fs.Keys :: fs[p].kind.Symlink? ==> fs[p].kind.target != "")
  }

  function Parent(p: seq<Name>): seq<Name> {
    if p == [] then [] else p[..|p| - 1]
  }

  // ----- text -----

  function SkipSlashes(text: string): (r: string)
    ensures |r| <= |text| && (r != "" ==> r[0] != '/')
    ensures text != "" && text[0] == '/' ==> |r| < |text|
  {
    if text != "" && text[0] == '/' then SkipSlashes(text[1..]) else text
  }

  /** The length of the first component of text. */
  function HeadLength(text: string): (n: nat)
    ensures n <= |text| && (n < |text| ==> text[n] == '/')
    ensures '/' !in text[..n]
    ensures text != "" && text[0] != '/' ==> n > 0
  {
    if text != "" && text[0] != '/' then
      var n := HeadLength(text[1..]);
      assert text[..n + 1] == [text[0]] + text[1..][..n];
      n + 1
    else 0
  }

  /** The components of a path text; any run of slashes separates. */
  function Components(text: string): seq<Name>
    decreases |text|
  {
    var t := SkipSlashes(text);
    if t == "" then [] else [t[..HeadLength(t)]] + Components(t[HeadLength(t)..])
  }

  predicate Absolute(text: string) {
    text != "" && text[0] == '/'
  }

  lemma AbsoluteIff(text: string)
    ensures Absolute(text) <==> exists rest :: text == "/" + rest
  {
    if Absolute(text) {
      assert text == "/" + text[1..];
    }
  }

  predicate EndsWithSlash(text: string) {
    text != "" && text[|text| - 1] == '/'
  }

  lemma SkipIsStable(text: string)
    ensures Components(SkipSlashes(text)) == Components(text)
  {
    assert SkipSlashes(SkipSlashes(text)) == SkipSlashes(text);
  }

  lemma LeadingSlash(text: string)
    ensures Components("/" + text) == Components(text)
  {
    assert ("/" + text)[1..] == text;
  }

  lemma {:induction false} HeadOfJoin(a: string, b: string)
    requires a != "" && a[0] != '/'
    ensures HeadLength(a + "/" + b) == HeadLength(a)
    decreases |a|
  {
    var j := a + "/" + b;
    assert j[1..] == a[1..] + "/" + b;
    if |a| == 1 {
      assert j[1..] == "/" + b;
    } else if a[1] != '/' {
      HeadOfJoin(a[1..], b);
    }
  }

  lemma {:induction false} SkipOfJoin(a: string, b: string)
    requires SkipSlashes(a) != ""
    ensures SkipSlashes(a + "/" + b) == SkipSlashes(a) + "/" + b
    decreases |a|
  {
    if a[0] == '/' {
      assert (a + "/" + b)[1..] == a[1..] + "/" + b;
      SkipOfJoin(a[1..], b);
    }
  }

  lemma {:induction false} AllSlashes(a: string, b: string)
    requires SkipSlashes(a) == ""
    ensures Components(a + b) == Components(b)
    decreases |a|
  {
    if a == "" {
      assert a + b == b;
    } else {
      assert a + b == "/" + (a[1..] + b);
      LeadingSlash(a[1..] + b);
      AllSlashes(a[1..], b);
    }
  }

  lemma FirstComponent(t: string)
    requires t != "" && t[0] != '/'
    ensures Components(t) == [t[..HeadLength(t)]] + Components(t[HeadLength(t)..])
  {
  }

  lemma JoinParts(t: string, b: string, n: nat)
    requires n <= |t|
    ensures (t + "/" + b)[..n] == t[..n] && (t + "/" + b)[n..] == t[n..] + "/" + b
  {
  }

  /** Joining two texts with a slash joins their components. */
  lemma {:induction false} ComponentsJoin(a: string, b: string)
    ensures Components(a + "/" + b) == Components(a) + Components(b)
    decreases |a|
  {
    var t := SkipSlashes(a);
    if t == "" {
      AllSlashesSkip(a);
      AllSlashes(a + "/", b);
    } else {
      var n := HeadLength(t);
      SkipOfJoin(a, b);
      SkipIsStable(a);
      SkipIsStable(a + "/" + b);
      HeadOfJoin(t, b);
      JoinParts(t, b, n);
      FirstComponent(t);
      FirstComponent(t + "/" + b);
      ComponentsJoin(t[n..], b);
      JoinAssoc([t[..n]], Components(t[n..]), Components(b));
    }
  }

  lemma {:induction false} AllSlashesSkip(a: string)
    requires SkipSlashes(a) == ""
    ensures SkipSlashes(a + "/") == ""
    decreases |a|
  {
    if a != "" {
      assert (a + "/")[1..] == a[1..] + "/";
      AllSlashesSkip(a[1..]);
    } else {
      assert a + "/" == "/" && "/"[1..] == "";
    }
  }

  lemma ComponentsOfName(name: Name)
    requires NameOk(name)
    ensures Components(name) == [name]
  {
    var n := HeadLength(name);
    assert name[..n] == name && name[n..] == "";
    assert Components("") == [];
  }

  lemma LoneSlash()
    ensures Components("/") == []
  {
    assert "/"[1..] == "";
    assert SkipSlashes("/") == "";
  }

  // ----- ordinary resolution -----

  /** Where a path leads, how many link expansions are left, and every entry looked at. */
  datatype Outcome = Resolved(at: seq<Name>, left: nat, trail: seq<seq<Name>>) | Unresolved

  /** Resolves components from a directory. A link's text is resolved first, in the directory that
      holds the link or from the root; what follows continues from where it led. mustBeDirectory is
      the demand a trailing slash or further components make on what is found. */
  function Resolve(fs: Tree, dir: seq<Name>, comps: seq<Name>, mustBeDirectory: bool, left: nat): (o: Outcome)
    ensures o.Resolved? ==> o.left <= left
    decreases left, |comps|
  {
    if comps == [] then Resolved(dir, left, [])
    else if comps[0] == "." then Resolve(fs, dir, comps[1..], mustBeDirectory, left)
    else if comps[0] == ".." then Resolve(fs, Parent(dir), comps[1..], mustBeDirectory, left)
    else
      var p, rest := dir + [comps[0]], comps[1..];
      if p !in fs then Unresolved
      else
        match fs[p].kind
        case Directory => Seen(p, Resolve(fs, p, rest, mustBeDirectory, left))
        case Symlink(target) =>
          if left == 0 then Unresolved
          else
            var demand := rest != [] || mustBeDirectory || EndsWithSlash(target);
            (match Resolve(fs, if Absolute(target) then [] else dir, Components(target), demand, left - 1)
             case Unresolved => Unresolved
             case Resolved(at, left', trail) => SeenAll([p] + trail, Resolve(fs, at, rest, mustBeDirectory, left')))
        case _ => if rest == [] && !mustBeDirectory then Resolved(p, left, [p]) else Unresolved
  }

  function Seen(p: seq<Name>, o: Outcome): Outcome {
    if o.Resolved? then o.(trail := [p] + o.trail) else Unresolved
  }

  function SeenAll(ps: seq<seq<Name>>, o: Outcome): Outcome {
    if o.Resolved? then o.(trail := ps + o.trail) else Unresolved
  }
}
