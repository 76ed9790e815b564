/** The memoised node-to-world transforms of a scene (app/fbx_shim.c:453-474, 505-524). Matrices
    are abstract values with a product. */
module NodeWorld {
  import opened Collections
  import opened Options

  /** The parent links of a scene's nodes, by typed id; nothing forbids cycles. */
  type Parents = p: seq<Option<nat>> | WellFormed(p) witness []

  predicate WellFormed(p: seq<Option<nat>>) {
    forall i :: 0 <= i < |p| && p[i].Some? ==> p[i].value < |p|
  }

  /** The chain of parents from node i ends in a root within n nodes. */
  predicate EndsWithin(p: Parents, i: nat, n: nat)
    requires i < |p|
    decreases n
  {
    n > 0 && (p[i].None? || EndsWithin(p, p[i].value, n - 1))
  }

  /** The node n parent links above i. */
  function Above(p: Parents, i: nat, n: nat): (a: Option<nat>)
    requires i < |p|
    ensures a.Some? ==> a.value < |p|
    decreases n
  {
    if n == 0 then Some(i) else if p[i].None? then None else Above(p, p[i].value, n - 1)
  }

  ghost predicate ProperAncestor(p: Parents, a: nat, i: nat)
    requires i < |p|
  {
    exists n: nat :: n > 0 && Above(p, i, n) == Some(a)
  }

  lemma {:induction false} AboveEnds(p: Parents, i: nat, m: nat, n: nat)
    requires i < |p| && EndsWithin(p, i, n) && Above(p, i, m).Some?
    ensures m < n && EndsWithin(p, Above(p, i, m).value, n - m)
    decreases m
  {
    if m > 0 {
      AboveEnds(p, p[i].value, m - 1, n - 1);
    }
  }

  /** A node that is its own ancestor has no end. */
  lemma {:induction false} CycleHasNoEnd(p: Parents, i: nat, m: nat, n: nat)
    requires i < |p| && m > 0 && Above(p, i, m) == Some(i)
    ensures !EndsWithin(p, i, n)
    decreases n
  {
    if EndsWithin(p, i, n) {
      AboveEnds(p, i, m, n);
      CycleHasNoEnd(p, i, m, n - m);
    }
  }

  lemma {:induction false} AboveParent(p: Parents, i: nat, n: nat)
    requires i < |p| && Above(p, i, n).Some?
    ensures Above(p, i, n + 1) == p[Above(p, i, n).value]
    decreases n
  {
    if n > 0 {
      AboveParent(p, p[i].value, n - 1);
    } else if p[i].Some? {
      assert Above(p, p[i].value, 0) == p[i];
    }
  }

  lemma ParentIsAncestor(p: Parents, a: nat, i: nat)
    requires i < |p| && a < |p| && p[a].Some? && (a == i || ProperAncestor(p, a, i))
    ensures ProperAncestor(p, p[a].value, i)
  {
    if a == i {
      assert Above(p, i, 0) == Some(a);
      AboveParent(p, i, 0);
      assert Above(p, i, 1) == Some(p[a].value);
    } else {
      var n: nat :| n > 0 && Above(p, i, n) == Some(a);
      AboveParent(p, i, n);
    }
  }

  // ----- the plain recursion -----

  /** What a scene multiplies: one local transform for each node. */
  datatype Transforms<!M> = Transforms(parents: Parents, local: seq<M>, identity: M, product: (M, M) -> M)
  {
    predicate Valid() {
      |local| == |parents|
    }

    /** The product of the local transforms along the chain, root first. */
    function World(i: nat, n: nat): M
      requires Valid() && i < |parents| && EndsWithin(parents, i, n)
      decreases n
    {
      if parents[i].None? then local[i] else product(World(parents[i].value, n - 1), local[i])
    }

    ghost predicate IsWorld(i: nat, m: M)
      requires Valid() && i < |parents|
    {
      forall n: nat :: EndsWithin(parents, i, n) ==> m == World(i, n)
    }
  }

  // ----- what the matrices do -----

  /** A product does what its second factor does, and then what its first does. */
  ghost predicate Acts<M(!new), V(!new)>(product: (M, M) -> M, apply: (M, V) -> V) {
    forall a, b, v :: apply(product(a, b), v) == apply(a, apply(b, v))
  }

  /** A point of node i in world space: moved by the node, by its parent, and so on up to the root. */
  function Carried<M, V>(t: Transforms<M>, apply: (M, V) -> V, i: nat, n: nat, v: V): V
    requires t.Valid() && i < |t.parents| && EndsWithin(t.parents, i, n)
    decreases n
  {
    var here := apply(t.local[i], v);
    if t.parents[i].None? then here else Carried(t, apply, t.parents[i].value, n - 1, here)
  }

  lemma {:induction false} WorldCarries<M(!new), V(!new)>(t: Transforms<M>, apply: (M, V) -> V, i: nat, n: nat, v: V)
    requires t.Valid() && i < |t.parents| && EndsWithin(t.parents, i, n) && Acts(t.product, apply)
    ensures apply(t.World(i, n), v) == Carried(t, apply, i, n, v)
    decreases n
  {
    if t.parents[i].Some? {
      WorldCarries(t, apply, t.parents[i].value, n - 1, apply(t.local[i], v));
    }
  }

  /** A skinned point goes into its bone's space first, and then up the chain of the bone. */
  lemma SkinCarries<M(!new), V(!new)>(scene: Scene<M>, apply: (M, V) -> V, c: Cluster<M>, m: M, n: nat, v: V)
    requires scene.Valid() && c.bone.Some? && Acts(scene.transforms.product, apply) && scene.IsSkin(c, m)
    requires c.bone.value < |scene.transforms.parents| && EndsWithin(scene.transforms.parents, c.bone.value, n)
    ensures apply(m, v) == Carried(scene.transforms, apply, c.bone.value, n, apply(c.geometryToBone, v))
  {
    WorldCarries(scene.transforms, apply, c.bone.value, n, apply(c.geometryToBone, v));
  }

  /** A point without weights goes into its node's space first, and then up the chain of the node. */
  lemma StaticCarries<M(!new), V(!new)>(scene: Scene<M>, apply: (M, V) -> V, node: nat, geometryToNode: M, m: M,
                                        n: nat, v: V)
    requires scene.Valid() && node < |scene.transforms.parents| && EndsWithin(scene.transforms.parents, node, n)
    requires Acts(scene.transforms.product, apply) && scene.IsStatic(node, geometryToNode, m)
    ensures apply(m, v) == Carried(scene.transforms, apply, node, n, apply(geometryToNode, v))
  {
    WorldCarries(scene.transforms, apply, node, n, apply(geometryToNode, v));
  }

  // ----- the memo -----

  ghost function Undone(done: seq<bool>): set<nat> {
    set i: nat | i < |done| && !done[i]
  }

  lemma MarkShrinks(before: seq<bool>, after: seq<bool>, i: nat)
    requires |before| == |after| && i < |before| && !before[i] && after[i]
    requires forall j :: 0 <= j < |before| && before[j] ==> after[j]
    ensures |Undone(after)| < |Undone(before)|
  {
    Smaller(Undone(after), Undone(before), i);
  }

  lemma Smaller(small: set<nat>, large: set<nat>, i: nat)
    requires small <= large && i in large && i !in small
    ensures |small| < |large|
  {
    var rest := large - {i};
    assert small <= rest;
    Fewer(small, rest);
  }

  datatype Cluster<M> = Cluster(bone: Option<nat>, geometryToBone: M)

  class Scene<M> {
    const transforms: Transforms<M>
    const world: array<M>
    const done: array<bool>

    ghost predicate Valid() {
      transforms.Valid() && world.Length == done.Length == |transforms.parents|
    }

    constructor (t: Transforms<M>)
      requires t.Valid()
      ensures Valid() && transforms == t && fresh(world) && fresh(done)
    {
      transforms := t;
      world := new M[|t.parents|](_ => t.identity);
      done := new bool[|t.parents|](_ => false);
    }

    /** Every finished entry whose chain ends holds the product along its chain. */
    ghost predicate Memo(active: set<nat>)
      requires Valid()
      reads this, world, done
    {
      forall i :: 0 <= i < done.Length && done[i] && i !in active ==> transforms.IsWorld(i, world[i])
    }

    /** The calls in progress have marked their nodes, and each waits for an ancestor. */
    ghost predicate Waiting(active: set<nat>, id: nat)
      requires Valid() && id < done.Length
      reads this, done
    {
      forall a :: a in active ==> a < done.Length && done[a] && ProperAncestor(transforms.parents, id, a)
    }

    /** node_world, memoised: it ends even when parents form a cycle, and for a node whose own chain
        ends it gives the product along the chain, whatever was asked before. */
    method NodeWorld(id: nat, ghost active: set<nat>) returns (m: M)
      requires Valid() && id < done.Length && world != done
      requires Memo(active) && Waiting(active, id)
      modifies world, done
      ensures Memo(active) && done[id]
      ensures forall i :: 0 <= i < done.Length && old(done[i]) ==> done[i] && world[i] == old(world[i])
      ensures transforms.IsWorld(id, m)
      decreases |Undone(done[..])|
    {
      if done[id] {
        if id in active {
          ActiveHasNoEnd(id, active);
        }
        return world[id];
      }
      ghost var before := done[..];
      done[id] := true;
      world[id] := transforms.identity;
      m := transforms.local[id];
      var parent := transforms.parents[id];
      if parent.Some? {
        MarkShrinks(before, done[..], id);
        ParentsWait(id, active);
        var above := NodeWorld(parent.value, active + {id});
        m := transforms.product(above, m);
        ParentGivesWorld(id, above);
      }
      world[id] := m;
    }

    /** A node that is asked for while its own call is still running lies on a cycle. */
    lemma ActiveHasNoEnd(id: nat, active: set<nat>)
      requires Valid() && id < done.Length && Waiting(active, id) && id in active
      ensures forall n: nat :: !EndsWithin(transforms.parents, id, n)
    {
      var p := transforms.parents;
      var m: nat :| m > 0 && Above(p, id, m) == Some(id);
      forall n: nat
        ensures !EndsWithin(p, id, n)
      {
        CycleHasNoEnd(p, id, m, n);
      }
    }

    lemma ParentsWait(id: nat, active: set<nat>)
      requires Valid() && id < done.Length && done[id] && Waiting(active, id) && transforms.parents[id].Some?
      ensures Waiting(active + {id}, transforms.parents[id].value)
    {
      forall a | a in active + {id}
        ensures ProperAncestor(transforms.parents, transforms.parents[id].value, a)
      {
        ParentIsAncestor(transforms.parents, id, a);
      }
    }

    lemma ParentGivesWorld(id: nat, above: M)
      requires Valid() && id < done.Length && transforms.parents[id].Some?
      requires transforms.IsWorld(transforms.parents[id].value, above)
      ensures transforms.IsWorld(id, transforms.product(above, transforms.local[id]))
    {
    }

    /** The matrix of a skin cluster: its bone's world matrix times the bind matrix. */
    ghost predicate IsSkin(c: Cluster<M>, m: M)
      requires Valid()
    {
      match c.bone
      case None => m == transforms.identity
      case Some(bone) =>
        bone < |transforms.parents| && forall n: nat :: EndsWithin(transforms.parents, bone, n) ==>
          m == transforms.product(transforms.World(bone, n), c.geometryToBone)
    }

    /** The matrix a triangle without weights moves with. */
    ghost predicate IsStatic(node: nat, geometryToNode: M, m: M)
      requires Valid() && node < |transforms.parents|
    {
      forall n: nat :: EndsWithin(transforms.parents, node, n) ==>
        m == transforms.product(transforms.World(node, n), geometryToNode)
    }

    method Forget()
      requires Valid()
      modifies done
      ensures forall i :: 0 <= i < done.Length ==> !done[i]
    {
      for i := 0 to done.Length
        invariant forall j :: 0 <= j < i ==> !done[j]
      {
        done[i] := false;
      }
    }

    /** The two loops of eval_raw that ask for matrices. The memo starts empty and is shared by all
        questions; the answers for acyclic nodes depend neither on their order nor on the others. */
    method Evaluate(clusters: seq<Cluster<M>>, triangles: seq<nat>, geometryToNode: seq<M>)
      returns (skin: seq<M>, fixed: seq<M>)
      requires Valid() && world != done && |geometryToNode| == |transforms.parents|
      requires forall c :: 0 <= c < |clusters| && clusters[c].bone.Some? ==> clusters[c].bone.value < done.Length
      requires forall k :: 0 <= k < |triangles| ==> triangles[k] < done.Length
      modifies world, done
      ensures |skin| == |clusters| && forall c :: 0 <= c < |clusters| ==> IsSkin(clusters[c], skin[c])
      ensures |fixed| == |triangles|
      ensures forall k :: 0 <= k < |triangles| ==> IsStatic(triangles[k], geometryToNode[triangles[k]], fixed[k])
    {
      Forget();
      skin, fixed := [], [];
      for c := 0 to |clusters|
        invariant |skin| == c && forall b :: 0 <= b < c ==> IsSkin(clusters[b], skin[b])
        invariant Memo({})
      {
        match clusters[c].bone
        case None => skin := skin + [transforms.identity];
        case Some(bone) =>
          var m := NodeWorld(bone, {});
          skin := skin + [transforms.product(m, clusters[c].geometryToBone)];
      }
      for k := 0 to |triangles|
        invariant |fixed| == k
        invariant forall j :: 0 <= j < k ==> IsStatic(triangles[j], geometryToNode[triangles[j]], fixed[j])
        invariant Memo({})
      {
        var m := NodeWorld(triangles[k], {});
        fixed := fixed + [transforms.product(m, geometryToNode[triangles[k]])];
      }
    }
  }
}
