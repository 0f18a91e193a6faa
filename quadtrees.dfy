/** The quadtree of include/Quadtree.h as a linked structure: a Quadtree owns
    a root Node, and each Node owns a bag of values and either no children or
    four. Every method is proved against the pure model of QuadtreeSpec: a
    node's ghost field M is the Tree it represents, and each operation leaves
    M equal to the corresponding spec function of the old M. */
module Quadtrees {
  import opened Vectors
  import opened Boxes
  import opened QuadtreeSpec
  import opened QuadtreeSearch

  /** Appending to an accumulator in two steps appends the concatenation. */
  lemma AppendAssoc<X>(a: seq<X>, b: seq<X>, c: seq<X>)
    ensures (a + b) + c == a + (b + c)
  {
  }

  /** The index of the first occurrence of v in s, or |s| when there is none
      (std::find). */
  method Find<T(==)>(s: seq<T>, v: T) returns (k: nat)
    ensures k <= |s|
    ensures k < |s| ==> s[k] == v
    ensures forall j :: 0 <= j < k ==> s[j] != v
  {
    k := 0;
    while k < |s| && s[k] != v
      invariant k <= |s|
      invariant forall j :: 0 <= j < k ==> s[j] != v
    {
      k := k + 1;
    }
  }

  /** Node: the values stored at this node and its children, none for a leaf
      and four for an interior node, one per quadrant. */
  class Node<T> {
    var values: seq<T>
    var children: seq<Node<T>>
    /** The tree this node represents. */
    ghost var M: Tree<T>
    /** This node and every node below it. */
    ghost var Repr: set<object>

    ghost predicate Valid()
      reads this, Repr
      decreases Repr
    {
      && this in Repr
      && Shaped(M)
      && values == M.values
      && |children| == |M.children|
      && (forall i :: 0 <= i < |children| ==>
            && children[i] in Repr
            && children[i].Repr <= Repr
            && this !in children[i].Repr
            && children[i].M == M.children[i]
            && children[i].Valid())
      && (forall i, j :: 0 <= i < j < |children| ==> children[i].Repr !! children[j].Repr)
    }

    /** make_unique<Node>(): an empty leaf. */
    constructor ()
      ensures Valid() && fresh(Repr) && M == Tree([], [])
      ensures values == [] && children == [] && Repr == {this}
    {
      values := [];
      children := [];
      M := Tree([], []);
      Repr := {this};
    }

    /** Changing only this node's bag, and its tree accordingly, keeps it valid. */
    twostate lemma BagUpdated()
      requires old(Valid())
      requires children == old(children) && Repr == old(Repr)
      requires unchanged(old(Repr) - {this})
      requires M == old(M).(values := values)
      ensures Valid()
    {
      forall j | 0 <= j < |children|
        ensures children[j].Valid()
      {
        assert old(children[j].Valid());
      }
    }

    /** Changing child i, so that it stays valid and owns no object it did
        not own except fresh ones, keeps this node valid once its tree and
        its footprint record the new child. */
    twostate lemma ChildUpdated(i: nat)
      requires old(Valid()) && i < |old(children)|
      requires children == old(children) && values == old(values)
      requires children[i].Valid() && fresh(children[i].Repr - old(children[i].Repr))
      requires unchanged(old(Repr) - old(children[i].Repr) - {this})
      requires M == old(M).(children := old(M.children)[i := children[i].M])
      requires Repr == old(Repr) + children[i].Repr
      ensures Valid()
    {
      var c := children[i];
      assert Shaped(M) by {
        forall j | 0 <= j < |M.children|
          ensures Shaped(M.children[j])
        {
          if j != i {
            assert M.children[j] == old(M.children[j]);
          }
        }
      }
      forall j | 0 <= j < |children| && j != i
        ensures children[j].Valid() && children[j].Repr == old(children[j].Repr)
        ensures children[j].Repr !! c.Repr
      {
        assert old(children[j].Valid());
        assert old(children[j].Repr !! c.Repr);
      }
    }

    /** Child i of a valid node is valid, represents child i of the node's
        tree, and owns less than the node. */
    lemma ChildValid(i: nat)
      requires Valid() && i < |children|
      ensures children[i].Valid() && children[i].M == M.children[i] && children[i].Repr < Repr
    {
    }

    /** A node that owns only itself and has no children is valid when its
        tree is the leaf holding its bag. */
    lemma LeafValid()
      requires children == [] && Repr == {this} && M == Tree(values, [])
      ensures Valid()
    {
    }

    /** isLeaf: a node is a leaf exactly when the tree it represents has no children. */
    predicate IsLeaf()
      requires Valid()
      reads this, Repr
      ensures IsLeaf() <==> M.children == []
    {
      children == []
    }
  }

  /** node->values.push_back(v). */
  method Push<T>(node: Node<T>, v: T)
    requires node.Valid()
    modifies node
    ensures node.Valid() && node.Repr == old(node.Repr)
    ensures node.M == old(node.M).(values := old(node.M.values) + [v])
  {
    node.values := node.values + [v];
    node.M := node.M.(values := node.values);
    node.BagUpdated();
  }

  /** node->values.erase(std::find(begin, end, v)): the first occurrence of
      v leaves the bag; when there is none, the bag is left as it is. */
  method Erase<T(==)>(node: Node<T>, v: T)
    requires node.Valid()
    modifies node
    ensures node.Valid() && node.Repr == old(node.Repr)
    ensures node.M == old(node.M).(values := EraseFirst(old(node.M.values), v))
  {
    var k := Find(node.values, v);
    if k < |node.values| {
      EraseFirstAt(node.values, v, k);
      node.values := node.values[..k] + node.values[k + 1..];
    } else {
      EraseFirstAbsent(node.values, v);
    }
    node.M := node.M.(values := node.values);
    node.BagUpdated();
  }

  /** The first loop of tryMerge: it gives up at the first child that is not
      a leaf, and otherwise counts the values of the node and of its children. */
  method MergeCount<T>(node: Node<T>) returns (allLeaves: bool, nbValues: nat)
    requires node.Valid() && node.children != []
    ensures allLeaves == AllLeaves(node.M.children)
    ensures allLeaves ==> nbValues == |node.M.values| + |ChildValues(node.M.children)|
  {
    ghost var cs := node.M.children;
    nbValues := |node.values|;
    var i := 0;
    assert cs[..0] == [];
    while i < |node.children|
      invariant i <= |node.children|
      invariant nbValues == |node.values| + |ChildValues(cs[..i])|
      invariant AllLeaves(cs[..i])
    {
      if !node.children[i].IsLeaf() {
        assert cs[i].children != [];
        return false, nbValues;
      }
      assert cs[..i + 1][..i] == cs[..i];
      nbValues := nbValues + |node.children[i].values|;
      i := i + 1;
    }
    assert cs[..i] == cs;
    allLeaves := true;
  }

  /** The inner loop of tryMerge's merge: pushes the values of vs onto the
      node's bag one by one. */
  method PushAll<T>(node: Node<T>, vs: seq<T>)
    modifies node`values
    ensures node.values == old(node.values) + vs
  {
    var l := 0;
    while l < |vs|
      invariant l <= |vs|
      invariant node.values == old(node.values) + vs[..l]
    {
      assert vs[..l + 1] == vs[..l] + [vs[l]];
      node.values := node.values + [vs[l]];
      l := l + 1;
    }
    assert vs[..l] == vs;
  }

  /** The merge of tryMerge: the children's bags are appended to the node's,
      in child order, and the children are dropped. */
  method MergeChildren<T>(node: Node<T>)
    requires node.Valid() && node.children != [] && AllLeaves(node.M.children)
    modifies node
    ensures node.Valid() && node.Repr <= old(node.Repr)
    ensures node.M == Tree(old(node.M.values) + ChildValues(old(node.M.children)), [])
  {
    ghost var cs := node.M.children;
    var j := 0;
    assert cs[..0] == [];
    while j < |node.children|
      invariant j <= |node.children| == |cs|
      invariant node.values == old(node.values) + ChildValues(cs[..j])
      invariant forall k :: 0 <= k < |node.children| ==> node.children[k].values == cs[k].values
      modifies node`values
    {
      PushAll(node, node.children[j].values);
      assert cs[..j + 1][..j] == cs[..j];
      j := j + 1;
    }
    assert cs[..j] == cs;
    node.children := [];
    node.M := Tree(node.values, []);
    node.Repr := {node};
    node.LeafValid();
  }

  /** The first loop of query: appends the values v of vs with
      intersect(q, v), in order. */
  method AppendMatching<T>(intersect: (Box, T) -> bool, q: Box, vs: seq<T>, acc: seq<T>) returns (r: seq<T>)
    ensures r == acc + Matching(vs, intersect, q)
  {
    r := acc;
    var k := 0;
    assert vs[..0] == [];
    while k < |vs|
      invariant k <= |vs|
      invariant r == acc + Matching(vs[..k], intersect, q)
    {
      assert vs[..k + 1][..k] == vs[..k];
      if intersect(q, vs[k]) {
        r := r + [vs[k]];
      }
      k := k + 1;
    }
    assert vs[..k] == vs;
  }

  /** The first loop of findIntersectionsInChildren: appends the pairs
      (x, other), for other in vs in order, that intersect. */
  method AppendPairsWith<T(!new)>(intersect: (T, T) -> bool, x: T, vs: seq<T>, acc: seq<(T, T)>)
    returns (r: seq<(T, T)>)
    ensures r == acc + Reported(PairsWith(x, vs), intersect)
  {
    r := acc;
    var k := 0;
    assert vs[..0] == [];
    while k < |vs|
      invariant k <= |vs|
      invariant r == acc + Reported(PairsWith(x, vs[..k]), intersect)
    {
      assert vs[..k + 1][..k] == vs[..k];
      ReportedConcat(PairsWith(x, vs[..k]), [(x, vs[k])], intersect);
      if intersect(x, vs[k]) {
        r := r + [(x, vs[k])];
      }
      k := k + 1;
    }
    assert vs[..k] == vs;
  }

  /** The double loop of findAllIntersections over a node's bag: for each
      value, the pairs it makes with the values before it that intersect. */
  method AppendBagPairs<T(!new)>(intersect: (T, T) -> bool, vs: seq<T>, acc: seq<(T, T)>)
    returns (r: seq<(T, T)>)
    ensures r == acc + Reported(AllPairs(vs), intersect)
  {
    r := acc;
    var i := 0;
    assert vs[..0] == [];
    while i < |vs|
      invariant i <= |vs|
      invariant r == acc + Reported(AllPairs(vs[..i]), intersect)
    {
      ghost var prefix := AllPairs(vs[..i]);
      ghost var sub := PairsWith(vs[i], vs[..i]);
      r := AppendPairsWith(intersect, vs[i], vs[..i], r);
      assert vs[..i + 1][..i] == vs[..i];
      ReportedConcat(prefix, sub, intersect);
      AppendAssoc(acc, Reported(prefix, intersect), Reported(sub, intersect));
      i := i + 1;
    }
    assert vs[..i] == vs;
  }

  class Quadtree<T(==,!new)> {
    /** The box of the root (mBox). */
    const box: Box
    /** contain(b, v): whether the value v fits in the box b (mContain). */
    const contain: (Box, T) -> bool
    const root: Node<T>

    /** The root is a well-formed node whose tree keeps the quadtree invariant:
        every value lies in its node's box and in no quadrant of an interior
        node that holds it in its bag, and leaves respect Threshold above MaxDepth. */
    ghost predicate Valid()
      reads root, root.Repr
    {
      root.Valid() && Inv(root.M, box, 0, contain)
    }

    /** The constructor: an empty leaf as root. */
    constructor (box: Box, contain: (Box, T) -> bool)
      ensures Valid() && fresh(root.Repr)
      ensures this.box == box && this.contain == contain
      ensures root.M == Tree([], []) && Contents(root.M) == multiset{}
    {
      this.box := box;
      this.contain := contain;
      var r := new Node();
      root := r;
      new;
      assert Flatten(r.M) == [];
    }

    /** add(value): v is stored exactly once more, nothing stored is lost,
        and the invariant is kept. */
    method Add(v: T)
      requires Valid() && contain(box, v)
      modifies root.Repr
      ensures Valid() && fresh(root.Repr - old(root.Repr))
      ensures root.M == QuadtreeSpec.Add(old(root.M), 0, box, v, contain)
      ensures Contents(root.M) == old(Contents(root.M)) + multiset{v}
    {
      AddAt(root, 0, box, v);
      AddInv(old(root.M), 0, box, v, contain);
      AddContents(old(root.M), 0, box, v, contain);
    }

    /** remove(value): one occurrence of v is removed when there is one,
        nothing else is lost, and the invariant is kept. */
    method Remove(v: T)
      requires Valid() && contain(box, v)
      modifies root.Repr
      ensures Valid() && root.Repr <= old(root.Repr)
      ensures root.M == QuadtreeSpec.Remove(old(root.M), box, v, contain)
      ensures v in old(Contents(root.M)) ==> Contents(root.M) + multiset{v} == old(Contents(root.M))
      ensures v !in old(Contents(root.M)) ==> Contents(root.M) == old(Contents(root.M))
    {
      RemoveAt(root, box, v);
      RemoveInv(old(root.M), box, 0, v, contain);
      RemoveCount(old(root.M), box, v, contain);
    }

    /** query(intersect, box): the values reported in pre-order with pruning
        by quadrant; when the callables are consistent, exactly the stored
        values that meet q, each occurrence once. */
    method Query(intersect: (Box, T) -> bool, q: Box) returns (r: seq<T>)
      requires Valid() && q.Intersects(box)
      ensures r == Queried(root.M, box, q, intersect)
      ensures QueryConsistent(contain, intersect, q) ==> r == Matching(Flatten(root.M), intersect, q)
    {
      r := QueryAt(intersect, root, box, q, []);
      if QueryConsistent(contain, intersect, q) {
        QueryBruteForce(root.M, box, q, contain, intersect);
      }
    }

    /** findAllIntersections(intersect): the tested pairs that intersect; when
        intersect is symmetric and only meets values whose boxes intersect,
        every intersecting pair of stored occurrences is reported exactly once,
        in one order or the other. */
    method FindAllIntersections(intersect: (T, T) -> bool) returns (r: seq<(T, T)>)
      requires Valid()
      ensures r == Reported(Tested(root.M), intersect)
      ensures PairConsistent(contain, intersect) && Symmetric(intersect) ==>
        forall u: T, w: T :: SymCount(r, u, w) == if intersect(u, w) then PairCount(Contents(root.M), u, w) else 0
    {
      r := FindAllAt(intersect, root, []);
      ghost var t := root.M;
      assert r == Reported(Tested(t), intersect);
      assert Shaped(t) && Placed(t, box, contain);
      if PairConsistent(contain, intersect) && Symmetric(intersect) {
        forall u: T, w: T
          ensures SymCount(r, u, w) == if intersect(u, w) then PairCount(Contents(t), u, w) else 0
        {
          FindAllIntersectionsCount(t, box, contain, intersect, u, w);
        }
      }
    }

    /** The quadrant of nodeBox that add, remove and split choose for v: the
        first whose box contains v, or 4 when none does. */
    method ChildIndex(nodeBox: Box, v: T) returns (i: nat)
      ensures i == FirstChild(contain, nodeBox, v)
    {
      i := 0;
      while i < 4 && !contain(ComputeBox(nodeBox, i), v)
        invariant i <= 4
        invariant forall j :: 0 <= j < i ==> !contain(ComputeBox(nodeBox, j), v)
      {
        i := i + 1;
      }
    }

    /** split: four empty children are created and each value moves to the
        child of its first containing quadrant, or stays. */
    method Split(node: Node<T>, nodeBox: Box)
      requires node.Valid() && node.children == []
      modifies node
      ensures node.Valid() && fresh(node.Repr - old(node.Repr))
      ensures node.M == QuadtreeSpec.Split(old(node.M), nodeBox, contain)
    {
      var c0 := new Node();
      var c1 := new Node();
      var c2 := new Node();
      var c3 := new Node();
      ghost var added := {c0, c1, c2, c3};
      assert fresh(added);
      node.children := [c0, c1, c2, c3];
      var newValues := Distribute(node.values, nodeBox, c0, c1, c2, c3);
      node.values := newValues;
      node.M := QuadtreeSpec.Split(old(node.M), nodeBox, contain);
      node.Repr := node.Repr + added;
      LeavesBelow(node, c0, c1, c2, c3);
    }

    /** The loop of split over the node's values: each value is pushed onto
        the bag of the child of its first containing quadrant, and the values
        no quadrant contains are returned, all in their original order. */
    method Distribute(vs: seq<T>, nodeBox: Box, c0: Node<T>, c1: Node<T>, c2: Node<T>, c3: Node<T>)
      returns (rest: seq<T>)
      requires c0.values == [] && c1.values == [] && c2.values == [] && c3.values == []
      requires c0.children == [] && c1.children == [] && c2.children == [] && c3.children == []
      requires c0.Repr == {c0} && c1.Repr == {c1} && c2.Repr == {c2} && c3.Repr == {c3}
      requires c0 != c1 && c0 != c2 && c0 != c3 && c1 != c2 && c1 != c3 && c2 != c3
      modifies c0, c1, c2, c3
      ensures c0.Valid() && c0.M == Tree(Bucket(vs, ChildOf(contain, nodeBox), 0), [])
      ensures c1.Valid() && c1.M == Tree(Bucket(vs, ChildOf(contain, nodeBox), 1), [])
      ensures c2.Valid() && c2.M == Tree(Bucket(vs, ChildOf(contain, nodeBox), 2), [])
      ensures c3.Valid() && c3.M == Tree(Bucket(vs, ChildOf(contain, nodeBox), 3), [])
      ensures c0.children == [] && c1.children == [] && c2.children == [] && c3.children == []
      ensures c0.Repr == {c0} && c1.Repr == {c1} && c2.Repr == {c2} && c3.Repr == {c3}
      ensures rest == Bucket(vs, ChildOf(contain, nodeBox), 4)
    {
      ghost var key := ChildOf(contain, nodeBox);
      rest := [];
      var k := 0;
      assert vs[..k] == [];
      while k < |vs|
        invariant k <= |vs|
        invariant c0.values == Bucket(vs[..k], key, 0)
        invariant c1.values == Bucket(vs[..k], key, 1)
        invariant c2.values == Bucket(vs[..k], key, 2)
        invariant c3.values == Bucket(vs[..k], key, 3)
        invariant rest == Bucket(vs[..k], key, 4)
        modifies c0`values, c1`values, c2`values, c3`values
      {
        var v := vs[k];
        var i := ChildIndex(nodeBox, v);
        assert vs[..k + 1][..k] == vs[..k];
        if i == 0 {
          c0.values := c0.values + [v];
        } else if i == 1 {
          c1.values := c1.values + [v];
        } else if i == 2 {
          c2.values := c2.values + [v];
        } else if i == 3 {
          c3.values := c3.values + [v];
        } else {
          rest := rest + [v];
        }
        k := k + 1;
      }
      assert vs[..k] == vs;
      c0.M := Tree(c0.values, []);
      c1.M := Tree(c1.values, []);
      c2.M := Tree(c2.values, []);
      c3.M := Tree(c3.values, []);
      c0.LeafValid();
      c1.LeafValid();
      c2.LeafValid();
      c3.LeafValid();
    }

    /** A node over four distinct fresh leaves is valid when its tree records them. */
    lemma LeavesBelow(node: Node<T>, c0: Node<T>, c1: Node<T>, c2: Node<T>, c3: Node<T>)
      requires node.children == [c0, c1, c2, c3]
      requires c0.Valid() && c1.Valid() && c2.Valid() && c3.Valid()
      requires c0.Repr == {c0} && c1.Repr == {c1} && c2.Repr == {c2} && c3.Repr == {c3}
      requires node !in {c0, c1, c2, c3}
      requires c0 != c1 && c0 != c2 && c0 != c3 && c1 != c2 && c1 != c3 && c2 != c3
      requires {node, c0, c1, c2, c3} <= node.Repr
      requires node.M == Tree(node.values, [c0.M, c1.M, c2.M, c3.M]) && Shaped(node.M)
      ensures node.Valid()
    {
    }

    /** add(node, depth, box, value): a leaf takes v unless it is full above
        MaxDepth, in which case it is split and v is added again; an interior
        node hands v to its first containing child or keeps it. */
    method AddAt(node: Node<T>, depth: nat, nodeBox: Box, v: T)
      requires node.Valid() && contain(nodeBox, v)
      modifies node.Repr
      ensures node.Valid() && fresh(node.Repr - old(node.Repr))
      ensures node.M == QuadtreeSpec.Add(old(node.M), depth, nodeBox, v, contain)
      decreases if depth < MaxDepth then MaxDepth - depth else 0,
                if depth < MaxDepth && node.children == [] then 1 else 0, node.Repr, 1
    {
      if node.children == [] {
        if depth >= MaxDepth || |node.values| < Threshold {
          Push(node, v);
        } else {
          Split(node, nodeBox);
          AddAt(node, depth, nodeBox, v);
        }
      } else {
        var i := ChildIndex(nodeBox, v);
        if i < 4 {
          AddToChild(node, depth, nodeBox, i, v);
        } else {
          Push(node, v);
        }
      }
    }

    /** The recursive step of add into child i of an interior node. */
    method AddToChild(node: Node<T>, depth: nat, nodeBox: Box, i: nat, v: T)
      requires node.Valid() && i < |node.children| && contain(ComputeBox(nodeBox, i), v)
      modifies node.Repr
      ensures node.Valid() && fresh(node.Repr - old(node.Repr))
      ensures node.M == old(node.M).(children := old(node.M.children)[i :=
                QuadtreeSpec.Add(old(node.M.children[i]), depth + 1, ComputeBox(nodeBox, i), v, contain)])
      decreases if depth < MaxDepth then MaxDepth - depth else 0, 0, node.Repr, 0
    {
      var child := node.children[i];
      AddAt(child, depth + 1, ComputeBox(nodeBox, i), v);
      node.M := node.M.(children := node.M.children[i := child.M]);
      node.Repr := node.Repr + child.Repr;
      node.ChildUpdated(i);
    }

    /** remove(node, parent, box, value): a leaf erases v from its bag; an
        interior node removes v from its first containing child, and then,
        when that child is a leaf, tries to merge its children into itself;
        when no child contains v, it erases v from its own bag. */
    method RemoveAt(node: Node<T>, nodeBox: Box, v: T)
      requires node.Valid() && contain(nodeBox, v)
      modifies node.Repr
      ensures node.Valid() && node.Repr <= old(node.Repr)
      ensures node.M == QuadtreeSpec.Remove(old(node.M), nodeBox, v, contain)
      decreases node.Repr, 1
    {
      if node.children == [] {
        Erase(node, v);
      } else {
        var i := ChildIndex(nodeBox, v);
        if i < 4 {
          var childIsLeaf := node.children[i].IsLeaf();
          RemoveFromChild(node, nodeBox, i, v);
          if childIsLeaf {
            TryMerge(node);
          }
        } else {
          Erase(node, v);
        }
      }
    }

    /** The recursive step of remove into child i of an interior node. */
    method RemoveFromChild(node: Node<T>, nodeBox: Box, i: nat, v: T)
      requires node.Valid() && i < |node.children| && contain(ComputeBox(nodeBox, i), v)
      modifies node.Repr
      ensures node.Valid() && node.Repr <= old(node.Repr)
      ensures node.M == old(node.M).(children := old(node.M.children)[i :=
                QuadtreeSpec.Remove(old(node.M.children[i]), ComputeBox(nodeBox, i), v, contain)])
      decreases node.Repr, 0
    {
      var child := node.children[i];
      RemoveAt(child, ComputeBox(nodeBox, i), v);
      node.M := node.M.(children := node.M.children[i := child.M]);
      node.Repr := node.Repr + child.Repr;
      node.ChildUpdated(i);
    }

    /** tryMerge(node): when every child is a leaf and the node and its
        children hold at most Threshold values together, the children's
        values are appended to the node's bag, child by child, and the
        children are removed; otherwise nothing changes. */
    method TryMerge(node: Node<T>)
      requires node.Valid() && node.children != []
      modifies node
      ensures node.Valid() && node.Repr <= old(node.Repr)
      ensures node.M == QuadtreeSpec.TryMerge(old(node.M))
    {
      var allLeaves, nbValues := MergeCount(node);
      if !allLeaves {
        return;
      }
      if nbValues <= Threshold {
        MergeChildren(node);
      }
    }

    /** query(intersect, node, box, queryBox, values): appends the node's
        values that meet q, in order, then queries each child whose quadrant
        meets q. */
    method QueryAt(intersect: (Box, T) -> bool, node: Node<T>, nodeBox: Box, q: Box, acc: seq<T>)
      returns (r: seq<T>)
      requires node.Valid() && q.Intersects(nodeBox)
      ensures r == acc + Queried(node.M, nodeBox, q, intersect)
      decreases node.Repr, 2
    {
      r := AppendMatching(intersect, q, node.values, acc);
      ghost var bag := Matching(node.values, intersect, q);
      if !node.IsLeaf() {
        r := QueryChildrenAt(intersect, node, nodeBox, q, r);
      }
      AppendAssoc(acc, bag, QueriedSeq(node.M.children, nodeBox, q, intersect));
    }

    /** The loop of query over the children, in index order. */
    method QueryChildrenAt(intersect: (Box, T) -> bool, node: Node<T>, nodeBox: Box, q: Box, acc: seq<T>)
      returns (r: seq<T>)
      requires node.Valid()
      ensures r == acc + QueriedSeq(node.M.children, nodeBox, q, intersect)
      decreases node.Repr, 1
    {
      r := acc;
      ghost var cs := node.M.children;
      var i := 0;
      assert cs[..0] == [];
      while i < |node.children|
        invariant i <= |node.children|
        invariant r == acc + QueriedSeq(cs[..i], nodeBox, q, intersect)
      {
        ghost var before := QueriedSeq(cs[..i], nodeBox, q, intersect);
        ghost var prev := r;
        r := QueryChild(intersect, node, i, nodeBox, q, r);
        QueriedSeqStep(cs, i, nodeBox, q, intersect);
        AppendAssoc(acc, before, r[|prev|..]);
        i := i + 1;
      }
      assert cs[..i] == cs;
    }

    /** One step of that loop: child i is queried when its quadrant meets q
        and skipped otherwise. */
    method QueryChild(intersect: (Box, T) -> bool, node: Node<T>, i: nat, nodeBox: Box, q: Box, acc: seq<T>)
      returns (r: seq<T>)
      requires node.Valid() && i < |node.children|
      ensures i < 4
      ensures r == acc + (if q.Intersects(ComputeBox(nodeBox, i))
                          then Queried(node.M.children[i], ComputeBox(nodeBox, i), q, intersect) else [])
      decreases node.Repr, 0
    {
      node.ChildValid(i);
      var childBox := ComputeBox(nodeBox, i);
      if q.Intersects(childBox) {
        r := QueryAt(intersect, node.children[i], childBox, q, acc);
      } else {
        r := acc;
      }
    }

    /** findIntersectionsInChildren(intersect, node, value, intersections):
        tests x against every value of the subtree, in pre-order, and appends
        the pairs (x, other) that intersect. */
    method FindInChildrenAt(intersect: (T, T) -> bool, node: Node<T>, x: T, acc: seq<(T, T)>)
      returns (r: seq<(T, T)>)
      requires node.Valid()
      ensures r == acc + Reported(PairsWith(x, Flatten(node.M)), intersect)
      decreases node.Repr
    {
      r := AppendPairsWith(intersect, x, node.values, acc);
      ghost var cs := node.M.children;
      ghost var seen := node.values;
      assert cs[..0] == [];
      if !node.IsLeaf() {
        var i := 0;
        while i < |node.children|
          invariant i <= |node.children|
          invariant seen == node.values + FlattenSeq(cs[..i])
          invariant r == acc + Reported(PairsWith(x, seen), intersect)
        {
          node.ChildValid(i);
          ghost var sub := Reported(PairsWith(x, Flatten(cs[i])), intersect);
          r := FindInChildrenAt(intersect, node.children[i], x, r);
          ReportedPairsWithConcat(x, seen, Flatten(cs[i]), intersect);
          AppendAssoc(acc, Reported(PairsWith(x, seen), intersect), sub);
          FlattenSeqStep(cs, i);
          AppendAssoc(node.values, FlattenSeq(cs[..i]), Flatten(cs[i]));
          seen := seen + Flatten(cs[i]);
          i := i + 1;
        }
        assert cs[..i] == cs;
      }
      assert Flatten(node.M) == seen;
    }

    /** findAllIntersections(intersect, node, intersections): the pairs of
        the node's bag, then each bag value against each child subtree,
        child by child, then each child recursively. */
    method FindAllAt(intersect: (T, T) -> bool, node: Node<T>, acc: seq<(T, T)>)
      returns (r: seq<(T, T)>)
      requires node.Valid()
      ensures r == acc + Reported(Tested(node.M), intersect)
      decreases node.Repr, 1
    {
      ReportedTested(node.M, intersect);
      ghost var bag := Reported(AllPairs(node.values), intersect);
      ghost var cross := Reported(CrossSeq(node.values, node.M.children), intersect);
      ghost var below := Reported(TestedSeq(node.M.children), intersect);
      r := AppendBagPairs(intersect, node.values, acc);
      if !node.IsLeaf() {
        r := AppendBagAgainstChildren(intersect, node, r);
        r := FindAllInChildren(intersect, node, r);
      } else {
        assert cross == [] && below == [];
      }
      AppendAssoc(acc, bag, cross);
      AppendAssoc(acc, bag + cross, below);
    }

    /** The last loop of findAllIntersections: each child in turn, recursively. */
    method FindAllInChildren(intersect: (T, T) -> bool, node: Node<T>, acc: seq<(T, T)>)
      returns (r: seq<(T, T)>)
      requires node.Valid()
      ensures r == acc + Reported(TestedSeq(node.M.children), intersect)
      decreases node.Repr, 0
    {
      r := acc;
      ghost var cs := node.M.children;
      var i := 0;
      assert cs[..0] == [];
      while i < |node.children|
        invariant i <= |node.children|
        invariant r == acc + Reported(TestedSeq(cs[..i]), intersect)
      {
        node.ChildValid(i);
        ghost var sub := Tested(cs[i]);
        ghost var prefix := TestedSeq(cs[..i]);
        r := FindAllAt(intersect, node.children[i], r);
        assert cs[..i + 1][..i] == cs[..i];
        ReportedConcat(prefix, sub, intersect);
        AppendAssoc(acc, Reported(prefix, intersect), Reported(sub, intersect));
        i := i + 1;
      }
      assert cs[..i] == cs;
    }

    /** The loop of findAllIntersections over the children and the bag:
        for each child in turn, each bag value is tested against the child's
        subtree. */
    method AppendBagAgainstChildren(intersect: (T, T) -> bool, node: Node<T>, acc: seq<(T, T)>)
      returns (r: seq<(T, T)>)
      requires node.Valid()
      ensures r == acc + Reported(CrossSeq(node.values, node.M.children), intersect)
    {
      r := acc;
      ghost var cs := node.M.children;
      var i := 0;
      assert cs[..0] == [];
      while i < |node.children|
        invariant i <= |node.children|
        invariant r == acc + Reported(CrossSeq(node.values, cs[..i]), intersect)
      {
        node.ChildValid(i);
        ghost var sub := Cross(node.values, Flatten(cs[i]));
        ghost var prefix := CrossSeq(node.values, cs[..i]);
        r := AppendBagAgainst(intersect, node.values, node.children[i], r);
        assert cs[..i + 1][..i] == cs[..i];
        ReportedConcat(prefix, sub, intersect);
        AppendAssoc(acc, Reported(prefix, intersect), Reported(sub, intersect));
        i := i + 1;
      }
      assert cs[..i] == cs;
    }

    /** The inner loop over the bag: each value of vs is tested against the
        whole subtree of child, value by value. */
    method AppendBagAgainst(intersect: (T, T) -> bool, vs: seq<T>, child: Node<T>, acc: seq<(T, T)>)
      returns (r: seq<(T, T)>)
      requires child.Valid()
      ensures r == acc + Reported(Cross(vs, Flatten(child.M)), intersect)
    {
      r := acc;
      ghost var b := Flatten(child.M);
      var k := 0;
      assert vs[..0] == [];
      while k < |vs|
        invariant k <= |vs|
        invariant r == acc + Reported(Cross(vs[..k], b), intersect)
      {
        ghost var sub := PairsWith(vs[k], b);
        ghost var prefix := Cross(vs[..k], b);
        r := FindInChildrenAt(intersect, child, vs[k], r);
        assert vs[..k + 1][..k] == vs[..k];
        ReportedConcat(prefix, sub, intersect);
        AppendAssoc(acc, Reported(prefix, intersect), Reported(sub, intersect));
        k := k + 1;
      }
      assert vs[..k] == vs;
    }
  }
}
