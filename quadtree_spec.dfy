/** The pure model of the quadtree of include/Quadtree.h: a node is a bag of
    values and either no children (a leaf) or four children, one per quadrant
    of the node's box in the order top-left, top-right, bottom-left,
    bottom-right. The functions here say what each operation of the source
    does to such a tree; the lemmas say what that means for the values stored. */
module QuadtreeSpec {
  import opened Vectors
  import opened Boxes

  /** A leaf holding this many values is split on the next insertion. */
  const Threshold: nat := 16
  /** Leaves at this depth or deeper are never split. */
  const MaxDepth: nat := 8

  datatype Tree<T> = Tree(values: seq<T>, children: seq<Tree<T>>)

  /** Every node has no children or exactly four. */
  ghost predicate Shaped<T>(t: Tree<T>) {
    && (|t.children| == 0 || |t.children| == 4)
    && forall i :: 0 <= i < |t.children| ==> Shaped(t.children[i])
  }

  // ---------------------------------------------------------------------------
  // Quadrants

  /** computeBox: quadrant i of box, each half as wide and half as high. */
  function ComputeBox(box: Box, i: nat): Box
    requires i < 4
  {
    var origin := box.GetTopLeft();
    var childSize := Divide(box.GetSize(), 2.0);
    if i == 0 then FromPositionSize(origin, childSize)
    else if i == 1 then FromPositionSize(Vector2(origin.x + childSize.x, origin.y), childSize)
    else if i == 2 then FromPositionSize(Vector2(origin.x, origin.y + childSize.y), childSize)
    else FromPositionSize(Plus(origin, childSize), childSize)
  }

  /** Quadrants 0..3 are the top-left, top-right, bottom-left and bottom-right
      halves-by-halves of the box; with a non-negative size each lies inside
      the box, and no two of them intersect (they only share edges). */
  lemma QuadrantsPartition(box: Box, i: nat, j: nat)
    requires i < 4 && j < 4
    ensures ComputeBox(box, i) == Box(box.left + (if i % 2 == 1 then box.width / 2.0 else 0.0),
                                      box.top + (if i >= 2 then box.height / 2.0 else 0.0),
                                      box.width / 2.0, box.height / 2.0)
    ensures box.width >= 0.0 && box.height >= 0.0 ==> box.ContainsBox(ComputeBox(box, i))
    ensures i != j ==> !ComputeBox(box, i).Intersects(ComputeBox(box, j))
  {
  }

  /** The quadrants cover the box: every point the box contains is contained
      by the quadrant of its horizontal and vertical halves. */
  lemma QuadrantsCover(box: Box, p: Vector2)
    requires box.ContainsPoint(p)
    ensures exists i :: 0 <= i < 4 && ComputeBox(box, i).ContainsPoint(p)
  {
    var i := (if p.x < box.left + box.width / 2.0 then 0 else 1)
           + (if p.y < box.top + box.height / 2.0 then 0 else 2);
    QuadrantsPartition(box, i, i);
    assert ComputeBox(box, i).ContainsPoint(p);
  }

  /** The index of the first quadrant whose box contains v, or 4 if none does:
      the child that add, remove and split choose for v. */
  ghost function FirstChild<T>(contain: (Box, T) -> bool, box: Box, v: T): (i: nat)
    ensures i <= 4
    ensures i < 4 ==> contain(ComputeBox(box, i), v)
    ensures forall j :: 0 <= j < i ==> !contain(ComputeBox(box, j), v)
  {
    if contain(ComputeBox(box, 0), v) then 0
    else if contain(ComputeBox(box, 1), v) then 1
    else if contain(ComputeBox(box, 2), v) then 2
    else if contain(ComputeBox(box, 3), v) then 3
    else 4
  }


  // ---------------------------------------------------------------------------
  // What a tree stores

  /** The stored values in pre-order: a node's bag, then each child's values. */
  ghost function Flatten<T>(t: Tree<T>): seq<T>
    decreases t
  {
    t.values + FlattenSeq(t.children)
  }

  /** The values stored under a sequence of sibling subtrees, in order. */
  ghost function FlattenSeq<T>(cs: seq<Tree<T>>): seq<T>
    decreases cs
  {
    if cs == [] then [] else FlattenSeq(cs[..|cs| - 1]) + Flatten(cs[|cs| - 1])
  }

  /** The multiset of stored occurrences. */
  ghost function Contents<T>(t: Tree<T>): multiset<T> {
    multiset(Flatten(t))
  }

  /** Extending a prefix of the siblings by one subtree appends that subtree's values. */
  lemma FlattenSeqStep<T>(cs: seq<Tree<T>>, k: nat)
    requires k < |cs|
    ensures FlattenSeq(cs[..k + 1]) == FlattenSeq(cs[..k]) + Flatten(cs[k])
  {
    assert cs[..k + 1][..k] == cs[..k];
  }

  lemma {:induction false} InFlattenSeq<T>(cs: seq<Tree<T>>, v: T)
    ensures v in FlattenSeq(cs) <==> exists j :: 0 <= j < |cs| && v in Flatten(cs[j])
  {
    if cs != [] {
      var cs' := cs[..|cs| - 1];
      InFlattenSeq(cs', v);
      if v in Flatten(cs[|cs| - 1]) {
        assert v in FlattenSeq(cs);
      }
      if v in FlattenSeq(cs) && v !in Flatten(cs[|cs| - 1]) {
        var j :| 0 <= j < |cs'| && v in Flatten(cs'[j]);
        assert cs[j] == cs'[j];
      }
      if exists j :: 0 <= j < |cs| && v in Flatten(cs[j]) {
        var j :| 0 <= j < |cs| && v in Flatten(cs[j]);
        if j < |cs'| {
          assert cs'[j] == cs[j];
        }
      }
    }
  }

  /** A value stored under a child is stored under its parent. */
  lemma InChild<T>(t: Tree<T>, i: nat, v: T)
    requires i < |t.children| && v in Flatten(t.children[i])
    ensures v in Flatten(t)
  {
    InFlattenSeq(t.children, v);
  }

  /** Replacing sibling i by c trades the values of the old sibling for those of c. */
  lemma {:induction false} FlattenSeqUpdate<T>(cs: seq<Tree<T>>, i: nat, c: Tree<T>)
    requires i < |cs|
    ensures multiset(FlattenSeq(cs[i := c])) + multiset(Flatten(cs[i]))
         == multiset(FlattenSeq(cs)) + multiset(Flatten(c))
  {
    var n := |cs|;
    var ds := cs[i := c];
    FlattenSeqLast(cs);
    FlattenSeqLast(ds);
    if i == n - 1 {
      assert ds[..n - 1] == cs[..n - 1] && ds[n - 1] == c;
      MultisetSwap(multiset(FlattenSeq(cs[..n - 1])), multiset(Flatten(c)), multiset(Flatten(cs[i])));
    } else {
      var pre, dpre := cs[..n - 1], ds[..n - 1];
      assert dpre == pre[i := c];
      assert pre[i] == cs[i];
      assert ds[n - 1] == cs[n - 1];
      FlattenSeqUpdate(pre, i, c);
      var q, l, a, p, b := multiset(FlattenSeq(dpre)), multiset(Flatten(cs[n - 1])), multiset(Flatten(cs[i])),
                           multiset(FlattenSeq(pre)), multiset(Flatten(c));
      assert q + a == p + b;
      MultisetShift(q, l, a, p, b);
      assert multiset(FlattenSeq(ds)) == q + l;
      assert multiset(FlattenSeq(cs)) == p + l;
    }
  }

  /** The values under a non-empty run of siblings, as multisets: those under
      all but the last, then those under the last. */
  lemma FlattenSeqLast<T>(cs: seq<Tree<T>>)
    requires cs != []
    ensures multiset(FlattenSeq(cs)) == multiset(FlattenSeq(cs[..|cs| - 1])) + multiset(Flatten(cs[|cs| - 1]))
  {
  }

  /** Multiset bookkeeping used by the replacement lemmas. */
  lemma MultisetSwap<T>(p: multiset<T>, a: multiset<T>, b: multiset<T>)
    ensures (p + a) + b == (p + b) + a
  {
    forall x ensures ((p + a) + b)[x] == ((p + b) + a)[x] {
    }
  }

  lemma MultisetShift<T>(q: multiset<T>, l: multiset<T>, a: multiset<T>, p: multiset<T>, b: multiset<T>)
    requires q + a == p + b
    ensures (q + l) + a == (p + l) + b
  {
    forall x ensures ((q + l) + a)[x] == ((p + l) + b)[x] {
      assert (q + a)[x] == (p + b)[x];
    }
  }

  lemma MultisetPrefix<T>(a: multiset<T>, b: multiset<T>, c: multiset<T>, d: multiset<T>, e: multiset<T>)
    requires b + c == d + e
    ensures (a + b) + c == (a + d) + e
  {
    forall x ensures ((a + b) + c)[x] == ((a + d) + e)[x] {
      assert (b + c)[x] == (d + e)[x];
    }
  }

  lemma MultisetCancel<T>(r: multiset<T>, c0: multiset<T>, t: multiset<T>, c: multiset<T>, less: multiset<T>, extra: multiset<T>)
    requires r + c0 == t + c && c + less == c0 + extra
    ensures r + less == t + extra
  {
    forall x ensures (r + less)[x] == (t + extra)[x] {
      assert (r + c0)[x] == (t + c)[x];
      assert (c + less)[x] == (c0 + extra)[x];
    }
  }

  // ---------------------------------------------------------------------------
  // Invariants

  /** Every value of s has i as its first containing quadrant of box (4: none). */
  ghost predicate InQuadrant<T>(s: seq<T>, contain: (Box, T) -> bool, box: Box, i: nat) {
    forall v :: v in s ==> FirstChild(contain, box, v) == i
  }

  /** Placement: in an interior node, the bag holds only values that no
      quadrant contains, and the subtree of child i holds only values whose
      first containing quadrant is i. */
  ghost predicate Placed<T>(t: Tree<T>, box: Box, contain: (Box, T) -> bool)
    decreases t
  {
    t.children != [] ==>
      && InQuadrant(t.values, contain, box, 4)
      && |t.children| <= 4
      && (forall i :: 0 <= i < |t.children| ==>
            && InQuadrant(Flatten(t.children[i]), contain, box, i)
            && Placed(t.children[i], ComputeBox(box, i), contain))
  }

  /** Depth and size bounds: interior nodes only above MaxDepth, and every leaf
      above MaxDepth holds at most Threshold values. */
  ghost predicate Bounded<T>(t: Tree<T>, depth: nat)
    decreases t
  {
    if t.children == [] then
      depth < MaxDepth ==> |t.values| <= Threshold
    else
      && depth < MaxDepth
      && forall i :: 0 <= i < |t.children| ==> Bounded(t.children[i], depth + 1)
  }

  /** Every value stored under a node is contained by the node's box. */
  ghost predicate Inside<T>(t: Tree<T>, box: Box, contain: (Box, T) -> bool) {
    forall v :: v in Flatten(t) ==> contain(box, v)
  }

  /** The invariant of a subtree rooted at the given box and depth. */
  ghost predicate Inv<T>(t: Tree<T>, box: Box, depth: nat, contain: (Box, T) -> bool) {
    Shaped(t) && Placed(t, box, contain) && Bounded(t, depth) && Inside(t, box, contain)
  }

  /** The invariant holds for each child, at its quadrant and one level deeper. */
  lemma InvChild<T>(t: Tree<T>, box: Box, depth: nat, contain: (Box, T) -> bool, i: nat)
    requires Inv(t, box, depth, contain) && i < |t.children|
    ensures i < 4 && Inv(t.children[i], ComputeBox(box, i), depth + 1, contain)
  {
    var c := t.children[i];
    forall v | v in Flatten(c)
      ensures contain(ComputeBox(box, i), v)
    {
      assert FirstChild(contain, box, v) == i;
    }
  }


  /** Replacing child i of an interior node by a placed subtree whose values
      all belong to quadrant i keeps the node placed. */
  lemma PlacedReplaceChild<T>(t: Tree<T>, box: Box, contain: (Box, T) -> bool, i: nat, c: Tree<T>)
    requires Placed(t, box, contain) && t.children != [] && i < |t.children| && i < 4
    requires Placed(c, ComputeBox(box, i), contain)
    requires InQuadrant(Flatten(c), contain, box, i)
    ensures Placed(t.(children := t.children[i := c]), box, contain)
  {
    var t' := t.(children := t.children[i := c]);
    forall j | 0 <= j < |t'.children|
      ensures && InQuadrant(Flatten(t'.children[j]), contain, box, j)
              && Placed(t'.children[j], ComputeBox(box, j), contain)
    {
      if j != i {
        assert t'.children[j] == t.children[j];
      } else {
        assert t'.children[j] == c;
      }
    }
    assert t'.values == t.values;
    PlacedIntro(t', box, contain);
  }

  /** The placement of an interior node from that of its bag and children. */
  lemma PlacedIntro<T>(t: Tree<T>, box: Box, contain: (Box, T) -> bool)
    requires 0 < |t.children| <= 4
    requires InQuadrant(t.values, contain, box, 4)
    requires forall j :: 0 <= j < |t.children| ==>
      && InQuadrant(Flatten(t.children[j]), contain, box, j)
      && Placed(t.children[j], ComputeBox(box, j), contain)
    ensures Placed(t, box, contain)
  {
  }

  /** Replacing child i of an interior node by a subtree bounded one level
      down keeps the node bounded. */
  lemma BoundedReplaceChild<T>(t: Tree<T>, depth: nat, i: nat, c: Tree<T>)
    requires Bounded(t, depth) && t.children != [] && i < |t.children| && Bounded(c, depth + 1)
    ensures Bounded(t.(children := t.children[i := c]), depth)
  {
  }

  /** Replacing child i by a subtree holding the old child's contents plus
      extra, minus less, does the same to the whole node's contents. */
  lemma ReplaceChildContents<T>(t: Tree<T>, i: nat, c: Tree<T>, extra: multiset<T>, less: multiset<T>)
    requires i < |t.children| && Contents(c) + less == Contents(t.children[i]) + extra
    ensures Contents(t.(children := t.children[i := c])) + less == Contents(t) + extra
  {
    FlattenSeqUpdate(t.children, i, c);
    var r := t.(children := t.children[i := c]);
    assert Contents(r) == multiset(t.values) + multiset(FlattenSeq(t.children[i := c]));
    assert Contents(t) == multiset(t.values) + multiset(FlattenSeq(t.children));
    MultisetPrefix(multiset(t.values), multiset(FlattenSeq(t.children[i := c])), Contents(t.children[i]),
                   multiset(FlattenSeq(t.children)), Contents(c));
    MultisetCancel(Contents(r), Contents(t.children[i]), Contents(t), Contents(c), less, extra);
  }

  // ---------------------------------------------------------------------------
  // Filters over sequences, each defined element by element from the back

  /** The quadrant index of each value, as a function. */
  ghost function ChildOf<T>(contain: (Box, T) -> bool, box: Box): T -> nat {
    v => FirstChild(contain, box, v)
  }

  /** The values v of s with key(v) == i, in order. */
  ghost function Bucket<T>(s: seq<T>, key: T -> nat, i: nat): seq<T>
  {
    if s == [] then []
    else Bucket(s[..|s| - 1], key, i) + (if key(s[|s| - 1]) == i then [s[|s| - 1]] else [])
  }

  /** A bucket is no longer than s and holds only values of s with the bucket's key. */
  lemma {:induction false} BucketMembers<T>(s: seq<T>, key: T -> nat, i: nat)
    ensures |Bucket(s, key, i)| <= |s|
    ensures forall v :: v in Bucket(s, key, i) ==> v in s && key(v) == i
  {
    if s != [] {
      BucketMembers(s[..|s| - 1], key, i);
      assert s == s[..|s| - 1] + [s[|s| - 1]];
    }
  }

  lemma BucketStep<T>(s: seq<T>, key: T -> nat, i: nat, x: T)
    requires s != []
    ensures multiset(Bucket(s, key, i))[x]
         == multiset(Bucket(s[..|s| - 1], key, i))[x] + (if key(s[|s| - 1]) == i && s[|s| - 1] == x then 1 else 0)
  {
  }

  /** The occurrences of x over the five buckets 0..4. */
  ghost function BucketsTotal<T>(s: seq<T>, key: T -> nat, x: T): nat {
    multiset(Bucket(s, key, 0))[x] + multiset(Bucket(s, key, 1))[x] + multiset(Bucket(s, key, 2))[x]
    + multiset(Bucket(s, key, 3))[x] + multiset(Bucket(s, key, 4))[x]
  }

  lemma BucketsTotalStep<T>(s: seq<T>, key: T -> nat, x: T)
    requires s != [] && key(s[|s| - 1]) <= 4
    ensures BucketsTotal(s, key, x) == BucketsTotal(s[..|s| - 1], key, x) + (if s[|s| - 1] == x then 1 else 0)
  {
    BucketStep(s, key, 0, x);
    BucketStep(s, key, 1, x);
    BucketStep(s, key, 2, x);
    BucketStep(s, key, 3, x);
    BucketStep(s, key, 4, x);
  }

  /** With keys at most 4, each occurrence of x in s lands in exactly one bucket. */
  lemma {:induction false} BucketsCount<T>(s: seq<T>, key: T -> nat, x: T)
    requires forall v :: key(v) <= 4
    ensures BucketsTotal(s, key, x) == multiset(s)[x]
  {
    if s != [] {
      BucketsCount(s[..|s| - 1], key, x);
      assert s == s[..|s| - 1] + [s[|s| - 1]];
      BucketsTotalStep(s, key, x);
    }
  }

  /** The five buckets of s together are a permutation of s. */
  lemma BucketsPartition<T>(s: seq<T>, key: T -> nat)
    requires forall v :: key(v) <= 4
    ensures multiset(Bucket(s, key, 0)) + multiset(Bucket(s, key, 1)) + multiset(Bucket(s, key, 2))
          + multiset(Bucket(s, key, 3)) + multiset(Bucket(s, key, 4)) == multiset(s)
  {
    var a, b, c, d, e := multiset(Bucket(s, key, 0)), multiset(Bucket(s, key, 1)), multiset(Bucket(s, key, 2)),
                         multiset(Bucket(s, key, 3)), multiset(Bucket(s, key, 4));
    forall x ensures a[x] + b[x] + c[x] + d[x] + e[x] == multiset(s)[x] {
      BucketsCount(s, key, x);
    }
    MultisetFromCounts(a, b, c, d, e, multiset(s));
  }

  lemma MultisetFromCounts<T>(a: multiset<T>, b: multiset<T>, c: multiset<T>, d: multiset<T>, e: multiset<T>, s: multiset<T>)
    requires forall x :: a[x] + b[x] + c[x] + d[x] + e[x] == s[x]
    ensures a + b + c + d + e == s
  {
    forall x ensures (a + b + c + d + e)[x] == s[x] {
    }
  }

  /** The values v of s with intersect(q, v), in order. */
  ghost function Matching<T>(s: seq<T>, intersect: (Box, T) -> bool, q: Box): seq<T>
  {
    if s == [] then []
    else Matching(s[..|s| - 1], intersect, q)
         + (if intersect(q, s[|s| - 1]) then [s[|s| - 1]] else [])
  }

  lemma {:induction false} MatchingConcat<T>(a: seq<T>, b: seq<T>, intersect: (Box, T) -> bool, q: Box)
    ensures Matching(a + b, intersect, q) == Matching(a, intersect, q) + Matching(b, intersect, q)
  {
    if b != [] {
      var b' := b[..|b| - 1];
      MatchingConcat(a, b', intersect, q);
      assert (a + b)[..|a + b| - 1] == a + b';
    } else {
      assert a + b == a;
    }
  }

  /** Brute force: Matching keeps every occurrence that intersects q and nothing else. */
  lemma {:induction false} MatchingCount<T>(s: seq<T>, intersect: (Box, T) -> bool, q: Box, x: T)
    ensures multiset(Matching(s, intersect, q))[x] == if intersect(q, x) then multiset(s)[x] else 0
  {
    if s != [] {
      var s' := s[..|s| - 1];
      MatchingCount(s', intersect, q, x);
      assert s == s' + [s[|s| - 1]];
    }
  }

  lemma {:induction false} MatchingNone<T>(s: seq<T>, intersect: (Box, T) -> bool, q: Box)
    requires forall v :: v in s ==> !intersect(q, v)
    ensures Matching(s, intersect, q) == []
  {
    if s != [] {
      MatchingNone(s[..|s| - 1], intersect, q);
    }
  }

  // ---------------------------------------------------------------------------
  // split, add

  /** split: a leaf becomes an interior node; each value moves to the leaf child
      of its first containing quadrant, and the values that no quadrant
      contains stay, in their original order. */
  ghost function Split<T>(t: Tree<T>, box: Box, contain: (Box, T) -> bool): (r: Tree<T>)
    requires t.children == []
    ensures Shaped(r) && |r.children| == 4
  {
    var key := ChildOf(contain, box);
    Tree(Bucket(t.values, key, 4),
         [Tree(Bucket(t.values, key, 0), []), Tree(Bucket(t.values, key, 1), []),
          Tree(Bucket(t.values, key, 2), []), Tree(Bucket(t.values, key, 3), [])])
  }

  /** The values under four leaves are their bags in order. */
  lemma FlattenLeaves<T>(a: seq<T>, b: seq<T>, c: seq<T>, d: seq<T>)
    ensures FlattenSeq([Tree(a, []), Tree(b, []), Tree(c, []), Tree(d, [])]) == a + b + c + d
  {
    var cs := [Tree(a, []), Tree(b, []), Tree(c, []), Tree(d, [])];
    assert cs[..0] == [];
    FlattenSeqStep(cs, 0);
    FlattenSeqStep(cs, 1);
    FlattenSeqStep(cs, 2);
    FlattenSeqStep(cs, 3);
    assert cs[..4] == cs;
  }


  /** split keeps every stored occurrence. */
  lemma SplitContents<T>(t: Tree<T>, box: Box, contain: (Box, T) -> bool)
    requires t.children == []
    ensures Contents(Split(t, box, contain)) == Contents(t)
  {
    var key := ChildOf(contain, box);
    var s := t.values;
    BucketsPartition(s, key);
    FlattenLeaves(Bucket(s, key, 0), Bucket(s, key, 1), Bucket(s, key, 2), Bucket(s, key, 3));
    assert Flatten(Split(t, box, contain)) == Bucket(s, key, 4) + (Bucket(s, key, 0) + Bucket(s, key, 1) + Bucket(s, key, 2) + Bucket(s, key, 3));
    assert Flatten(t) == s;
  }

  /** After split, each child holds only values of its quadrant and the node
      keeps only values of no quadrant (that nothing is lost is SplitContents). */
  lemma SplitPlaced<T>(t: Tree<T>, box: Box, contain: (Box, T) -> bool)
    requires t.children == []
    ensures Placed(Split(t, box, contain), box, contain)
  {
    var r := Split(t, box, contain);
    var key := ChildOf(contain, box);
    BucketMembers(t.values, key, 4);
    forall i | 0 <= i < 4
      ensures InQuadrant(Flatten(r.children[i]), contain, box, i)
    {
      BucketMembers(t.values, key, i);
      assert Flatten(r.children[i]) == Bucket(t.values, key, i);
    }
  }

  /** Each new child of a split leaf above MaxDepth holds at most as many
      values as the leaf did. */
  lemma SplitBounded<T>(t: Tree<T>, box: Box, depth: nat, contain: (Box, T) -> bool)
    requires t.children == [] && Bounded(t, depth) && depth < MaxDepth
    ensures Bounded(Split(t, box, contain), depth)
  {
    var r := Split(t, box, contain);
    var key := ChildOf(contain, box);
    forall i | 0 <= i < 4 ensures Bounded(r.children[i], depth + 1) {
      BucketMembers(t.values, key, i);
    }
  }

  /** Splitting a leaf that respects the invariant, above MaxDepth, gives an
      interior node that respects it. */
  lemma SplitInv<T>(t: Tree<T>, box: Box, depth: nat, contain: (Box, T) -> bool)
    requires t.children == [] && Inv(t, box, depth, contain) && depth < MaxDepth
    ensures Inv(Split(t, box, contain), box, depth, contain)
  {
    SplitPlaced(t, box, contain);
    SplitBounded(t, box, depth, contain);
    SplitContents(t, box, contain);
    var r := Split(t, box, contain);
    forall v | v in Flatten(r) ensures contain(box, v) {
      assert v in Contents(r);
      assert v in Contents(t);
    }
  }

  /** add: the tree after inserting v at a node of the given depth and box. A
      full leaf above MaxDepth is split and the insertion retried once at the
      now interior node; an interior node passes v to its first containing
      child, or keeps it in its own bag when no child contains it. */
  ghost function Add<T>(t: Tree<T>, depth: nat, box: Box, v: T, contain: (Box, T) -> bool): (r: Tree<T>)
    requires Shaped(t)
    ensures Shaped(r)
    decreases if depth < MaxDepth then MaxDepth - depth else 0,
              if depth < MaxDepth && t.children == [] then 1 else 0, t
  {
    if t.children == [] then
      if depth >= MaxDepth || |t.values| < Threshold then Tree(t.values + [v], [])
      else Add(Split(t, box, contain), depth, box, v, contain)
    else
      var i := FirstChild(contain, box, v);
      if i < 4 then
        t.(children := t.children[i := Add(t.children[i], depth + 1, ComputeBox(box, i), v, contain)])
      else
        t.(values := t.values + [v])
  }

  /** add stores exactly one more occurrence of v and loses nothing. */
  lemma {:induction false} AddContents<T>(t: Tree<T>, depth: nat, box: Box, v: T, contain: (Box, T) -> bool)
    requires Shaped(t)
    ensures Contents(Add(t, depth, box, v, contain)) == Contents(t) + multiset{v}
    decreases if depth < MaxDepth then MaxDepth - depth else 0,
              if depth < MaxDepth && t.children == [] then 1 else 0, t
  {
    if t.children == [] {
      if depth >= MaxDepth || |t.values| < Threshold {
        assert Flatten(Tree(t.values + [v], [])) == t.values + [v];
        assert Flatten(t) == t.values;
      } else {
        SplitContents(t, box, contain);
        AddContents(Split(t, box, contain), depth, box, v, contain);
      }
    } else {
      var i := FirstChild(contain, box, v);
      if i < 4 {
        var c := t.children[i];
        AddContents(c, depth + 1, ComputeBox(box, i), v, contain);
        ReplaceChildContents(t, i, Add(c, depth + 1, ComputeBox(box, i), v, contain), multiset{v}, multiset{});
      } else {
        assert Flatten(t.(values := t.values + [v])) == t.values + [v] + FlattenSeq(t.children);
      }
    }
  }

  /** Every value stored after add is v or was stored before. */
  lemma AddMembers<T>(t: Tree<T>, depth: nat, box: Box, v: T, contain: (Box, T) -> bool, w: T)
    requires Shaped(t) && w in Flatten(Add(t, depth, box, v, contain))
    ensures w == v || w in Flatten(t)
  {
    AddContents(t, depth, box, v, contain);
    assert w in Contents(Add(t, depth, box, v, contain));
  }

  /** add keeps every stored value in its first containing quadrant. */
  lemma {:induction false} AddPlaced<T>(t: Tree<T>, depth: nat, box: Box, v: T, contain: (Box, T) -> bool)
    requires Shaped(t) && Placed(t, box, contain)
    ensures Placed(Add(t, depth, box, v, contain), box, contain)
    decreases if depth < MaxDepth then MaxDepth - depth else 0,
              if depth < MaxDepth && t.children == [] then 1 else 0, t
  {
    if t.children == [] {
      if !(depth >= MaxDepth || |t.values| < Threshold) {
        SplitPlaced(t, box, contain);
        AddPlaced(Split(t, box, contain), depth, box, v, contain);
      }
    } else {
      var i := FirstChild(contain, box, v);
      if i < 4 {
        var c := t.children[i];
        var cb := ComputeBox(box, i);
        AddPlaced(c, depth + 1, cb, v, contain);
        var c' := Add(c, depth + 1, cb, v, contain);
        forall w | w in Flatten(c') ensures FirstChild(contain, box, w) == i {
          AddMembers(c, depth + 1, cb, v, contain, w);
        }
        PlacedReplaceChild(t, box, contain, i, c');
      }
    }
  }

  /** add keeps the depth and size bounds: a full leaf above MaxDepth is split
      before it would exceed Threshold. */
  lemma {:induction false} AddBounded<T>(t: Tree<T>, depth: nat, box: Box, v: T, contain: (Box, T) -> bool)
    requires Shaped(t) && Bounded(t, depth)
    ensures Bounded(Add(t, depth, box, v, contain), depth)
    decreases if depth < MaxDepth then MaxDepth - depth else 0,
              if depth < MaxDepth && t.children == [] then 1 else 0, t
  {
    if t.children == [] {
      if !(depth >= MaxDepth || |t.values| < Threshold) {
        SplitBounded(t, box, depth, contain);
        AddBounded(Split(t, box, contain), depth, box, v, contain);
      }
    } else {
      var i := FirstChild(contain, box, v);
      if i < 4 {
        var c := t.children[i];
        AddBounded(c, depth + 1, ComputeBox(box, i), v, contain);
        BoundedReplaceChild(t, depth, i, Add(c, depth + 1, ComputeBox(box, i), v, contain));
      }
    }
  }

  /** add keeps the invariant, given that the node's box contains v (which the
      source asserts). */
  lemma AddInv<T>(t: Tree<T>, depth: nat, box: Box, v: T, contain: (Box, T) -> bool)
    requires Inv(t, box, depth, contain) && contain(box, v)
    ensures Inv(Add(t, depth, box, v, contain), box, depth, contain)
  {
    AddPlaced(t, depth, box, v, contain);
    AddBounded(t, depth, box, v, contain);
    forall w | w in Flatten(Add(t, depth, box, v, contain)) ensures contain(box, w) {
      AddMembers(t, depth, box, v, contain, w);
    }
  }

  // ---------------------------------------------------------------------------
  // remove, tryMerge

  /** The sequence with its first occurrence of v erased (std::find, then
      erase); a sequence without v is returned unchanged. */
  ghost function EraseFirst<T>(s: seq<T>, v: T): seq<T>
  {
    if s == [] then []
    else if s[0] == v then s[1..]
    else [s[0]] + EraseFirst(s[1..], v)
  }

  /** Erasing at the first index holding v is EraseFirst. */
  lemma {:induction false} EraseFirstAt<T>(s: seq<T>, v: T, k: nat)
    requires k < |s| && s[k] == v && forall j :: 0 <= j < k ==> s[j] != v
    ensures EraseFirst(s, v) == s[..k] + s[k + 1..]
  {
    if k > 0 {
      EraseFirstAt(s[1..], v, k - 1);
      assert s[..k] == [s[0]] + s[1..][..k - 1];
      assert s[k + 1..] == s[1..][k..];
    }
  }

  /** When v is absent nothing is erased. */
  lemma {:induction false} EraseFirstAbsent<T>(s: seq<T>, v: T)
    requires v !in s
    ensures EraseFirst(s, v) == s
  {
    if s != [] {
      assert v !in s[1..];
      EraseFirstAbsent(s[1..], v);
      assert s == [s[0]] + s[1..];
    }
  }

  /** EraseFirst removes exactly one occurrence of a present v. */
  lemma {:induction false} EraseFirstCount<T>(s: seq<T>, v: T)
    requires v in s
    ensures multiset(EraseFirst(s, v)) + multiset{v} == multiset(s)
  {
    var tail := s[1..];
    assert s == [s[0]] + tail;
    if s[0] != v {
      EraseFirstCount(tail, v);
      assert EraseFirst(s, v) == [s[0]] + EraseFirst(tail, v);
      MultisetPrefix(multiset{s[0]}, multiset(EraseFirst(tail, v)), multiset{v}, multiset(tail), multiset{});
    }
  }

  /** EraseFirst keeps only values of s, and no more of them. */
  lemma {:induction false} EraseFirstSub<T>(s: seq<T>, v: T)
    ensures |EraseFirst(s, v)| <= |s|
    ensures forall w :: w in EraseFirst(s, v) ==> w in s
  {
    if s != [] && s[0] != v {
      EraseFirstSub(s[1..], v);
    }
  }

  /** The bags of a sequence of siblings, concatenated. */
  ghost function ChildValues<T>(cs: seq<Tree<T>>): seq<T>
  {
    if cs == [] then [] else ChildValues(cs[..|cs| - 1]) + cs[|cs| - 1].values
  }

  ghost predicate AllLeaves<T>(cs: seq<Tree<T>>) {
    forall i :: 0 <= i < |cs| ==> cs[i].children == []
  }

  /** tryMerge: when every child is a leaf and the node's bag and the child
      bags hold at most Threshold values together, the node becomes a leaf
      whose bag is its own followed by the children's, in child order;
      otherwise nothing changes. */
  ghost function TryMerge<T>(t: Tree<T>): Tree<T>
    requires t.children != []
  {
    if AllLeaves(t.children) && |t.values| + |ChildValues(t.children)| <= Threshold
    then Tree(t.values + ChildValues(t.children), [])
    else t
  }

  /** Under leaves only, the children's bags are the children's values. */
  lemma {:induction false} ChildValuesFlatten<T>(cs: seq<Tree<T>>)
    requires AllLeaves(cs)
    ensures ChildValues(cs) == FlattenSeq(cs)
  {
    if cs != [] {
      ChildValuesFlatten(cs[..|cs| - 1]);
      assert Flatten(cs[|cs| - 1]) == cs[|cs| - 1].values;
    }
  }

  /** Merging lists the stored values in the same order as before, and a
      merge happens exactly when the source's condition holds. */
  lemma TryMergeFlatten<T>(t: Tree<T>)
    requires t.children != []
    ensures Flatten(TryMerge(t)) == Flatten(t)
    ensures TryMerge(t).children == [] <==> AllLeaves(t.children) && |Flatten(t)| <= Threshold
    ensures TryMerge(t).children != [] ==> TryMerge(t) == t
  {
    if AllLeaves(t.children) {
      ChildValuesFlatten(t.children);
    }
  }

  /** tryMerge keeps the invariant: a merged node is a leaf of at most
      Threshold values holding the same values. */
  lemma TryMergeInv<T>(t: Tree<T>, box: Box, depth: nat, contain: (Box, T) -> bool)
    requires t.children != [] && Inv(t, box, depth, contain)
    ensures Inv(TryMerge(t), box, depth, contain)
  {
    TryMergeFlatten(t);
  }

  /** remove: the tree after removing v, descending as add does. After erasing
      from a leaf child, the node tries to merge (the source calls tryMerge on
      the parent of the leaf); nothing merges after erasing from an interior
      bag, and merging never cascades further up. */
  ghost function Remove<T>(t: Tree<T>, box: Box, v: T, contain: (Box, T) -> bool): (r: Tree<T>)
    requires Shaped(t)
    ensures Shaped(r)
    ensures t.children == [] ==> r.children == []
    decreases t
  {
    if t.children == [] then Tree(EraseFirst(t.values, v), [])
    else
      var i := FirstChild(contain, box, v);
      if i < 4 then
        var c := t.children[i];
        var t' := t.(children := t.children[i := Remove(c, ComputeBox(box, i), v, contain)]);
        if c.children == [] then TryMerge(t') else t'
      else
        t.(values := EraseFirst(t.values, v))
  }

  /** A value stored under an interior node is in the bag when no quadrant
      contains it, and under its first containing child otherwise. */
  lemma Locate<T>(t: Tree<T>, box: Box, v: T, contain: (Box, T) -> bool)
    requires Placed(t, box, contain) && v in Flatten(t) && t.children != []
    ensures var i := FirstChild(contain, box, v);
      if i < 4 then i < |t.children| && v in Flatten(t.children[i]) else v in t.values
  {
    if v !in t.values {
      InFlattenSeq(t.children, v);
      var j :| 0 <= j < |t.children| && v in Flatten(t.children[j]);
      assert FirstChild(contain, box, v) == j;
    }
  }

  /** The multiset effect of remove: at most one occurrence goes, and only
      of v; exactly one goes when v is stored and the tree is placed. */
  lemma {:induction false} RemoveCount<T>(t: Tree<T>, box: Box, v: T, contain: (Box, T) -> bool)
    requires Shaped(t)
    ensures var r := Remove(t, box, v, contain);
      Contents(r) == Contents(t) || Contents(r) + multiset{v} == Contents(t)
    ensures Placed(t, box, contain) && v in Contents(t) ==>
      Contents(Remove(t, box, v, contain)) + multiset{v} == Contents(t)
    decreases t, 1
  {
    if t.children == [] {
      var r := Remove(t, box, v, contain);
      assert Flatten(r) == EraseFirst(t.values, v);
      assert Flatten(t) == t.values;
      if v in t.values {
        EraseFirstCount(t.values, v);
      } else {
        EraseFirstAbsent(t.values, v);
      }
    } else if FirstChild(contain, box, v) < 4 {
      RemoveCountChild(t, box, v, contain);
    } else {
      var r := Remove(t, box, v, contain);
      assert r == t.(values := EraseFirst(t.values, v));
      if Placed(t, box, contain) && v in Contents(t) {
        Locate(t, box, v, contain);
      }
      if v in t.values {
        EraseFirstCount(t.values, v);
        MultisetPrefix(multiset(FlattenSeq(t.children)), multiset(EraseFirst(t.values, v)), multiset{v},
                       multiset(t.values), multiset{});
        assert Flatten(r) == EraseFirst(t.values, v) + FlattenSeq(t.children);
      } else {
        EraseFirstAbsent(t.values, v);
      }
    }
  }

  /** The step of RemoveCount that descends into the first containing child. */
  lemma {:induction false} RemoveCountChild<T>(t: Tree<T>, box: Box, v: T, contain: (Box, T) -> bool)
    requires Shaped(t) && t.children != [] && FirstChild(contain, box, v) < 4
    ensures var r := Remove(t, box, v, contain);
      Contents(r) == Contents(t) || Contents(r) + multiset{v} == Contents(t)
    ensures Placed(t, box, contain) && v in Contents(t) ==>
      Contents(Remove(t, box, v, contain)) + multiset{v} == Contents(t)
    decreases t, 0
  {
    var i := FirstChild(contain, box, v);
    var c := t.children[i];
    var c' := Remove(c, ComputeBox(box, i), v, contain);
    var t' := t.(children := t.children[i := c']);
    RemoveCount(c, ComputeBox(box, i), v, contain);
    if Placed(t, box, contain) && v in Contents(t) {
      Locate(t, box, v, contain);
    }
    ReplaceChildAtMostOne(t, i, c', v);
    if c.children == [] {
      TryMergeFlatten(t');
      assert Remove(t, box, v, contain) == TryMerge(t');
    } else {
      assert Remove(t, box, v, contain) == t';
    }
  }

  /** Losing at most one v in child i loses at most one v in the node. */
  lemma ReplaceChildAtMostOne<T>(t: Tree<T>, i: nat, c: Tree<T>, v: T)
    requires i < |t.children|
    requires Contents(c) == Contents(t.children[i]) || Contents(c) + multiset{v} == Contents(t.children[i])
    ensures var t' := t.(children := t.children[i := c]);
      && (Contents(t') == Contents(t) || Contents(t') + multiset{v} == Contents(t))
      && (Contents(c) + multiset{v} == Contents(t.children[i]) ==> Contents(t') + multiset{v} == Contents(t))
  {
    if Contents(c) + multiset{v} == Contents(t.children[i]) {
      ReplaceChildContents(t, i, c, multiset{}, multiset{v});
    } else {
      var t' := t.(children := t.children[i := c]);
      assert Contents(c) + multiset{} == Contents(t.children[i]) + multiset{};
      ReplaceChildContents(t, i, c, multiset{}, multiset{});
      assert Contents(t') + multiset{} == Contents(t');
      assert Contents(t) + multiset{} == Contents(t);
    }
  }

  /** Every value stored after remove was stored before. */
  lemma RemoveMembers<T>(t: Tree<T>, box: Box, v: T, contain: (Box, T) -> bool, w: T)
    requires Shaped(t) && w in Flatten(Remove(t, box, v, contain))
    ensures w in Flatten(t)
  {
    RemoveCount(t, box, v, contain);
    assert w in Contents(Remove(t, box, v, contain));
    assert w in Contents(t);
  }

  /** remove keeps every stored value in its first containing quadrant. */
  lemma {:induction false} RemovePlaced<T>(t: Tree<T>, box: Box, v: T, contain: (Box, T) -> bool)
    requires Shaped(t) && Placed(t, box, contain)
    ensures Placed(Remove(t, box, v, contain), box, contain)
    decreases t
  {
    if t.children != [] {
      var i := FirstChild(contain, box, v);
      if i < 4 {
        var c := t.children[i];
        var cb := ComputeBox(box, i);
        RemovePlaced(c, cb, v, contain);
        var c' := Remove(c, cb, v, contain);
        forall w | w in Flatten(c') ensures FirstChild(contain, box, w) == i {
          RemoveMembers(c, cb, v, contain, w);
        }
        PlacedReplaceChild(t, box, contain, i, c');
      } else {
        EraseFirstSub(t.values, v);
      }
    }
  }

  /** remove keeps the depth and size bounds; a merge makes a leaf of at most
      Threshold values. */
  lemma {:induction false} RemoveBounded<T>(t: Tree<T>, box: Box, depth: nat, v: T, contain: (Box, T) -> bool)
    requires Shaped(t) && Bounded(t, depth)
    ensures Bounded(Remove(t, box, v, contain), depth)
    decreases t
  {
    if t.children == [] {
      EraseFirstSub(t.values, v);
    } else {
      var i := FirstChild(contain, box, v);
      if i < 4 {
        var c := t.children[i];
        RemoveBounded(c, ComputeBox(box, i), depth + 1, v, contain);
        BoundedReplaceChild(t, depth, i, Remove(c, ComputeBox(box, i), v, contain));
      }
    }
  }

  /** remove keeps the invariant. */
  lemma RemoveInv<T>(t: Tree<T>, box: Box, depth: nat, v: T, contain: (Box, T) -> bool)
    requires Inv(t, box, depth, contain)
    ensures Inv(Remove(t, box, v, contain), box, depth, contain)
  {
    RemovePlaced(t, box, v, contain);
    RemoveBounded(t, box, depth, v, contain);
    forall w | w in Flatten(Remove(t, box, v, contain)) ensures contain(box, w) {
      RemoveMembers(t, box, v, contain, w);
    }
  }

  /** Merging happens only at the parent of the leaf erased from: removing from
      an interior node's own bag, or through an interior child, leaves the
      node interior with the same number of children. */
  lemma RemoveMergesOnlyAboveLeaf<T>(t: Tree<T>, box: Box, v: T, contain: (Box, T) -> bool)
    requires Shaped(t) && t.children != []
    requires var i := FirstChild(contain, box, v); i == 4 || t.children[i].children != []
    ensures |Remove(t, box, v, contain).children| == |t.children|
    ensures FirstChild(contain, box, v) == 4 ==>
      Remove(t, box, v, contain) == Tree(EraseFirst(t.values, v), t.children)
  {
  }
}
