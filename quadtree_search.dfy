/** What query and findAllIntersections of include/Quadtree.h report, as
    functions of the tree, and why that agrees with a brute-force scan of
    every stored value. */
module QuadtreeSearch {
  import opened Vectors
  import opened Boxes
  import opened QuadtreeSpec

  /** The children of a placed interior node, as a sequence property that
      survives taking a prefix. */
  ghost predicate PlacedChildren<T(!new)>(cs: seq<Tree<T>>, box: Box, contain: (Box, T) -> bool) {
    && |cs| <= 4
    && forall j :: 0 <= j < |cs| ==>
      && Shaped(cs[j])
      && Placed(cs[j], ComputeBox(box, j), contain)
      && InQuadrant(Flatten(cs[j]), contain, box, j)
  }

  lemma PlacedChildrenOf<T(!new)>(t: Tree<T>, box: Box, contain: (Box, T) -> bool)
    requires Shaped(t) && Placed(t, box, contain)
    ensures PlacedChildren(t.children, box, contain)
  {
  }

  lemma PlacedChildrenPrefix<T(!new)>(cs: seq<Tree<T>>, box: Box, contain: (Box, T) -> bool, k: nat)
    requires PlacedChildren(cs, box, contain) && k <= |cs|
    ensures PlacedChildren(cs[..k], box, contain)
  {
    forall j | 0 <= j < k
      ensures Shaped(cs[..k][j]) && Placed(cs[..k][j], ComputeBox(box, j), contain)
      ensures InQuadrant(Flatten(cs[..k][j]), contain, box, j)
    {
      assert cs[..k][j] == cs[j];
    }
  }

  // ---------------------------------------------------------------------------
  // query

  /** What query appends at a node: the node's values v with intersect(q, v),
      then, child by child, what it appends at each child whose quadrant
      intersects q; children whose quadrant misses q are never visited. */
  ghost function Queried<T(!new)>(t: Tree<T>, box: Box, q: Box, intersect: (Box, T) -> bool): seq<T>
    requires Shaped(t)
    decreases t, 1
  {
    Matching(t.values, intersect, q) + QueriedSeq(t.children, box, q, intersect)
  }

  /** What query appends at the first |cs| children of a node of the given box. */
  ghost function QueriedSeq<T(!new)>(cs: seq<Tree<T>>, box: Box, q: Box, intersect: (Box, T) -> bool): seq<T>
    requires |cs| <= 4 && forall j :: 0 <= j < |cs| ==> Shaped(cs[j])
    decreases cs, 0
  {
    if cs == [] then []
    else
      var k := |cs| - 1;
      QueriedSeq(cs[..k], box, q, intersect)
      + (if q.Intersects(ComputeBox(box, k)) then Queried(cs[k], ComputeBox(box, k), q, intersect) else [])
  }

  /** One more child: what query appends at the first k + 1 children. */
  lemma QueriedSeqStep<T(!new)>(cs: seq<Tree<T>>, k: nat, box: Box, q: Box, intersect: (Box, T) -> bool)
    requires k < |cs| <= 4 && forall j :: 0 <= j < |cs| ==> Shaped(cs[j])
    ensures QueriedSeq(cs[..k + 1], box, q, intersect)
         == QueriedSeq(cs[..k], box, q, intersect)
            + (if q.Intersects(ComputeBox(box, k)) then Queried(cs[k], ComputeBox(box, k), q, intersect) else [])
  {
    assert cs[..k + 1][..k] == cs[..k];
  }

  /** The assumption that makes pruning sound: a value that meets the query
      box lies in no box that misses the query box. With getBox-style callables
      (contain = box contains getBox(v), intersect = boxes intersect) it always
      holds; see BoxCallablesConsistent. */
  ghost predicate QueryConsistent<T(!new)>(contain: (Box, T) -> bool, intersect: (Box, T) -> bool, q: Box) {
    forall b: Box, v: T :: contain(b, v) && intersect(q, v) ==> q.Intersects(b)
  }

  /** query equals the brute-force filter: on a placed tree, with a consistent
      pair of callables, the values reported are exactly the stored
      occurrences that meet q, in pre-order. */
  lemma {:induction false} QueryBruteForce<T(!new)>(t: Tree<T>, box: Box, q: Box, contain: (Box, T) -> bool, intersect: (Box, T) -> bool)
    requires Shaped(t) && Placed(t, box, contain) && QueryConsistent(contain, intersect, q)
    ensures Queried(t, box, q, intersect) == Matching(Flatten(t), intersect, q)
    decreases t, 1
  {
    PlacedChildrenOf(t, box, contain);
    QueriedSeqBruteForce(t.children, box, q, contain, intersect);
    MatchingConcat(t.values, FlattenSeq(t.children), intersect, q);
  }

  lemma {:induction false} QueriedSeqBruteForce<T(!new)>(cs: seq<Tree<T>>, box: Box, q: Box, contain: (Box, T) -> bool, intersect: (Box, T) -> bool)
    requires |cs| <= 4 && PlacedChildren(cs, box, contain) && QueryConsistent(contain, intersect, q)
    ensures QueriedSeq(cs, box, q, intersect) == Matching(FlattenSeq(cs), intersect, q)
    decreases cs, 0
  {
    if cs != [] {
      var k := |cs| - 1;
      PlacedChildrenPrefix(cs, box, contain, k);
      QueriedSeqBruteForce(cs[..k], box, q, contain, intersect);
      QueriedChildBruteForce(cs[k], box, k, q, contain, intersect);
      MatchingConcat(FlattenSeq(cs[..k]), Flatten(cs[k]), intersect, q);
    }
  }

  /** What query appends for child k, visited or pruned, is the brute-force
      filter of that child's values. */
  lemma {:induction false} QueriedChildBruteForce<T(!new)>(c: Tree<T>, box: Box, k: nat, q: Box, contain: (Box, T) -> bool, intersect: (Box, T) -> bool)
    requires k < 4 && Shaped(c) && Placed(c, ComputeBox(box, k), contain) && QueryConsistent(contain, intersect, q)
    requires InQuadrant(Flatten(c), contain, box, k)
    ensures (if q.Intersects(ComputeBox(box, k)) then Queried(c, ComputeBox(box, k), q, intersect) else [])
         == Matching(Flatten(c), intersect, q)
    decreases c, 2
  {
    if q.Intersects(ComputeBox(box, k)) {
      QueryBruteForce(c, ComputeBox(box, k), q, contain, intersect);
    } else {
      PrunedChildMatchesNothing(c, box, k, q, contain, intersect);
    }
  }

  /** A child whose quadrant misses q holds no value that meets q. */
  lemma PrunedChildMatchesNothing<T(!new)>(c: Tree<T>, box: Box, k: nat, q: Box, contain: (Box, T) -> bool, intersect: (Box, T) -> bool)
    requires k < 4 && QueryConsistent(contain, intersect, q) && !q.Intersects(ComputeBox(box, k))
    requires InQuadrant(Flatten(c), contain, box, k)
    ensures Matching(Flatten(c), intersect, q) == []
  {
    forall w | w in Flatten(c) ensures !intersect(q, w) {
      assert FirstChild(contain, box, w) == k;
    }
    MatchingNone(Flatten(c), intersect, q);
  }

  /** The brute-force filter, counted: each stored occurrence that meets q is
      reported once, and nothing else is. */
  lemma QueryCount<T(!new)>(t: Tree<T>, box: Box, q: Box, contain: (Box, T) -> bool, intersect: (Box, T) -> bool, x: T)
    requires Shaped(t) && Placed(t, box, contain) && QueryConsistent(contain, intersect, q)
    ensures multiset(Queried(t, box, q, intersect))[x] == if intersect(q, x) then Contents(t)[x] else 0
  {
    QueryBruteForce(t, box, q, contain, intersect);
    MatchingCount(Flatten(t), intersect, q, x);
  }

  // ---------------------------------------------------------------------------
  // findAllIntersections: the pairs tested

  /** The pairs (x, y) for y in s, in order. */
  ghost function PairsWith<T(!new)>(x: T, s: seq<T>): seq<(T, T)>
  {
    if s == [] then [] else PairsWith(x, s[..|s| - 1]) + [(x, s[|s| - 1])]
  }

  /** Pairing with a concatenation pairs with each part in turn. */
  lemma {:induction false} PairsWithConcat<T(!new)>(x: T, a: seq<T>, b: seq<T>)
    ensures PairsWith(x, a + b) == PairsWith(x, a) + PairsWith(x, b)
  {
    if b != [] {
      var b' := b[..|b| - 1];
      PairsWithConcat(x, a, b');
      assert (a + b)[..|a + b| - 1] == a + b';
    } else {
      assert a + b == a;
    }
  }

  /** The reported pairs of a node are those of its bag, then those of the
      bag against its children, then those inside each child. */
  lemma ReportedTested<T(!new)>(t: Tree<T>, intersect: (T, T) -> bool)
    ensures Reported(Tested(t), intersect)
         == Reported(AllPairs(t.values), intersect) + Reported(CrossSeq(t.values, t.children), intersect)
            + Reported(TestedSeq(t.children), intersect)
  {
    ReportedConcat(AllPairs(t.values) + CrossSeq(t.values, t.children), TestedSeq(t.children), intersect);
    ReportedConcat(AllPairs(t.values), CrossSeq(t.values, t.children), intersect);
  }

  /** The pairs of x with a concatenation that intersect are those with
      each part in turn. */
  lemma ReportedPairsWithConcat<T(!new)>(x: T, a: seq<T>, b: seq<T>, intersect: (T, T) -> bool)
    ensures Reported(PairsWith(x, a + b), intersect) == Reported(PairsWith(x, a), intersect) + Reported(PairsWith(x, b), intersect)
  {
    PairsWithConcat(x, a, b);
    ReportedConcat(PairsWith(x, a), PairsWith(x, b), intersect);
  }

  /** The pairs (s[i], s[j]) with j < i, in the order of the double loop over a bag. */
  ghost function AllPairs<T(!new)>(s: seq<T>): seq<(T, T)>
  {
    if s == [] then [] else AllPairs(s[..|s| - 1]) + PairsWith(s[|s| - 1], s[..|s| - 1])
  }

  /** The pairs (x, y) for x in a, then y in b. */
  ghost function Cross<T(!new)>(a: seq<T>, b: seq<T>): seq<(T, T)>
  {
    if a == [] then [] else Cross(a[..|a| - 1], b) + PairsWith(a[|a| - 1], b)
  }

  /** The pairs a node's bag makes with its first |cs| children: child by
      child, each value of the bag against the child's whole subtree in
      pre-order (findIntersectionsInChildren). */
  ghost function CrossSeq<T(!new)>(vs: seq<T>, cs: seq<Tree<T>>): seq<(T, T)>
  {
    if cs == [] then [] else CrossSeq(vs, cs[..|cs| - 1]) + Cross(vs, Flatten(cs[|cs| - 1]))
  }

  /** Every pair findAllIntersections tests at a node, in the order it tests
      them: the bag's own pairs, the bag against each child subtree, then
      each child recursively. */
  ghost function Tested<T(!new)>(t: Tree<T>): seq<(T, T)>
    decreases t, 1
  {
    AllPairs(t.values) + CrossSeq(t.values, t.children) + TestedSeq(t.children)
  }

  ghost function TestedSeq<T(!new)>(cs: seq<Tree<T>>): seq<(T, T)>
    decreases cs, 0
  {
    if cs == [] then [] else TestedSeq(cs[..|cs| - 1]) + Tested(cs[|cs| - 1])
  }

  /** The pairs of ps for which intersect holds, in order. */
  ghost function Reported<T(!new)>(ps: seq<(T, T)>, intersect: (T, T) -> bool): seq<(T, T)>
  {
    if ps == [] then []
    else Reported(ps[..|ps| - 1], intersect)
         + (if intersect(ps[|ps| - 1].0, ps[|ps| - 1].1) then [ps[|ps| - 1]] else [])
  }

  /** The assumption that makes skipping sibling pairs sound: two values that
      intersect lie in no two boxes that do not intersect. */
  ghost predicate PairConsistent<T(!new)>(contain: (Box, T) -> bool, intersect: (T, T) -> bool) {
    forall b1: Box, b2: Box, u: T, w: T :: contain(b1, u) && contain(b2, w) && intersect(u, w) ==> b1.Intersects(b2)
  }

  ghost predicate Symmetric<T(!new)>(intersect: (T, T) -> bool) {
    forall u: T, w: T :: intersect(u, w) == intersect(w, u)
  }

  // ---------------------------------------------------------------------------
  // Counting pairs

  /** How often the unordered pair {u, w} occurs in ps, in either orientation. */
  ghost function SymCount<T(!new)>(ps: seq<(T, T)>, u: T, w: T): nat {
    multiset(ps)[(u, w)] + (if u == w then 0 else multiset(ps)[(w, u)])
  }

  /** n choose 2. */
  ghost function Choose2(n: nat): nat {
    if n == 0 then 0 else Choose2(n - 1) + (n - 1)
  }

  /** The number of unordered pairs of distinct occurrences in m whose values
      are u and w. */
  ghost function PairCount<T(!new)>(m: multiset<T>, u: T, w: T): nat {
    if u == w then Choose2(m[u]) else m[u] * m[w]
  }

  /** The number of pairs {u, w} with one occurrence from a and one from b. */
  ghost function CrossTerm<T(!new)>(a: multiset<T>, b: multiset<T>, u: T, w: T): nat {
    if u == w then a[u] * b[u] else a[u] * b[w] + a[w] * b[u]
  }

  /** The multiset of a sequence is that of its front plus its last element. */
  lemma MultisetSnoc<T>(s: seq<T>)
    requires s != []
    ensures multiset(s) == multiset(s[..|s| - 1]) + multiset{s[|s| - 1]}
  {
    assert s == s[..|s| - 1] + [s[|s| - 1]];
  }

  lemma SymCountConcat<T(!new)>(a: seq<(T, T)>, b: seq<(T, T)>, u: T, w: T)
    ensures SymCount(a + b, u, w) == SymCount(a, u, w) + SymCount(b, u, w)
  {
    assert multiset(a + b) == multiset(a) + multiset(b);
  }

  /** (x, y) occurs in PairsWith(x, s) once per occurrence of y in s. */
  lemma {:induction false} PairsWithCount<T(!new)>(x: T, s: seq<T>, u: T, w: T)
    ensures multiset(PairsWith(x, s))[(u, w)] == if u == x then multiset(s)[w] else 0
  {
    if s != [] {
      var s' := s[..|s| - 1];
      PairsWithCount(x, s', u, w);
      assert s == s' + [s[|s| - 1]];
      assert multiset(s) == multiset(s') + multiset{s[|s| - 1]};
    }
  }

  /** The pairs {u, w} that one more occurrence of x makes with the occurrences in m. */
  ghost function SingleTerm<T(!new)>(x: T, m: multiset<T>, u: T, w: T): nat {
    if u == w then (if x == u then m[u] else 0)
    else (if x == u then m[w] else 0) + (if x == w then m[u] else 0)
  }

  lemma PairsWithSymCount<T(!new)>(x: T, s: seq<T>, u: T, w: T)
    ensures SymCount(PairsWith(x, s), u, w) == SingleTerm(x, multiset(s), u, w)
  {
    PairsWithCount(x, s, u, w);
    PairsWithCount(x, s, w, u);
  }

  lemma MulDistrib(a: int, b: int, c: int)
    ensures (a + b) * c == a * c + b * c && c * (a + b) == c * a + c * b
  {
  }

  lemma Choose2Add(a: nat, b: nat)
    ensures Choose2(a + b) == Choose2(a) + Choose2(b) + a * b
    decreases b
  {
    if b > 0 {
      Choose2Add(a, b - 1);
      assert Choose2(a + b) == Choose2(a + b - 1) + (a + b - 1);
      assert a * b == a * (b - 1) + a;
    }
  }

  /** Pairs from a union are the pairs inside each part and the pairs across. */
  lemma PairCountUnion<T(!new)>(a: multiset<T>, b: multiset<T>, u: T, w: T)
    ensures PairCount(a + b, u, w) == PairCount(a, u, w) + PairCount(b, u, w) + CrossTerm(a, b, u, w)
  {
    if u == w {
      Choose2Add(a[u], b[u]);
    } else {
      assert (a[u] + b[u]) * (a[w] + b[w]) == a[u] * a[w] + b[u] * b[w] + (a[u] * b[w] + a[w] * b[u]);
    }
  }

  /** One more occurrence of x on the left of a cross term adds its single term. */
  lemma CrossTermAddLeft<T(!new)>(a: multiset<T>, x: T, b: multiset<T>, u: T, w: T)
    ensures CrossTerm(a + multiset{x}, b, u, w) == CrossTerm(a, b, u, w) + SingleTerm(x, b, u, w)
  {
    var a' := a + multiset{x};
    if u == w {
      if x == u {
        assert a'[u] == a[u] + 1;
        MulDistrib(a[u], 1, b[u]);
      } else {
        assert a'[u] == a[u];
      }
    } else {
      assert a'[u] == a[u] + (if x == u then 1 else 0);
      assert a'[w] == a[w] + (if x == w then 1 else 0);
      MulDistrib(a[u], if x == u then 1 else 0, b[w]);
      MulDistrib(a[w], if x == w then 1 else 0, b[u]);
    }
  }

  /** One more occurrence of x adds the pairs it makes with the others. */
  lemma PairCountAddOne<T(!new)>(m: multiset<T>, x: T, u: T, w: T)
    ensures PairCount(m + multiset{x}, u, w) == PairCount(m, u, w) + SingleTerm(x, m, u, w)
  {
    var m' := m + multiset{x};
    if u == w {
      if x == u {
        assert m'[u] == m[u] + 1;
      } else {
        assert m'[u] == m[u];
      }
    } else {
      assert m'[u] == m[u] + (if x == u then 1 else 0);
      assert m'[w] == m[w] + (if x == w then 1 else 0);
      MulDistrib(m[u], if x == u then 1 else 0, m'[w]);
      MulDistrib(m[w], if x == w then 1 else 0, m[u]);
      assert m'[w] * m[u] == m[u] * m'[w];
    }
  }

  lemma CrossTermUnionRight<T(!new)>(a: multiset<T>, b: multiset<T>, b': multiset<T>, u: T, w: T)
    ensures CrossTerm(a, b + b', u, w) == CrossTerm(a, b, u, w) + CrossTerm(a, b', u, w)
  {
    MulDistrib(b[w], b'[w], a[u]);
    MulDistrib(b[u], b'[u], a[w]);
    MulDistrib(b[u], b'[u], a[u]);
  }

  lemma CrossTermZero<T(!new)>(a: multiset<T>, b: multiset<T>, u: T, w: T)
    requires (a[u] == 0 || b[w] == 0) && (a[w] == 0 || b[u] == 0)
    ensures CrossTerm(a, b, u, w) == 0
  {
  }

  /** The bag's double loop tests each unordered pair of its occurrences once. */
  lemma {:induction false} AllPairsCount<T(!new)>(s: seq<T>, u: T, w: T)
    ensures SymCount(AllPairs(s), u, w) == PairCount(multiset(s), u, w)
  {
    if s != [] {
      var s' := s[..|s| - 1];
      var x := s[|s| - 1];
      AllPairsCount(s', u, w);
      assert AllPairs(s) == AllPairs(s') + PairsWith(x, s');
      SymCountConcat(AllPairs(s'), PairsWith(x, s'), u, w);
      PairsWithSymCount(x, s', u, w);
      MultisetSnoc(s);
      PairCountAddOne(multiset(s'), x, u, w);
    }
  }

  /** Cross(a, b) tests each pair of an occurrence in a with one in b once. */
  lemma {:induction false} CrossCount<T(!new)>(a: seq<T>, b: seq<T>, u: T, w: T)
    ensures SymCount(Cross(a, b), u, w) == CrossTerm(multiset(a), multiset(b), u, w)
  {
    if a != [] {
      var a' := a[..|a| - 1];
      var x := a[|a| - 1];
      CrossCount(a', b, u, w);
      assert Cross(a, b) == Cross(a', b) + PairsWith(x, b);
      SymCountConcat(Cross(a', b), PairsWith(x, b), u, w);
      PairsWithSymCount(x, b, u, w);
      MultisetSnoc(a);
      CrossTermAddLeft(multiset(a'), x, multiset(b), u, w);
    }
  }

  lemma {:induction false} CrossSeqCount<T(!new)>(vs: seq<T>, cs: seq<Tree<T>>, u: T, w: T)
    ensures SymCount(CrossSeq(vs, cs), u, w) == CrossTerm(multiset(vs), multiset(FlattenSeq(cs)), u, w)
  {
    if cs != [] {
      var cs' := cs[..|cs| - 1];
      var c := cs[|cs| - 1];
      CrossSeqCount(vs, cs', u, w);
      SymCountConcat(CrossSeq(vs, cs'), Cross(vs, Flatten(c)), u, w);
      CrossCount(vs, Flatten(c), u, w);
      CrossTermUnionRight(multiset(vs), multiset(FlattenSeq(cs')), multiset(Flatten(c)), u, w);
    }
  }

  /** Values in different children never intersect: their quadrants do not. */
  lemma SiblingsApart<T(!new)>(cs: seq<Tree<T>>, box: Box, contain: (Box, T) -> bool, intersect: (T, T) -> bool, u: T, w: T)
    requires cs != [] && PlacedChildren(cs, box, contain) && PairConsistent(contain, intersect) && intersect(u, w)
    ensures var k := |cs| - 1;
      && !(u in FlattenSeq(cs[..k]) && w in Flatten(cs[k]))
      && !(w in FlattenSeq(cs[..k]) && u in Flatten(cs[k]))
  {
    var k := |cs| - 1;
    forall a: T, b: T | a in FlattenSeq(cs[..k]) && b in Flatten(cs[k]) && (intersect(a, b) || intersect(b, a))
      ensures false
    {
      InFlattenSeq(cs[..k], a);
      var j :| 0 <= j < k && a in Flatten(cs[..k][j]);
      assert cs[..k][j] == cs[j];
      assert InQuadrant(Flatten(cs[j]), contain, box, j) && InQuadrant(Flatten(cs[k]), contain, box, k);
      QuadrantValuesApart(box, contain, intersect, j, k, a, b);
    }
  }

  /** Values contained in two different quadrants do not intersect. */
  lemma QuadrantValuesApart<T(!new)>(box: Box, contain: (Box, T) -> bool, intersect: (T, T) -> bool, j: nat, k: nat, a: T, b: T)
    requires j < 4 && k < 4 && j != k && PairConsistent(contain, intersect)
    requires contain(ComputeBox(box, j), a) && contain(ComputeBox(box, k), b)
    ensures !intersect(a, b) && !intersect(b, a)
  {
    QuadrantsPartition(box, j, k);
    QuadrantsPartition(box, k, j);
  }

  /** On a placed subtree, the pairs tested include every pair of stored
      occurrences that intersect, exactly once. */
  lemma {:induction false} TestedCount<T(!new)>(t: Tree<T>, box: Box, contain: (Box, T) -> bool, intersect: (T, T) -> bool, u: T, w: T)
    requires Shaped(t) && Placed(t, box, contain) && PairConsistent(contain, intersect) && intersect(u, w)
    ensures SymCount(Tested(t), u, w) == PairCount(Contents(t), u, w)
    decreases t, 1
  {
    var vs := t.values;
    var cs := t.children;
    PlacedChildrenOf(t, box, contain);
    TestedSeqCount(cs, box, contain, intersect, u, w);
    AllPairsCount(vs, u, w);
    CrossSeqCount(vs, cs, u, w);
    SymCountConcat(AllPairs(vs), CrossSeq(vs, cs), u, w);
    SymCountConcat(AllPairs(vs) + CrossSeq(vs, cs), TestedSeq(cs), u, w);
    PairCountUnion(multiset(vs), multiset(FlattenSeq(cs)), u, w);
  }

  lemma {:induction false} TestedSeqCount<T(!new)>(cs: seq<Tree<T>>, box: Box, contain: (Box, T) -> bool, intersect: (T, T) -> bool, u: T, w: T)
    requires PlacedChildren(cs, box, contain) && PairConsistent(contain, intersect) && intersect(u, w)
    ensures SymCount(TestedSeq(cs), u, w) == PairCount(multiset(FlattenSeq(cs)), u, w)
    decreases cs, 0
  {
    if cs != [] {
      var k := |cs| - 1;
      var p := multiset(FlattenSeq(cs[..k]));
      var l := multiset(Flatten(cs[k]));
      PlacedChildrenPrefix(cs, box, contain, k);
      TestedSeqCount(cs[..k], box, contain, intersect, u, w);
      TestedCount(cs[k], ComputeBox(box, k), contain, intersect, u, w);
      SymCountConcat(TestedSeq(cs[..k]), Tested(cs[k]), u, w);
      PairCountUnion(p, l, u, w);
      SiblingsApart(cs, box, contain, intersect, u, w);
      CrossTermZero(p, l, u, w);
    }
  }

  // ---------------------------------------------------------------------------
  // findAllIntersections: the pairs reported

  lemma {:induction false} ReportedConcat<T(!new)>(a: seq<(T, T)>, b: seq<(T, T)>, intersect: (T, T) -> bool)
    ensures Reported(a + b, intersect) == Reported(a, intersect) + Reported(b, intersect)
  {
    if b != [] {
      var b' := b[..|b| - 1];
      ReportedConcat(a, b', intersect);
      assert (a + b)[..|a + b| - 1] == a + b';
    } else {
      assert a + b == a;
    }
  }

  /** Reported keeps each tested pair that intersects, as often as it was
      tested, and nothing else. */
  lemma {:induction false} ReportedCount<T(!new)>(ps: seq<(T, T)>, intersect: (T, T) -> bool, p: (T, T))
    ensures multiset(Reported(ps, intersect))[p] == if intersect(p.0, p.1) then multiset(ps)[p] else 0
  {
    if ps != [] {
      var ps' := ps[..|ps| - 1];
      ReportedCount(ps', intersect, p);
      assert ps == ps' + [ps[|ps| - 1]];
    }
  }

  lemma ReportedSymCount<T(!new)>(ps: seq<(T, T)>, intersect: (T, T) -> bool, u: T, w: T)
    requires Symmetric(intersect)
    ensures SymCount(Reported(ps, intersect), u, w) == if intersect(u, w) then SymCount(ps, u, w) else 0
  {
    ReportedCount(ps, intersect, (u, w));
    ReportedCount(ps, intersect, (w, u));
    assert intersect(u, w) == intersect(w, u);
  }

  /** Every reported pair was tested and intersects. */
  lemma {:induction false} ReportedSound<T(!new)>(ps: seq<(T, T)>, intersect: (T, T) -> bool)
    ensures forall p :: p in Reported(ps, intersect) ==> p in ps && intersect(p.0, p.1)
  {
    if ps != [] {
      ReportedSound(ps[..|ps| - 1], intersect);
    }
  }

  /** The brute-force pairwise search over all stored occurrences reports
      each intersecting unordered pair of occurrences once. */
  lemma BruteForcePairsCount<T(!new)>(s: seq<T>, intersect: (T, T) -> bool, u: T, w: T)
    requires Symmetric(intersect)
    ensures SymCount(Reported(AllPairs(s), intersect), u, w)
         == if intersect(u, w) then PairCount(multiset(s), u, w) else 0
  {
    ReportedSymCount(AllPairs(s), intersect, u, w);
    AllPairsCount(s, u, w);
  }

  /** findAllIntersections reports each intersecting unordered pair of stored
      occurrences exactly once, and no other pair: as a multiset of unordered
      pairs it equals the brute-force search over the stored values. */
  lemma FindAllIntersectionsCount<T(!new)>(t: Tree<T>, box: Box, contain: (Box, T) -> bool, intersect: (T, T) -> bool, u: T, w: T)
    requires Shaped(t) && Placed(t, box, contain) && PairConsistent(contain, intersect) && Symmetric(intersect)
    ensures SymCount(Reported(Tested(t), intersect), u, w)
         == if intersect(u, w) then PairCount(Contents(t), u, w) else 0
    ensures SymCount(Reported(Tested(t), intersect), u, w)
         == SymCount(Reported(AllPairs(Flatten(t)), intersect), u, w)
  {
    ReportedSymCount(Tested(t), intersect, u, w);
    if intersect(u, w) {
      TestedCount(t, box, contain, intersect, u, w);
    }
    BruteForcePairsCount(Flatten(t), intersect, u, w);
  }

  /** Points as values: a box contains a point by its half-open containment. */
  ghost predicate PointIn(b: Box, p: Vector2) {
    b.ContainsPoint(p)
  }

  /** A split tree over the box (0, 0, 2, 2) holding one point in the
      top-left quadrant and one in the top-right quadrant. */
  ghost function SiblingExample(): Tree<Vector2> {
    Tree([], [Tree([Vector2(0.5, 0.5)], []), Tree([Vector2(1.5, 0.5)], []), Tree([], []), Tree([], [])])
  }

  /** A one-value bag lies in the first quadrant of its value. */
  lemma InQuadrantSingleton<T>(contain: (Box, T) -> bool, box: Box, v: T, i: nat)
    requires FirstChild(contain, box, v) == i
    ensures InQuadrant([v], contain, box, i)
  {
  }

  /** Where the first example point falls: in quadrant 0 of the box. */
  lemma SiblingExampleLeft()
    ensures FirstChild(PointIn, Box(0.0, 0.0, 2.0, 2.0), Vector2(0.5, 0.5)) == 0
    ensures InQuadrant([Vector2(0.5, 0.5)], PointIn, Box(0.0, 0.0, 2.0, 2.0), 0)
  {
    var box := Box(0.0, 0.0, 2.0, 2.0);
    assert ComputeBox(box, 0) == Box(0.0, 0.0, 1.0, 1.0);
    InQuadrantSingleton(PointIn, box, Vector2(0.5, 0.5), 0);
  }

  /** Where the second example point falls: in quadrant 1 of the box. */
  lemma SiblingExampleRight()
    ensures FirstChild(PointIn, Box(0.0, 0.0, 2.0, 2.0), Vector2(1.5, 0.5)) == 1
    ensures InQuadrant([Vector2(1.5, 0.5)], PointIn, Box(0.0, 0.0, 2.0, 2.0), 1)
  {
    var box := Box(0.0, 0.0, 2.0, 2.0);
    assert ComputeBox(box, 0) == Box(0.0, 0.0, 1.0, 1.0);
    assert ComputeBox(box, 1) == Box(1.0, 0.0, 1.0, 1.0);
    InQuadrantSingleton(PointIn, box, Vector2(1.5, 0.5), 1);
  }

  lemma SiblingExampleFlatten()
    ensures Flatten(SiblingExample().children[0]) == [Vector2(0.5, 0.5)]
    ensures Flatten(SiblingExample().children[1]) == [Vector2(1.5, 0.5)]
    ensures Flatten(SiblingExample().children[2]) == []
    ensures Flatten(SiblingExample().children[3]) == []
    ensures Flatten(SiblingExample()) == [Vector2(0.5, 0.5), Vector2(1.5, 0.5)]
  {
    FlattenLeaves([Vector2(0.5, 0.5)], [Vector2(1.5, 0.5)], [], []);
  }

  /** A node with an empty bag over four leaves, the first holding a and the
      second b, is placed when a and b lie in the first and second quadrants. */
  lemma PlacedTwoLeaves<T>(contain: (Box, T) -> bool, box: Box, a: T, b: T)
    requires InQuadrant([a], contain, box, 0) && InQuadrant([b], contain, box, 1)
    ensures Placed(Tree([], [Tree([a], []), Tree([b], []), Tree([], []), Tree([], [])]), box, contain)
  {
    var t := Tree([], [Tree([a], []), Tree([b], []), Tree([], []), Tree([], [])]);
    forall i | 0 <= i < |t.children|
      ensures && InQuadrant(Flatten(t.children[i]), contain, box, i)
              && Placed(t.children[i], ComputeBox(box, i), contain)
    {
      assert t.children[i].children == [];
      assert Flatten(t.children[i]) == t.children[i].values;
    }
    PlacedIntro(t, box, contain);
  }

  lemma SiblingExamplePlaced()
    ensures Placed(SiblingExample(), Box(0.0, 0.0, 2.0, 2.0), PointIn)
  {
    SiblingExampleLeft();
    SiblingExampleRight();
    PlacedTwoLeaves(PointIn, Box(0.0, 0.0, 2.0, 2.0), Vector2(0.5, 0.5), Vector2(1.5, 0.5));
  }

  lemma SiblingExampleBounded()
    ensures Bounded(SiblingExample(), 0)
  {
    var t := SiblingExample();
    forall i | 0 <= i < |t.children|
      ensures Bounded(t.children[i], 1)
    {
      assert t.children[i].children == [] && |t.children[i].values| <= 1;
    }
  }

  lemma SiblingExampleInside()
    ensures Inside(SiblingExample(), Box(0.0, 0.0, 2.0, 2.0), PointIn)
  {
    SiblingExampleFlatten();
    assert Box(0.0, 0.0, 2.0, 2.0).ContainsPoint(Vector2(0.5, 0.5));
    assert Box(0.0, 0.0, 2.0, 2.0).ContainsPoint(Vector2(1.5, 0.5));
  }

  /** The example satisfies the invariant of a root over the box (0, 0, 2, 2). */
  lemma SiblingExampleInv()
    ensures Inv(SiblingExample(), Box(0.0, 0.0, 2.0, 2.0), 0, PointIn)
  {
    SiblingExamplePlaced();
    SiblingExampleBounded();
    SiblingExampleInside();
  }

  /** A bag of at most one value makes no pair with itself, and an empty bag
      makes none with any subtree. */
  lemma {:induction false} CrossSeqEmpty<T(!new)>(cs: seq<Tree<T>>)
    ensures CrossSeq([], cs) == []
  {
    if cs != [] {
      CrossSeqEmpty(cs[..|cs| - 1]);
    }
  }

  /** Leaves holding at most one value each test no pair. */
  lemma {:induction false} TestedSeqSingletons<T(!new)>(cs: seq<Tree<T>>)
    requires forall i :: 0 <= i < |cs| ==> cs[i].children == [] && |cs[i].values| <= 1
    ensures TestedSeq(cs) == []
  {
    if cs != [] {
      TestedSeqSingletons(cs[..|cs| - 1]);
      var c := cs[|cs| - 1];
      assert AllPairs(c.values) == [] by {
        if c.values != [] {
          assert c.values[..0] == [];
        }
      }
      assert Tested(c) == [];
    }
  }

  /** Not every pair is tested: values in sibling subtrees are never
      compared. The example is a valid tree that stores two values and tests
      no pair, where testing every unordered pair would take one test. */
  lemma SiblingPairsNotTested()
    ensures Inv(SiblingExample(), Box(0.0, 0.0, 2.0, 2.0), 0, PointIn)
    ensures |Flatten(SiblingExample())| == 2 && Tested(SiblingExample()) == []
  {
    var t := SiblingExample();
    SiblingExampleInv();
    SiblingExampleFlatten();
    TestedSeqSingletons(t.children);
    CrossSeqEmpty(t.children);
  }

  // ---------------------------------------------------------------------------
  // The getBox callables

  /** The callables of the getBox configuration: a node's box contains a value
      when it contains the value's box, and values intersect when their boxes
      do. They satisfy the consistency assumptions of query and
      findAllIntersections for every query box, and intersect is symmetric. */
  lemma BoxCallablesConsistent<T(!new)>(getBox: T -> Box, q: Box)
    ensures QueryConsistent((b: Box, v: T) => b.ContainsBox(getBox(v)), (r: Box, v: T) => r.Intersects(getBox(v)), q)
    ensures PairConsistent((b: Box, v: T) => b.ContainsBox(getBox(v)), (u: T, w: T) => getBox(u).Intersects(getBox(w)))
    ensures Symmetric((u: T, w: T) => getBox(u).Intersects(getBox(w)))
  {
    forall b: Box, v: T | b.ContainsBox(getBox(v)) && q.Intersects(getBox(v)) ensures q.Intersects(b) {
      IntersectsSymmetric(q, getBox(v));
      ContainsThenIntersects(b, getBox(v), q);
    }
    forall b1: Box, b2: Box, u: T, w: T | b1.ContainsBox(getBox(u)) && b2.ContainsBox(getBox(w)) && getBox(u).Intersects(getBox(w))
      ensures b1.Intersects(b2)
    {
      ContainsThenIntersects(b1, getBox(u), getBox(w));
      ContainsThenIntersects(b2, getBox(w), b1);
    }
    forall u: T, w: T ensures getBox(u).Intersects(getBox(w)) == getBox(w).Intersects(getBox(u)) {
      IntersectsSymmetric(getBox(u), getBox(w));
    }
  }
}
