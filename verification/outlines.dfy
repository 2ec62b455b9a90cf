/**
 * The edge-cancelling count at the heart of `extract_borough_outlines`: every pair of
 * consecutive vertices of every ring of a borough is turned into a direction-free key,
 * the keys are counted in an insertion-ordered dictionary, and the keys counted exactly
 * once are the borough's outline. This module states what that count produces; the
 * loops that compute it are in `BoroughOutlines`.
 */
module Outlines {
  import opened Bytes
  import opened GeoPackage

  /** Python's tuple order on (x, y): by x first, then by y. */
  predicate PointLe(p: Point, q: Point) {
    p.x < q.x || (p.x == q.x && p.y <= q.y)
  }

  /** A segment key: the endpoints of an edge, smaller endpoint first. */
  datatype Segment = Segment(start: Point, end: Point)

  predicate Canonical(s: Segment) {
    PointLe(s.start, s.end)
  }

  /** `tuple(sorted([p1, p2]))`: the same two endpoints, in ascending order. */
  function Key(p1: Point, p2: Point): (s: Segment)
    ensures Canonical(s)
    ensures (s.start == p1 && s.end == p2) || (s.start == p2 && s.end == p1)
  {
    if PointLe(p1, p2) then Segment(p1, p2) else Segment(p2, p1)
  }

  /** An edge has the same key whichever way the ring runs along it. */
  lemma {:induction false} KeySymmetric(p1: Point, p2: Point)
    ensures Key(p1, p2) == Key(p2, p1)
  {
    if PointLe(p1, p2) && PointLe(p2, p1) {
      assert p1.x == p2.x && p1.y == p2.y;
    }
  }

  /**
   * The keys of the consecutive vertex pairs of one ring, `range(len(coords) - 1)`: one
   * per pair, and key i joins vertex i and vertex i + 1, the smaller endpoint first.
   */
  function RingEdges(coords: seq<Point>): (r: seq<Segment>)
    ensures |r| == EdgeCount(|coords|)
    ensures forall i | 0 <= i < |r| :: Canonical(r[i])
  {
    if |coords| < 2 then []
    else seq(|coords| - 1, i requires 0 <= i < |coords| - 1 => Key(coords[i], coords[i + 1]))
  }

  /**
   * Every key counted for a borough, ring after ring, in the order the loops count them:
   * a ring of L vertices adds L - 1 keys, and one of fewer than 2 adds none.
   */
  function Occurrences(rings: seq<seq<Point>>): (r: seq<Segment>)
    ensures |r| == TotalEdges(rings)
    decreases |rings|
  {
    if rings == [] then []
    else Occurrences(rings[..|rings| - 1]) + RingEdges(rings[|rings| - 1])
  }

  /** How many edges a ring of this many vertices contributes. */
  function EdgeCount(vertices: nat): nat {
    if vertices < 2 then 0 else vertices - 1
  }

  /** The number of vertices, less one per ring that has any, over all rings. */
  function TotalEdges(rings: seq<seq<Point>>): nat
    decreases |rings|
  {
    if rings == [] then 0 else TotalEdges(rings[..|rings| - 1]) + EdgeCount(|rings[|rings| - 1]|)
  }

  predicate NoDuplicates<T(==)>(s: seq<T>) {
    forall i, j | 0 <= i < j < |s| :: s[i] != s[j]
  }

  /**
   * The distinct elements of s in the order they first appear: what pandas' `unique()`
   * returns, and the key order of a dictionary filled from s.
   */
  function Unique<T(==, !new)>(s: seq<T>): (r: seq<T>)
    ensures forall x :: x in r <==> x in s
    decreases |s|
  {
    if s == [] then []
    else
      assert s == s[..|s| - 1] + [s[|s| - 1]];
      var u := Unique(s[..|s| - 1]);
      if s[|s| - 1] in u then u else u + [s[|s| - 1]]
  }

  /** The position of the first x in s. */
  function FirstIndex<T(==)>(s: seq<T>, x: T): (r: nat)
    requires x in s
    ensures r < |s| && s[r] == x
    ensures forall j | 0 <= j < r :: s[j] != x
    decreases |s|
  {
    if x in s[..|s| - 1] then FirstIndex(s[..|s| - 1], x) else |s| - 1
  }

  /** `keys` are elements of `s`, each appearing in `s` for the first time after the one before it. */
  predicate InFirstOccurrenceOrder<T(==)>(keys: seq<T>, s: seq<T>) {
    (forall x | x in keys :: x in s)
    && forall i, j | 0 <= i < j < |keys| :: FirstIndex(s, keys[i]) < FirstIndex(s, keys[j])
  }

  /** The keys among `keys` that `occ` holds exactly once, in the order of `keys`. */
  function SinglesAmong(keys: seq<Segment>, occ: seq<Segment>): (r: seq<Segment>)
    ensures forall x :: x in r <==> x in keys && multiset(occ)[x] == 1
    decreases |keys|
  {
    if keys == [] then []
    else
      assert keys == keys[..|keys| - 1] + [keys[|keys| - 1]];
      var rest := SinglesAmong(keys[..|keys| - 1], occ);
      if multiset(occ)[keys[|keys| - 1]] == 1 then rest + [keys[|keys| - 1]] else rest
  }

  /**
   * The `count == 1` filter over the dictionary's items: the segments of the outline. A
   * segment is in it exactly when its key occurs once among all the borough's edges (an
   * edge shared by two rings, or walked twice, is dropped), and none is in it twice.
   */
  function Singles(occ: seq<Segment>): (r: seq<Segment>)
    ensures forall s :: s in r <==> multiset(occ)[s] == 1
    ensures NoDuplicates(r)
  {
    UniqueDistinct(occ);
    SinglesAmongDistinct(Unique(occ), occ);
    SinglesAmong(Unique(occ), occ)
  }

  /** Every key counted is in canonical order. */
  lemma {:induction false} OccurrencesCanonical(rings: seq<seq<Point>>)
    ensures forall s | s in Occurrences(rings) :: Canonical(s)
    decreases |rings|
  {
    if rings != [] {
      OccurrencesCanonical(rings[..|rings| - 1]);
    }
  }

  /** Appending an element not already present keeps a sequence free of repeats. */
  lemma {:induction false} NoDuplicatesSnoc<T>(s: seq<T>, x: T)
    requires NoDuplicates(s) && x !in s
    ensures NoDuplicates(s + [x])
  {
    var r := s + [x];
    forall i, j | 0 <= i < j < |r|
      ensures r[i] != r[j]
    {
      assert r[i] == s[i];
      if j < |s| {
        assert r[j] == s[j];
      }
    }
  }

  /** Two sequences without repeats and without common elements join into one without repeats. */
  lemma {:induction false} NoDuplicatesAppend<T>(a: seq<T>, b: seq<T>)
    requires NoDuplicates(a) && NoDuplicates(b)
    requires forall x | x in a :: x !in b
    ensures NoDuplicates(a + b)
  {
    var r := a + b;
    forall i, j | 0 <= i < j < |r|
      ensures r[i] != r[j]
    {
      if j < |a| {
        assert r[i] == a[i] && r[j] == a[j];
      } else if i < |a| {
        assert r[i] == a[i] && r[j] == b[j - |a|] && b[j - |a|] in b;
      } else {
        assert r[i] == b[i - |a|] && r[j] == b[j - |a|];
      }
    }
  }

  /** `unique()` never lists an element twice. */
  lemma {:induction false} UniqueDistinct<T(!new)>(s: seq<T>)
    ensures NoDuplicates(Unique(s))
    decreases |s|
  {
    if s != [] {
      var init, last := s[..|s| - 1], s[|s| - 1];
      assert s == init + [last];
      UniqueDistinct(init);
      if last !in Unique(init) {
        NoDuplicatesSnoc(Unique(init), last);
      }
    }
  }

  /** Filtering keys that do not repeat gives keys that do not repeat. */
  lemma {:induction false} SinglesAmongDistinct(keys: seq<Segment>, occ: seq<Segment>)
    requires NoDuplicates(keys)
    ensures NoDuplicates(SinglesAmong(keys, occ))
    decreases |keys|
  {
    if keys != [] {
      NoDuplicatesInit(keys);
      var init, last := keys[..|keys| - 1], keys[|keys| - 1];
      assert keys == init + [last];
      SinglesAmongDistinct(init, occ);
      if multiset(occ)[last] == 1 {
        NoDuplicatesSnoc(SinglesAmong(init, occ), last);
      }
    }
  }

  /** Every outline segment has its smaller endpoint first. */
  lemma {:induction false} SinglesCanonical(rings: seq<seq<Point>>)
    ensures forall s | s in Singles(Occurrences(rings)) :: Canonical(s)
  {
    OccurrencesCanonical(rings);
    forall s | s in Singles(Occurrences(rings))
      ensures s in Occurrences(rings)
    {
      assert s in multiset(Occurrences(rings));
    }
  }

  lemma {:induction false} FirstIndexSnoc<T>(s: seq<T>, y: T, x: T)
    requires x in s
    ensures x in s + [y] && FirstIndex(s + [y], x) == FirstIndex(s, x)
  {
    assert (s + [y])[..|s|] == s;
  }

  /** Appending an element first seen after everything before it keeps the order. */
  lemma {:induction false} InOrderSnoc<T>(keys: seq<T>, last: T, s: seq<T>)
    requires InFirstOccurrenceOrder(keys, s) && last in s
    requires forall x | x in keys :: FirstIndex(s, x) < FirstIndex(s, last)
    ensures InFirstOccurrenceOrder(keys + [last], s)
  {
    var r := keys + [last];
    forall i, j | 0 <= i < j < |r|
      ensures FirstIndex(s, r[i]) < FirstIndex(s, r[j])
    {
      assert r[i] == keys[i] && keys[i] in keys;
      if j < |keys| {
        assert r[j] == keys[j];
      }
    }
  }

  /** Dropping the last key keeps the order, and that key was first seen after all the others. */
  lemma {:induction false} InOrderInit<T>(keys: seq<T>, s: seq<T>)
    requires InFirstOccurrenceOrder(keys, s) && keys != []
    ensures InFirstOccurrenceOrder(keys[..|keys| - 1], s)
    ensures forall x | x in keys[..|keys| - 1] :: FirstIndex(s, x) < FirstIndex(s, keys[|keys| - 1])
  {
    var init := keys[..|keys| - 1];
    forall i, j | 0 <= i < j < |init|
      ensures FirstIndex(s, init[i]) < FirstIndex(s, init[j])
    {
      assert init[i] == keys[i] && init[j] == keys[j];
    }
    forall x | x in init
      ensures FirstIndex(s, x) < FirstIndex(s, keys[|keys| - 1])
    {
      var k :| 0 <= k < |init| && init[k] == x;
      assert keys[k] == x;
    }
  }

  /** `unique()` lists each element at the place of its first appearance. */
  lemma {:induction false} UniqueInFirstOccurrenceOrder<T(!new)>(s: seq<T>)
    ensures InFirstOccurrenceOrder(Unique(s), s)
    decreases |s|
  {
    if s != [] {
      var init, last := s[..|s| - 1], s[|s| - 1];
      assert s == init + [last];
      var u := Unique(init);
      UniqueInFirstOccurrenceOrder(init);
      forall x | x in u
        ensures FirstIndex(s, x) == FirstIndex(init, x) < |init|
      {
        FirstIndexSnoc(init, last, x);
      }
      if last !in u {
        assert FirstIndex(s, last) == |s| - 1;
        InOrderSnoc(u, last, s);
      } else {
        forall i, j | 0 <= i < j < |u|
          ensures FirstIndex(s, u[i]) < FirstIndex(s, u[j])
        {
          assert u[i] in u && u[j] in u;
        }
      }
    }
  }

  /** Filtering keeps the order of what it keeps. */
  lemma {:induction false} SinglesAmongInOrder(keys: seq<Segment>, occ: seq<Segment>)
    requires InFirstOccurrenceOrder(keys, occ)
    ensures InFirstOccurrenceOrder(SinglesAmong(keys, occ), occ)
    decreases |keys|
  {
    if keys != [] {
      var init, last := keys[..|keys| - 1], keys[|keys| - 1];
      assert keys == init + [last];
      InOrderInit(keys, occ);
      SinglesAmongInOrder(init, occ);
      if multiset(occ)[last] == 1 {
        InOrderSnoc(SinglesAmong(init, occ), last, occ);
      }
    }
  }

  /** The outline lists its segments in the order their keys were first counted. */
  lemma {:induction false} SinglesInFirstOccurrenceOrder(occ: seq<Segment>)
    ensures InFirstOccurrenceOrder(Singles(occ), occ)
  {
    UniqueInFirstOccurrenceOrder(occ);
    SinglesAmongInOrder(Unique(occ), occ);
  }

  /** A closed ring around at least three distinct vertices that never revisits one. */
  predicate SimpleClosedRing(c: seq<Point>) {
    |c| >= 4 && c[0] == c[|c| - 1] && NoDuplicates(c[..|c| - 1])
  }

  /** Two vertices of a simple closed ring before its closing one are different. */
  lemma {:induction false} DistinctVertices(c: seq<Point>, i: nat, j: nat)
    requires SimpleClosedRing(c) && i < j < |c| - 1
    ensures c[i] != c[j]
  {
    var d := c[..|c| - 1];
    assert d[i] == c[i] && d[j] == c[j];
  }

  /** Edges with different first endpoints and not the reverse of each other have different keys. */
  lemma {:induction false} KeysDiffer(p1: Point, p2: Point, q1: Point, q2: Point)
    requires p1 != q1 && (p1 != q2 || p2 != q1)
    ensures Key(p1, p2) != Key(q1, q2)
  {
  }

  /** Two different edges of a simple closed ring never share a key. */
  lemma {:induction false} EdgeKeysDiffer(c: seq<Point>, i: nat, j: nat)
    requires SimpleClosedRing(c) && i < j < |c| - 1
    ensures Key(c[i], c[i + 1]) != Key(c[j], c[j + 1])
  {
    DistinctVertices(c, i, j);
    if j > i + 1 {
      DistinctVertices(c, i + 1, j);
    } else if i + 2 < |c| - 1 {
      DistinctVertices(c, i, i + 2);
    } else {
      DistinctVertices(c, 0, i);
    }
    KeysDiffer(c[i], c[i + 1], c[j], c[j + 1]);
  }

  /** The edges of a simple closed ring all have different keys. */
  lemma {:induction false} SimpleRingEdgesDistinct(c: seq<Point>)
    requires SimpleClosedRing(c)
    ensures NoDuplicates(RingEdges(c))
  {
    var e := RingEdges(c);
    forall i, j | 0 <= i < j < |e|
      ensures e[i] != e[j]
    {
      EdgeKeysDiffer(c, i, j);
    }
  }

  lemma {:induction false} UniqueOfDistinct<T(!new)>(s: seq<T>)
    requires NoDuplicates(s)
    ensures Unique(s) == s
    decreases |s|
  {
    if s != [] {
      var init := s[..|s| - 1];
      assert NoDuplicates(init) by {
        forall i, j | 0 <= i < j < |init|
          ensures init[i] != init[j]
        {
          assert init[i] == s[i] && init[j] == s[j];
        }
      }
      UniqueOfDistinct(init);
      assert s[|s| - 1] !in init by {
        forall k | 0 <= k < |init|
          ensures init[k] != s[|s| - 1]
        {
          assert init[k] == s[k];
        }
      }
      assert s == init + [s[|s| - 1]];
    }
  }

  lemma {:induction false} CountOfDistinct(s: seq<Segment>, x: Segment)
    requires NoDuplicates(s) && x in s
    ensures multiset(s)[x] == 1
    decreases |s|
  {
    var init, last := s[..|s| - 1], s[|s| - 1];
    assert s == init + [last];
    assert multiset(s)[x] == multiset(init)[x] + multiset([last])[x];
    assert last !in init by {
      forall k | 0 <= k < |init|
        ensures init[k] != last
      {
        assert init[k] == s[k];
      }
    }
    if x != last {
      assert NoDuplicates(init) by {
        forall i, j | 0 <= i < j < |init|
          ensures init[i] != init[j]
        {
          assert init[i] == s[i] && init[j] == s[j];
        }
      }
      CountOfDistinct(init, x);
    }
  }

  lemma {:induction false} SinglesAmongAll(keys: seq<Segment>, occ: seq<Segment>)
    requires forall x | x in keys :: multiset(occ)[x] == 1
    ensures SinglesAmong(keys, occ) == keys
    decreases |keys|
  {
    if keys != [] {
      var init := keys[..|keys| - 1];
      assert keys == init + [keys[|keys| - 1]];
      SinglesAmongAll(init, occ);
    }
  }

  /** When no key repeats, every key is in the outline, in the order counted. */
  lemma {:induction false} SinglesOfDistinct(occ: seq<Segment>)
    requires NoDuplicates(occ)
    ensures Singles(occ) == occ
  {
    UniqueOfDistinct(occ);
    forall x | x in occ
      ensures multiset(occ)[x] == 1
    {
      CountOfDistinct(occ, x);
    }
    SinglesAmongAll(occ, occ);
  }

  /** A borough made of one simple closed ring of L vertices keeps all L - 1 of its edges. */
  lemma {:induction false} SimpleRingKeepsAllEdges(c: seq<Point>)
    requires SimpleClosedRing(c)
    ensures Singles(Occurrences([c])) == RingEdges(c)
    ensures |Singles(Occurrences([c]))| == |c| - 1
  {
    assert [c][..0] == [];
    assert Occurrences([c]) == RingEdges(c);
    SimpleRingEdgesDistinct(c);
    SinglesOfDistinct(RingEdges(c));
  }

  /** The unit square with corners (0, 0) and (1, 1), closed, counter-clockwise. */
  const WestSquare: seq<Point> := [Point(0, 0), Point(1, 0), Point(1, 1), Point(0, 1), Point(0, 0)]

  /** The unit square east of it, sharing the edge from (1, 0) to (1, 1), walked the other way. */
  const EastSquare: seq<Point> := [Point(1, 0), Point(2, 0), Point(2, 1), Point(1, 1), Point(1, 0)]

  lemma {:induction false} UniqueSnoc<T(!new)>(s: seq<T>, x: T)
    ensures Unique(s + [x]) == if x in Unique(s) then Unique(s) else Unique(s) + [x]
  {
    assert (s + [x])[..|s|] == s;
  }

  lemma {:induction false} SinglesAmongSnoc(keys: seq<Segment>, x: Segment, occ: seq<Segment>)
    ensures SinglesAmong(keys + [x], occ)
            == if multiset(occ)[x] == 1 then SinglesAmong(keys, occ) + [x] else SinglesAmong(keys, occ)
  {
    assert (keys + [x])[..|keys|] == keys;
  }

  lemma {:induction false} NoDuplicatesInit<T>(s: seq<T>)
    requires NoDuplicates(s) && s != []
    ensures NoDuplicates(s[..|s| - 1]) && s[|s| - 1] !in s[..|s| - 1]
  {
    var init := s[..|s| - 1];
    forall i, j | 0 <= i < j < |init|
      ensures init[i] != init[j]
    {
      assert init[i] == s[i] && init[j] == s[j];
    }
    forall k | 0 <= k < |init|
      ensures init[k] != s[|s| - 1]
    {
      assert init[k] == s[k];
    }
  }

  /** The elements of s other than x, in order. */
  function Without(s: seq<Segment>, x: Segment): (r: seq<Segment>)
    ensures forall y :: y in r <==> y in s && y != x
    decreases |s|
  {
    if s == [] then []
    else
      assert s == s[..|s| - 1] + [s[|s| - 1]];
      var rest := Without(s[..|s| - 1], x);
      if s[|s| - 1] == x then rest else rest + [s[|s| - 1]]
  }

  /** Appending keys of which only `shared` was seen before adds the others, in order. */
  lemma {:induction false} UniqueAppend(w: seq<Segment>, e: seq<Segment>, shared: Segment)
    requires NoDuplicates(w) && NoDuplicates(e) && shared in w
    requires forall x | x in w && x in e :: x == shared
    ensures Unique(w + e) == w + Without(e, shared)
    decreases |e|
  {
    if e == [] {
      assert w + e == w;
      UniqueOfDistinct(w);
    } else {
      var init, y := e[..|e| - 1], e[|e| - 1];
      assert e == init + [y];
      NoDuplicatesInit(e);
      UniqueAppend(w, init, shared);
      assert w + e == (w + init) + [y];
      UniqueSnoc(w + init, y);
      assert y in w + Without(init, shared) <==> y == shared by {
        assert y in e && y !in init;
        assert y in Without(init, shared) ==> y in init;
      }
      WithoutSnoc(init, y, shared);
    }
  }

  lemma {:induction false} SinglesAmongAppend(k1: seq<Segment>, k2: seq<Segment>, occ: seq<Segment>)
    ensures SinglesAmong(k1 + k2, occ) == SinglesAmong(k1, occ) + SinglesAmong(k2, occ)
    decreases |k2|
  {
    if k2 == [] {
      assert k1 + k2 == k1;
    } else {
      var init, y := k2[..|k2| - 1], k2[|k2| - 1];
      assert k1 + k2 == (k1 + init) + [y] && k2 == init + [y];
      SinglesAmongAppend(k1, init, occ);
      SinglesAmongSnoc(k1 + init, y, occ);
      SinglesAmongSnoc(init, y, occ);
      var a, b := SinglesAmong(k1, occ), SinglesAmong(init, occ);
      assert (a + b) + [y] == a + (b + [y]);
    }
  }

  lemma {:induction false} SinglesAmongWithout(keys: seq<Segment>, occ: seq<Segment>, x: Segment)
    requires forall y | y in keys :: multiset(occ)[y] == 1 <==> y != x
    ensures SinglesAmong(keys, occ) == Without(keys, x)
    decreases |keys|
  {
    if keys != [] {
      assert keys == keys[..|keys| - 1] + [keys[|keys| - 1]];
      SinglesAmongWithout(keys[..|keys| - 1], occ, x);
    }
  }

  /**
   * Two rings, each without a repeated edge, that have exactly one edge in common (walked
   * in either direction): that edge cancels and every other edge stays, ring by ring.
   */
  lemma {:induction false} SharedEdgeCancels(r1: seq<Point>, r2: seq<Point>, shared: Segment)
    requires NoDuplicates(RingEdges(r1)) && NoDuplicates(RingEdges(r2))
    requires shared in RingEdges(r1) && shared in RingEdges(r2)
    requires forall x | x in RingEdges(r1) && x in RingEdges(r2) :: x == shared
    ensures Singles(Occurrences([r1, r2])) == Without(RingEdges(r1), shared) + Without(RingEdges(r2), shared)
  {
    var w, e := RingEdges(r1), RingEdges(r2);
    var occ := w + e;
    assert Occurrences([r1]) == w by {
      assert [r1][..0] == [];
    }
    assert [r1, r2][..1] == [r1];
    assert Occurrences([r1, r2]) == occ;
    UniqueAppend(w, e, shared);
    SinglesAmongAppend(w, Without(e, shared), occ);
    forall y | y in w
      ensures multiset(occ)[y] == 1 <==> y != shared
    {
      CountOfDistinct(w, y);
      if y in e {
        CountOfDistinct(e, y);
      }
    }
    SinglesAmongWithout(w, occ, shared);
    forall y | y in Without(e, shared)
      ensures multiset(occ)[y] == 1
    {
      CountOfDistinct(e, y);
    }
    SinglesAmongAll(Without(e, shared), occ);
  }

  /** The keys of the two squares' edges: four each, the shared one in both. */
  lemma {:induction false} AdjacentSquaresEdges()
    ensures RingEdges(WestSquare) ==
      [ Segment(Point(0, 0), Point(1, 0)), Segment(Point(1, 0), Point(1, 1)),
        Segment(Point(0, 1), Point(1, 1)), Segment(Point(0, 0), Point(0, 1)) ]
    ensures RingEdges(EastSquare) ==
      [ Segment(Point(1, 0), Point(2, 0)), Segment(Point(2, 0), Point(2, 1)),
        Segment(Point(1, 1), Point(2, 1)), Segment(Point(1, 0), Point(1, 1)) ]
  {
  }

  /** Neither square repeats an edge, and the edge from (1, 0) to (1, 1) is the only one they share. */
  lemma {:induction false} AdjacentSquaresShareOneEdge(w: seq<Segment>, e: seq<Segment>)
    requires w == RingEdges(WestSquare) && e == RingEdges(EastSquare)
    ensures NoDuplicates(w) && NoDuplicates(e)
    ensures forall x | x in w && x in e :: x == Segment(Point(1, 0), Point(1, 1))
  {
    AdjacentSquaresEdges();
  }

  /** Dropping `x` from a list with one more segment at the end. */
  lemma {:induction false} WithoutSnoc(s: seq<Segment>, y: Segment, x: Segment)
    ensures Without(s + [y], x) == if y == x then Without(s, x) else Without(s, x) + [y]
  {
    assert (s + [y])[..|s|] == s;
  }

  lemma {:induction false} WithoutSecondOfFour(a: Segment, s: Segment, b: Segment, c: Segment)
    requires a != s && b != s && c != s
    ensures Without([a, s, b, c], s) == [a, b, c]
  {
    WithoutSnoc([], a, s);
    assert Without([a], s) == [a] by { assert [] + [a] == [a]; }
    WithoutSnoc([a], s, s);
    assert Without([a, s], s) == [a] by { assert [a] + [s] == [a, s]; }
    WithoutSnoc([a, s], b, s);
    assert Without([a, s, b], s) == [a, b] by { assert [a, s] + [b] == [a, s, b]; }
    WithoutSnoc([a, s, b], c, s);
    assert [a, s, b] + [c] == [a, s, b, c] && [a, b] + [c] == [a, b, c];
  }

  lemma {:induction false} WithoutLastOfFour(d: Segment, f: Segment, g: Segment, s: Segment)
    requires d != s && f != s && g != s
    ensures Without([d, f, g, s], s) == [d, f, g]
  {
    WithoutSnoc([], d, s);
    assert Without([d], s) == [d] by { assert [] + [d] == [d]; }
    WithoutSnoc([d], f, s);
    assert Without([d, f], s) == [d, f] by { assert [d] + [f] == [d, f]; }
    WithoutSnoc([d, f], g, s);
    assert Without([d, f, g], s) == [d, f, g] by { assert [d, f] + [g] == [d, f, g]; }
    WithoutSnoc([d, f, g], s, s);
    assert [d, f, g] + [s] == [d, f, g, s];
  }

  /**
   * Two adjacent unit squares: the shared edge cancels, leaving 6 of the 8 edges, the
   * west square's three others and then the east square's.
   */
  lemma {:induction false} AdjacentSquaresShareNoOutline(west: seq<Point>, east: seq<Point>)
    requires west == WestSquare && east == EastSquare
    ensures Singles(Occurrences([west, east])) ==
      [Segment(Point(0, 0), Point(1, 0)), Segment(Point(0, 1), Point(1, 1)), Segment(Point(0, 0), Point(0, 1))]
      + [Segment(Point(1, 0), Point(2, 0)), Segment(Point(2, 0), Point(2, 1)), Segment(Point(1, 1), Point(2, 1))]
    ensures NoDuplicates(Singles(Occurrences([west, east])))
  {
    var s := Segment(Point(1, 0), Point(1, 1));
    var a, b, c := Segment(Point(0, 0), Point(1, 0)), Segment(Point(0, 1), Point(1, 1)), Segment(Point(0, 0), Point(0, 1));
    var d, f, g := Segment(Point(1, 0), Point(2, 0)), Segment(Point(2, 0), Point(2, 1)), Segment(Point(1, 1), Point(2, 1));
    AdjacentSquaresEdges();
    AdjacentSquaresShareOneEdge(RingEdges(west), RingEdges(east));
    assert s in RingEdges(west) && s in RingEdges(east);
    SharedEdgeCancels(west, east, s);
    WithoutSecondOfFour(a, s, b, c);
    WithoutLastOfFour(d, f, g, s);
  }
}
