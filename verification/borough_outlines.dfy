/**
 * `extract_borough_outlines`: for each borough, in order of first appearance, rebuild
 * each of its rings from the polygon table (rows of that ring id sorted by `order`),
 * count the key of every edge in an insertion-ordered dictionary, then emit the keys
 * counted exactly once as outline rows.
 */
module BoroughOutlines {
  import opened Bytes
  import opened GeoPackage
  import opened Decimal
  import opened Polygons
  import opened Outlines

  /** One row of the outline table: the borough and the two endpoints of a segment. */
  datatype OutlineRow = OutlineRow(borough: string, x: Word64, y: Word64, xend: Word64, yend: Word64)

  function OutlineRowOf(borough: string, s: Segment): OutlineRow {
    OutlineRow(borough, s.start.x, s.start.y, s.end.x, s.end.y)
  }

  /** The outline rows of one borough, one per segment, in the same order. */
  function OutlineRows(borough: string, segments: seq<Segment>): (r: seq<OutlineRow>)
    ensures |r| == |segments|
    decreases |segments|
  {
    if segments == [] then []
    else OutlineRows(borough, segments[..|segments| - 1]) + [OutlineRowOf(borough, segments[|segments| - 1])]
  }

  lemma {:induction false} OutlineRowsSnoc(borough: string, segments: seq<Segment>, s: Segment)
    ensures OutlineRows(borough, segments + [s]) == OutlineRows(borough, segments) + [OutlineRowOf(borough, s)]
  {
    assert (segments + [s])[..|segments|] == segments;
  }

  /** The two columns of the polygon table that rows are selected by. */
  datatype Column = BoroughColumn | RingIdColumn

  /** What a row holds in a column. */
  function Field(row: CoordinateRow, column: Column): string {
    match column
    case BoroughColumn => row.borough
    case RingIdColumn => row.ringId
  }

  /** A whole column, `df['Borough']` or `df['ring_id']`, one value per row. */
  function ColumnValues(rows: seq<CoordinateRow>, column: Column): seq<string> {
    seq(|rows|, i requires 0 <= i < |rows| => Field(rows[i], column))
  }

  /**
   * `df[df[column] == value]`: the rows that hold `value` in `column`, in table order.
   * `extract_borough_outlines` selects a borough's rows with it, then each ring's rows.
   */
  function RowsWhere(rows: seq<CoordinateRow>, column: Column, value: string): (r: seq<CoordinateRow>)
    ensures forall row :: row in r <==> row in rows && Field(row, column) == value
    decreases |rows|
  {
    if rows == [] then []
    else
      assert rows == rows[..|rows| - 1] + [rows[|rows| - 1]];
      var rest := RowsWhere(rows[..|rows| - 1], column, value);
      if Field(rows[|rows| - 1], column) == value then rest + [rows[|rows| - 1]] else rest
  }

  /** Each row's order is at least the order of the row before it. */
  predicate SortedByOrder(rows: seq<CoordinateRow>) {
    forall i | 0 < i < |rows| :: rows[i - 1].order <= rows[i].order
  }

  /** `row` placed before the first row of `sorted` whose order is not smaller. */
  function Insert(row: CoordinateRow, sorted: seq<CoordinateRow>): (r: seq<CoordinateRow>)
    ensures multiset(r) == multiset(sorted) + multiset{row}
    ensures |r| == |sorted| + 1 && (r[0] == row || (sorted != [] && r[0] == sorted[0]))
    decreases |sorted|
  {
    if sorted == [] || row.order <= sorted[0].order then [row] + sorted
    else
      assert sorted == [sorted[0]] + sorted[1..];
      [sorted[0]] + Insert(row, sorted[1..])
  }

  /** Inserting into rows sorted by `order` keeps them sorted. */
  lemma {:induction false} InsertSorted(row: CoordinateRow, sorted: seq<CoordinateRow>)
    requires SortedByOrder(sorted)
    ensures SortedByOrder(Insert(row, sorted))
    decreases |sorted|
  {
    if sorted == [] || row.order <= sorted[0].order {
      ConsSorted(row, sorted);
    } else {
      var tail := sorted[1..];
      assert forall i | 0 <= i < |tail| :: tail[i] == sorted[i + 1];
      InsertSorted(row, tail);
      ConsSorted(sorted[0], Insert(row, tail));
    }
  }

  lemma {:induction false} ConsSorted(x: CoordinateRow, rows: seq<CoordinateRow>)
    requires SortedByOrder(rows) && (rows == [] || x.order <= rows[0].order)
    ensures SortedByOrder([x] + rows)
  {
    var r := [x] + rows;
    forall i | 0 < i < |r| ensures r[i - 1].order <= r[i].order {
      if i > 1 { assert r[i - 1] == rows[i - 2] && r[i] == rows[i - 1]; }
    }
  }

  /** `sort_values('order')`: the same rows, by ascending order. */
  function SortByOrder(rows: seq<CoordinateRow>): (r: seq<CoordinateRow>)
    ensures multiset(r) == multiset(rows)
    ensures SortedByOrder(r)
    decreases |rows|
  {
    if rows == [] then []
    else
      assert rows == [rows[0]] + rows[1..];
      InsertSorted(rows[0], SortByOrder(rows[1..]));
      Insert(rows[0], SortByOrder(rows[1..]))
  }

  /** `list(zip(ring['x'], ring['y']))`. */
  function Coords(rows: seq<CoordinateRow>): (r: seq<Point>)
    ensures |r| == |rows|
  {
    seq(|rows|, i requires 0 <= i < |rows| => Point(rows[i].x, rows[i].y))
  }

  /**
   * The vertices of one ring as `extract_borough_outlines` rebuilds it from the table:
   * one vertex per row of that ring id, each the coordinates of such a row.
   */
  function RingPoints(rows: seq<CoordinateRow>, ringId: string): (r: seq<Point>)
    ensures |r| == |RowsWhere(rows, RingIdColumn, ringId)|
    ensures forall i | 0 <= i < |r| :: exists row | row in rows && row.ringId == ringId :: r[i] == Point(row.x, row.y)
  {
    var sorted := SortByOrder(RowsWhere(rows, RingIdColumn, ringId));
    assert forall i | 0 <= i < |sorted| :: sorted[i] in rows && sorted[i].ringId == ringId by {
      forall i | 0 <= i < |sorted| ensures sorted[i] in rows && sorted[i].ringId == ringId {
        assert sorted[i] in multiset(sorted);
      }
    }
    Coords(sorted)
  }

  /** A value found in a column selects at least one row. */
  lemma {:induction false} ColumnValueHasRows(rows: seq<CoordinateRow>, column: Column, value: string)
    requires value in ColumnValues(rows, column)
    ensures RowsWhere(rows, column, value) != []
  {
    var i :| 0 <= i < |rows| && Field(rows[i], column) == value;
    assert rows[i] in RowsWhere(rows, column, value);
  }

  /** The rings of a borough, one per distinct ring id, in order of first appearance; none is empty. */
  function BoroughRings(boroughRows: seq<CoordinateRow>): (r: seq<seq<Point>>)
    ensures |r| == |Unique(ColumnValues(boroughRows, RingIdColumn))|
    ensures forall i | 0 <= i < |r| :: r[i] != []
  {
    var ids := Unique(ColumnValues(boroughRows, RingIdColumn));
    assert forall i | 0 <= i < |ids| :: RowsWhere(boroughRows, RingIdColumn, ids[i]) != [] by {
      forall i | 0 <= i < |ids| ensures RowsWhere(boroughRows, RingIdColumn, ids[i]) != [] {
        assert ids[i] in ids;
        ColumnValueHasRows(boroughRows, RingIdColumn, ids[i]);
      }
    }
    seq(|ids|, i requires 0 <= i < |ids| => RingPoints(boroughRows, ids[i]))
  }

  /** Every edge key of every ring of one borough, in the order `extract_borough_outlines` counts them. */
  function BoroughEdges(df: seq<CoordinateRow>, borough: string): seq<Segment> {
    Occurrences(BoroughRings(RowsWhere(df, BoroughColumn, borough)))
  }

  /**
   * The outline rows of one borough: a row names the borough and a segment exactly
   * when that segment's key occurs exactly once among the borough's edges.
   */
  function BoroughOutline(df: seq<CoordinateRow>, borough: string): (r: seq<OutlineRow>)
    ensures forall row :: row in r <==> row.borough == borough && multiset(BoroughEdges(df, borough))[SegmentOf(row)] == 1
  {
    var singles := Singles(BoroughEdges(df, borough));
    assert forall row :: row in OutlineRows(borough, singles) <==> row.borough == borough && SegmentOf(row) in singles by {
      forall row ensures row in OutlineRows(borough, singles) <==> row.borough == borough && SegmentOf(row) in singles {
        OutlineRowsMember(borough, singles, row);
      }
    }
    OutlineRows(borough, singles)
  }

  /** The outline rows of the given boroughs, borough after borough; each row names one of them. */
  function OutlinesFor(df: seq<CoordinateRow>, boroughs: seq<string>): (r: seq<OutlineRow>)
    ensures forall row | row in r :: row.borough in boroughs
    decreases |boroughs|
  {
    if boroughs == [] then []
    else
      assert boroughs == boroughs[..|boroughs| - 1] + [boroughs[|boroughs| - 1]];
      OutlinesFor(df, boroughs[..|boroughs| - 1]) + BoroughOutline(df, boroughs[|boroughs| - 1])
  }

  /** What `extract_borough_outlines` writes: every borough's outline, boroughs by first appearance, no row twice. */
  function AllOutlines(df: seq<CoordinateRow>): (r: seq<OutlineRow>)
    ensures NoDuplicates(r)
  {
    UniqueDistinct(ColumnValues(df, BoroughColumn));
    OutlinesForDistinct(df, Unique(ColumnValues(df, BoroughColumn)));
    OutlinesFor(df, Unique(ColumnValues(df, BoroughColumn)))
  }

  /** The dictionary after counting `seen`: keys in insertion order, each with its number of occurrences. */
  ghost predicate Tallied(keys: seq<Segment>, counts: map<Segment, nat>, seen: seq<Segment>) {
    keys == Unique(seen)
    && (forall s :: s in counts <==> s in seen)
    && forall s | s in counts :: counts[s] == multiset(seen)[s]
  }

  /** One update of the edge count in `extract_borough_outlines`: add one to the key's count, with the key order of a dict. */
  method Count(keys: seq<Segment>, counts: map<Segment, nat>, seg: Segment, ghost seen: seq<Segment>)
    returns (keys': seq<Segment>, counts': map<Segment, nat>)
    requires Tallied(keys, counts, seen)
    ensures Tallied(keys', counts', seen + [seg])
  {
    var c := if seg in counts then counts[seg] else 0;
    keys' := if seg in counts then keys else keys + [seg];
    counts' := counts[seg := c + 1];
    UniqueSnoc(seen, seg);
    assert multiset(seen + [seg]) == multiset(seen) + multiset{seg};
  }

  lemma {:induction false} PrefixSnoc<T>(seen: seq<T>, s: seq<T>, i: nat)
    requires i < |s|
    ensures seen + s[..i + 1] == (seen + s[..i]) + [s[i]]
  {
    assert s[..i + 1] == s[..i] + [s[i]];
  }

  /** The innermost loop of `extract_borough_outlines`: count the key of each consecutive vertex pair of one ring. */
  method CountRingEdges(keys: seq<Segment>, counts: map<Segment, nat>, coords: seq<Point>, ghost seen: seq<Segment>)
    returns (keys': seq<Segment>, counts': map<Segment, nat>)
    requires Tallied(keys, counts, seen)
    ensures Tallied(keys', counts', seen + RingEdges(coords))
  {
    keys', counts' := keys, counts;
    ghost var edges := RingEdges(coords);
    var i := 0;
    assert seen + edges[..0] == seen;
    while i + 1 < |coords|
      invariant i <= |edges| && Tallied(keys', counts', seen + edges[..i])
    {
      var seg := Key(coords[i], coords[i + 1]);
      assert seg == edges[i];
      PrefixSnoc(seen, edges, i);
      keys', counts' := Count(keys', counts', seg, seen + edges[..i]);
      i := i + 1;
    }
    assert edges[..i] == edges;
  }

  /** The ring loop of `extract_borough_outlines`: count the key of every edge of every ring of one borough. */
  method CountSegments(boroughDf: seq<CoordinateRow>) returns (keys: seq<Segment>, counts: map<Segment, nat>)
    ensures Tallied(keys, counts, Occurrences(BoroughRings(boroughDf)))
  {
    ghost var rings := BoroughRings(boroughDf);
    keys, counts := [], map[];
    var ringIds := Unique(ColumnValues(boroughDf, RingIdColumn));
    for r := 0 to |ringIds|
      invariant Tallied(keys, counts, Occurrences(rings[..r]))
    {
      var coords := RingPoints(boroughDf, ringIds[r]);
      assert coords == rings[r];
      OccurrencesStep(rings, r);
      keys, counts := CountRingEdges(keys, counts, coords, Occurrences(rings[..r]));
    }
    assert rings[..|ringIds|] == rings;
  }

  /** Counting one more ring adds that ring's edges after those counted so far. */
  lemma {:induction false} OccurrencesStep(rings: seq<seq<Point>>, r: nat)
    requires r < |rings|
    ensures Occurrences(rings[..r + 1]) == Occurrences(rings[..r]) + RingEdges(rings[r])
  {
    assert rings[..r + 1][..r] == rings[..r];
  }

  /** The last loop of `extract_borough_outlines`: append an outline row for each key, in dict order, whose count is 1. */
  method EmitSingles(outlines: seq<OutlineRow>, borough: string, keys: seq<Segment>, counts: map<Segment, nat>,
                     ghost occ: seq<Segment>)
    returns (out: seq<OutlineRow>)
    requires forall s | s in keys :: s in counts && counts[s] == multiset(occ)[s]
    ensures out == outlines + OutlineRows(borough, SinglesAmong(keys, occ))
  {
    out := outlines;
    ghost var kept: seq<Segment> := [];
    for t := 0 to |keys|
      invariant kept == SinglesAmong(keys[..t], occ)
      invariant out == outlines + OutlineRows(borough, kept)
    {
      var seg := keys[t];
      EmitStep(outlines, borough, keys, t, occ, kept);
      assert seg in keys;
      if counts[seg] == 1 {
        out := out + [OutlineRow(borough, seg.start.x, seg.start.y, seg.end.x, seg.end.y)];
        kept := kept + [seg];
      }
    }
    assert keys[..|keys|] == keys;
  }

  /** One turn of the loop above: key t is kept exactly when it occurs once, and adds one row. */
  lemma {:induction false} EmitStep(outlines: seq<OutlineRow>, borough: string, keys: seq<Segment>, t: nat,
                                    occ: seq<Segment>, kept: seq<Segment>)
    requires t < |keys| && kept == SinglesAmong(keys[..t], occ)
    ensures SinglesAmong(keys[..t + 1], occ) == if multiset(occ)[keys[t]] == 1 then kept + [keys[t]] else kept
    ensures outlines + OutlineRows(borough, kept + [keys[t]])
            == outlines + OutlineRows(borough, kept) + [OutlineRowOf(borough, keys[t])]
  {
    assert keys[..t + 1] == keys[..t] + [keys[t]];
    SinglesAmongSnoc(keys[..t], keys[t], occ);
    OutlineRowsSnoc(borough, kept, keys[t]);
  }

  /** `extract_borough_outlines`: every borough's outline rows, boroughs in order of first appearance. */
  method ExtractBoroughOutlines(df: seq<CoordinateRow>) returns (outlines: seq<OutlineRow>)
    ensures outlines == AllOutlines(df)
  {
    outlines := [];
    var boroughs := Unique(ColumnValues(df, BoroughColumn));
    for b := 0 to |boroughs|
      invariant outlines == OutlinesFor(df, boroughs[..b])
    {
      var borough := boroughs[b];
      var boroughDf := RowsWhere(df, BoroughColumn, borough);
      var keys, counts := CountSegments(boroughDf);
      outlines := EmitSingles(outlines, borough, keys, counts, BoroughEdges(df, borough));
      OutlinesForStep(df, boroughs, b, keys);
    }
    assert boroughs[..|boroughs|] == boroughs;
  }

  /** Emitting the singles among a borough's counted keys appends that borough's outline. */
  lemma {:induction false} OutlinesForStep(df: seq<CoordinateRow>, boroughs: seq<string>, b: nat, keys: seq<Segment>)
    requires b < |boroughs| && keys == Unique(BoroughEdges(df, boroughs[b]))
    ensures OutlinesFor(df, boroughs[..b + 1])
            == OutlinesFor(df, boroughs[..b]) + OutlineRows(boroughs[b], SinglesAmong(keys, BoroughEdges(df, boroughs[b])))
  {
    assert boroughs[..b + 1][..b] == boroughs[..b];
  }

  // Regrouping: the table written by the polygon stage gives back each decoded ring.

  /** Filtering on a column distributes over concatenation. */
  lemma {:induction false} RowsWhereAppend(a: seq<CoordinateRow>, b: seq<CoordinateRow>, column: Column, value: string)
    ensures RowsWhere(a + b, column, value) == RowsWhere(a, column, value) + RowsWhere(b, column, value)
    decreases |b|
  {
    if b != [] {
      var init := b[..|b| - 1];
      assert (a + b)[..|a + b| - 1] == a + init;
      RowsWhereAppend(a, init, column, value);
    } else {
      assert a + b == a;
    }
  }

  /** Rows that all carry the value are all kept. */
  lemma {:induction false} RowsWhereAll(rows: seq<CoordinateRow>, column: Column, value: string)
    requires forall i | 0 <= i < |rows| :: Field(rows[i], column) == value
    ensures RowsWhere(rows, column, value) == rows
    decreases |rows|
  {
    if rows != [] {
      var init, last := rows[..|rows| - 1], rows[|rows| - 1];
      assert forall i | 0 <= i < |init| :: init[i] == rows[i];
      RowsWhereAll(init, column, value);
      assert Field(last, column) == value;
      assert RowsWhere(rows, column, value) == RowsWhere(init, column, value) + [last];
      assert rows == init + [last];
    }
  }

  /** Rows none of which carries the value are all dropped. */
  lemma {:induction false} RowsWhereNone(rows: seq<CoordinateRow>, column: Column, value: string)
    requires forall row | row in rows :: Field(row, column) != value
    ensures RowsWhere(rows, column, value) == []
    decreases |rows|
  {
    if rows != [] {
      assert rows[|rows| - 1] in rows;
      RowsWhereNone(rows[..|rows| - 1], column, value);
    }
  }

  /** A ring's rows all carry its id, so the ring-id filter keeps them all. */
  lemma {:induction false} RingRowsKept(msoaId: string, k: nat, ring: Ring, eligible: int, borough: string)
    ensures RowsWhere(RingRows(msoaId, k, ring, eligible, borough), RingIdColumn, RingId(msoaId, k))
            == RingRows(msoaId, k, ring, eligible, borough)
  {
    var rows := RingRows(msoaId, k, ring, eligible, borough);
    forall i | 0 <= i < |rows| ensures Field(rows[i], RingIdColumn) == RingId(msoaId, k) {
      assert rows[i] in rows;
    }
    RowsWhereAll(rows, RingIdColumn, RingId(msoaId, k));
  }

  /** The rows of ring n of an area carry no other ring's id of the same area. */
  lemma {:induction false} RingRowsDropped(msoaId: string, n: nat, ring: Ring, eligible: int, borough: string, k: nat)
    requires k != n
    ensures RowsWhere(RingRows(msoaId, n, ring, eligible, borough), RingIdColumn, RingId(msoaId, k)) == []
  {
    RingIdInjective(msoaId, n, msoaId, k);
    RowsWhereNone(RingRows(msoaId, n, ring, eligible, borough), RingIdColumn, RingId(msoaId, k));
  }

  /** The rows of an area's first rings carry no id of a later ring. */
  lemma {:induction false} EarlierRingsDropped(msoaId: string, rings: seq<Ring>, eligible: int, borough: string, k: nat)
    requires |rings| <= k
    ensures RowsWhere(AreaRows(msoaId, rings, eligible, borough), RingIdColumn, RingId(msoaId, k)) == []
  {
    forall row | row in AreaRows(msoaId, rings, eligible, borough)
      ensures Field(row, RingIdColumn) != RingId(msoaId, k)
    {
      AreaRowsMember(msoaId, rings, eligible, borough, row);
      var j :| 0 <= j < |rings| && row.ringId == RingId(msoaId, j);
      RingIdInjective(msoaId, j, msoaId, k);
    }
    RowsWhereNone(AreaRows(msoaId, rings, eligible, borough), RingIdColumn, RingId(msoaId, k));
  }

  /** The rows of an area with the id of ring k are exactly the rows written for ring k. */
  lemma {:induction false} RowsOfRingInArea(msoaId: string, rings: seq<Ring>, eligible: int, borough: string, k: nat)
    requires k < |rings|
    ensures RowsWhere(AreaRows(msoaId, rings, eligible, borough), RingIdColumn, RingId(msoaId, k))
            == RingRows(msoaId, k, rings[k], eligible, borough)
    decreases |rings|
  {
    var n := |rings| - 1;
    var init := rings[..n];
    var last := RingRows(msoaId, n, rings[n], eligible, borough);
    RowsWhereAppend(AreaRows(msoaId, init, eligible, borough), last, RingIdColumn, RingId(msoaId, k));
    if k == n {
      EarlierRingsDropped(msoaId, init, eligible, borough, k);
      RingRowsKept(msoaId, n, rings[n], eligible, borough);
    } else {
      assert init[k] == rings[k];
      RowsOfRingInArea(msoaId, init, eligible, borough, k);
      RingRowsDropped(msoaId, n, rings[n], eligible, borough, k);
    }
  }

  /** Sorting rows that are already in order changes nothing. */
  lemma {:induction false} SortSorted(rows: seq<CoordinateRow>)
    requires SortedByOrder(rows)
    ensures SortByOrder(rows) == rows
    decreases |rows|
  {
    if rows != [] {
      var tail := rows[1..];
      assert SortedByOrder(tail) by {
        forall i | 0 < i < |tail|
          ensures tail[i - 1].order <= tail[i].order
        {
          assert tail[i - 1] == rows[i] && tail[i] == rows[i + 1];
        }
      }
      SortSorted(tail);
      assert rows == [rows[0]] + tail;
      assert SortByOrder(rows) == Insert(rows[0], tail);
      assert tail == [] || rows[0].order <= tail[0].order;
    }
  }

  /** A ring's rows are already in `order`, so sorting them gives back the ring's vertices. */
  lemma {:induction false} SortRingRows(msoaId: string, k: nat, ring: Ring, eligible: int, borough: string)
    ensures Coords(SortByOrder(RingRows(msoaId, k, ring, eligible, borough))) == ring
  {
    var rows := RingRows(msoaId, k, ring, eligible, borough);
    assert SortedByOrder(rows) by {
      forall i | 0 < i < |rows|
        ensures rows[i - 1].order <= rows[i].order
      {
        assert rows[i - 1].order == i - 1 && rows[i].order == i;
      }
    }
    SortSorted(rows);
    assert Coords(rows) == ring;
  }

  /**
   * The rows of ring `msoaId_k` among an area's rows, sorted by `order`, list the ring's
   * vertices in their original order: the outline stage sees the ring the decoder produced.
   */
  lemma {:induction false} RegroupRecoversRing(msoaId: string, rings: seq<Ring>, eligible: int, borough: string, k: nat)
    requires k < |rings|
    ensures RingPoints(AreaRows(msoaId, rings, eligible, borough), RingId(msoaId, k)) == rings[k]
  {
    RowsOfRingInArea(msoaId, rings, eligible, borough, k);
    SortRingRows(msoaId, k, rings[k], eligible, borough);
  }

  /** Filtering by borough and by ring id can be done in either order. */
  lemma {:induction false} FiltersCommute(rows: seq<CoordinateRow>, borough: string, ringId: string)
    ensures RowsWhere(RowsWhere(rows, BoroughColumn, borough), RingIdColumn, ringId) == RowsWhere(RowsWhere(rows, RingIdColumn, ringId), BoroughColumn, borough)
    decreases |rows|
  {
    if rows != [] {
      var init, last := rows[..|rows| - 1], rows[|rows| - 1];
      FiltersCommute(init, borough, ringId);
      RowsWhereAppend(RowsWhere(init, BoroughColumn, borough), [last], RingIdColumn, ringId);
      if last.ringId == ringId {
        assert RowsWhere(rows, RingIdColumn, ringId) == RowsWhere(init, RingIdColumn, ringId) + [last];
        assert RowsWhere(rows, RingIdColumn, ringId)[..|RowsWhere(rows, RingIdColumn, ringId)| - 1] == RowsWhere(init, RingIdColumn, ringId);
      }
    }
  }


  /** An area's rows carry no ring id of another area. */
  lemma {:induction false} RowsOfRingOtherArea(other: string, rings: seq<Ring>, eligible: int, borough: string,
                                                msoaId: string, k: nat)
    requires other != msoaId
    ensures RowsWhere(AreaRows(other, rings, eligible, borough), RingIdColumn, RingId(msoaId, k)) == []
  {
    forall row | row in AreaRows(other, rings, eligible, borough)
      ensures row.ringId != RingId(msoaId, k)
    {
      AreaRowsMember(other, rings, eligible, borough, row);
      var j :| 0 <= j < |rings| && row.ringId == RingId(other, j);
      RingIdInjective(other, j, msoaId, k);
    }
    RowsWhereNone(AreaRows(other, rings, eligible, borough), RingIdColumn, RingId(msoaId, k));
  }

  /** The table holds no row with a ring id of an area it was not built from. */
  lemma {:induction false} RowsOfRingAbsent(areas: seq<Area>, boroughOf: map<string, string>, eligibility: map<string, int>,
                                            msoaId: string, k: nat)
    requires PolyData(areas, boroughOf, eligibility).Success?
    requires forall i | 0 <= i < |areas| :: areas[i].msoaId != msoaId
    ensures RowsWhere(PolyData(areas, boroughOf, eligibility).value, RingIdColumn, RingId(msoaId, k)) == []
    decreases |areas|
  {
    if areas != [] {
      var init, last := areas[..|areas| - 1], areas[|areas| - 1];
      RowsOfRingAbsent(init, boroughOf, eligibility, msoaId, k);
      if last.msoaId in boroughOf {
        var e, b := EligibilityOf(eligibility, last.msoaId), boroughOf[last.msoaId];
        var rings := Decode(last.shape).value;
        RowsWhereAppend(PolyData(init, boroughOf, eligibility).value, AreaRows(last.msoaId, rings, e, b), RingIdColumn, RingId(msoaId, k));
        RowsOfRingOtherArea(last.msoaId, rings, e, b, msoaId, k);
      }
    }
  }

  /** The rows of ring k of the last area, when no earlier area has its code. */
  lemma {:induction false} RowsOfRingInLastArea(areas: seq<Area>, boroughOf: map<string, string>, eligibility: map<string, int>,
                                                k: nat)
    requires areas != [] && PolyData(areas, boroughOf, eligibility).Success?
    requires forall i | 0 <= i < |areas| - 1 :: areas[i].msoaId != areas[|areas| - 1].msoaId
    requires areas[|areas| - 1].msoaId in boroughOf && Decode(areas[|areas| - 1].shape).Success?
    requires k < |Decode(areas[|areas| - 1].shape).value|
    ensures RowsWhere(PolyData(areas, boroughOf, eligibility).value, RingIdColumn, RingId(areas[|areas| - 1].msoaId, k))
            == RingRows(areas[|areas| - 1].msoaId, k, Decode(areas[|areas| - 1].shape).value[k],
                        EligibilityOf(eligibility, areas[|areas| - 1].msoaId), boroughOf[areas[|areas| - 1].msoaId])
  {
    var init, m := areas[..|areas| - 1], areas[|areas| - 1].msoaId;
    var e, b := EligibilityOf(eligibility, m), boroughOf[m];
    var rings := Decode(areas[|areas| - 1].shape).value;
    RowsOfRingAbsent(init, boroughOf, eligibility, m, k);
    RowsWhereAppend(PolyData(init, boroughOf, eligibility).value, AreaRows(m, rings, e, b), RingIdColumn, RingId(m, k));
    RowsOfRingInArea(m, rings, e, b, k);
  }

  /**
   * When area codes do not repeat, the rows of the whole table with the id of ring k of
   * area a are exactly the rows that area's flattening wrote for that ring.
   */
  lemma {:induction false} RowsOfRingInPolyData(areas: seq<Area>, boroughOf: map<string, string>, eligibility: map<string, int>,
                                                a: nat, k: nat)
    requires PolyData(areas, boroughOf, eligibility).Success?
    requires forall i, j | 0 <= i < j < |areas| :: areas[i].msoaId != areas[j].msoaId
    requires a < |areas| && areas[a].msoaId in boroughOf && Decode(areas[a].shape).Success?
    requires k < |Decode(areas[a].shape).value|
    ensures RowsWhere(PolyData(areas, boroughOf, eligibility).value, RingIdColumn, RingId(areas[a].msoaId, k))
            == RingRows(areas[a].msoaId, k, Decode(areas[a].shape).value[k],
                        EligibilityOf(eligibility, areas[a].msoaId), boroughOf[areas[a].msoaId])
    decreases |areas|
  {
    var n := |areas| - 1;
    if a == n {
      RowsOfRingInLastArea(areas, boroughOf, eligibility, k);
    } else {
      var init, last, m := areas[..n], areas[n], areas[a].msoaId;
      assert init[a] == areas[a];
      RowsOfRingInPolyData(init, boroughOf, eligibility, a, k);
      if last.msoaId in boroughOf {
        var e, b := EligibilityOf(eligibility, last.msoaId), boroughOf[last.msoaId];
        var rings := Decode(last.shape).value;
        RowsWhereAppend(PolyData(init, boroughOf, eligibility).value, AreaRows(last.msoaId, rings, e, b), RingIdColumn, RingId(m, k));
        RowsOfRingOtherArea(last.msoaId, rings, e, b, m, k);
      }
    }
  }

  /**
   * End to end: when area codes do not repeat, the borough's slice of the table, filtered
   * to ring `msoaId_k` and sorted by `order`, lists exactly the vertices the decoder
   * produced for ring k of that area, in their original order.
   */
  lemma {:induction false} TableRecoversRing(areas: seq<Area>, boroughOf: map<string, string>, eligibility: map<string, int>,
                                             a: nat, k: nat)
    requires PolyData(areas, boroughOf, eligibility).Success?
    requires forall i, j | 0 <= i < j < |areas| :: areas[i].msoaId != areas[j].msoaId
    requires a < |areas| && areas[a].msoaId in boroughOf && Decode(areas[a].shape).Success?
    requires k < |Decode(areas[a].shape).value|
    ensures RingPoints(RowsWhere(PolyData(areas, boroughOf, eligibility).value, BoroughColumn, boroughOf[areas[a].msoaId]),
                       RingId(areas[a].msoaId, k))
            == Decode(areas[a].shape).value[k]
  {
    var m := areas[a].msoaId;
    var rings := Decode(areas[a].shape).value;
    var table := PolyData(areas, boroughOf, eligibility).value;
    var rows := RingRows(m, k, rings[k], EligibilityOf(eligibility, m), boroughOf[m]);
    RowsOfRingInPolyData(areas, boroughOf, eligibility, a, k);
    FiltersCommute(table, boroughOf[m], RingId(m, k));
    RowsWhereAll(rows, BoroughColumn, boroughOf[m]);
    SortRingRows(m, k, rings[k], EligibilityOf(eligibility, m), boroughOf[m]);
  }

  // What the outline table holds.

  /** The segment an outline row stands for. */
  function SegmentOf(row: OutlineRow): Segment {
    Segment(Point(row.x, row.y), Point(row.xend, row.yend))
  }

  /** A row is among a borough's outline rows exactly when it names that borough and one of the segments. */
  lemma {:induction false} OutlineRowsMember(borough: string, segments: seq<Segment>, row: OutlineRow)
    ensures row in OutlineRows(borough, segments) <==> row.borough == borough && SegmentOf(row) in segments
    decreases |segments|
  {
    if segments != [] {
      var init, last := segments[..|segments| - 1], segments[|segments| - 1];
      assert segments == init + [last];
      OutlineRowsMember(borough, init, row);
    }
  }

  /** Rows written for distinct segments are distinct. */
  lemma {:induction false} OutlineRowsDistinct(borough: string, segments: seq<Segment>)
    requires NoDuplicates(segments)
    ensures NoDuplicates(OutlineRows(borough, segments))
    decreases |segments|
  {
    if segments != [] {
      var init, last := segments[..|segments| - 1], segments[|segments| - 1];
      NoDuplicatesInit(segments);
      OutlineRowsDistinct(borough, init);
      OutlineRowsMember(borough, init, OutlineRowOf(borough, last));
      NoDuplicatesSnoc(OutlineRows(borough, init), OutlineRowOf(borough, last));
    }
  }

  /** A row is in the outlines of some boroughs exactly when it is in the outline of its own borough, one of them. */
  lemma {:induction false} OutlinesForMember(df: seq<CoordinateRow>, boroughs: seq<string>, row: OutlineRow)
    ensures row in OutlinesFor(df, boroughs) <==> row.borough in boroughs && row in BoroughOutline(df, row.borough)
    decreases |boroughs|
  {
    if boroughs != [] {
      var init, last := boroughs[..|boroughs| - 1], boroughs[|boroughs| - 1];
      assert boroughs == init + [last];
      OutlinesForMember(df, init, row);
      OutlineRowsMember(last, Singles(BoroughEdges(df, last)), row);
      OutlineRowsMember(row.borough, Singles(BoroughEdges(df, row.borough)), row);
    }
  }

  /** The outlines of distinct boroughs hold no row twice. */
  lemma {:induction false} OutlinesForDistinct(df: seq<CoordinateRow>, boroughs: seq<string>)
    requires NoDuplicates(boroughs)
    ensures NoDuplicates(OutlinesFor(df, boroughs))
    decreases |boroughs|
  {
    if boroughs != [] {
      var init, last := boroughs[..|boroughs| - 1], boroughs[|boroughs| - 1];
      NoDuplicatesInit(boroughs);
      OutlinesForDistinct(df, init);
      OutlineRowsDistinct(last, Singles(BoroughEdges(df, last)));
      forall row | row in OutlinesFor(df, init)
        ensures row !in BoroughOutline(df, last)
      {
        OutlinesForMember(df, init, row);
        OutlineRowsMember(last, Singles(BoroughEdges(df, last)), row);
      }
      NoDuplicatesAppend(OutlinesFor(df, init), BoroughOutline(df, last));
    }
  }

  /**
   * A row is in the outline table exactly when its borough is one of the table's
   * boroughs and its segment's key occurs exactly once among that borough's edges.
   */
  lemma {:induction false} AllOutlinesMember(df: seq<CoordinateRow>, row: OutlineRow)
    ensures row in AllOutlines(df) <==> row.borough in ColumnValues(df, BoroughColumn) && multiset(BoroughEdges(df, row.borough))[SegmentOf(row)] == 1
  {
    OutlinesForMember(df, Unique(ColumnValues(df, BoroughColumn)), row);
    OutlineRowsMember(row.borough, Singles(BoroughEdges(df, row.borough)), row);
  }
}
