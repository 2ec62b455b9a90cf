/**
 * The loop of `extract_polygons` that turns each Greater Manchester area's decoded rings
 * into rows of the polygon table: one row per vertex, tagged with the area, a ring id
 * `"{msoa_id}_{k}"`, the vertex's position in its ring, and the area's eligibility and
 * borough. The lookups that supply borough and eligibility are given as maps.
 */
module Polygons {
  import opened Wrappers
  import opened Bytes
  import opened GeoPackage
  import opened GeoPackageDecoder
  import opened Decimal

  /** One row of `poly_data`. */
  datatype CoordinateRow = CoordinateRow(
    msoaId: string,
    ringId: string,
    order: nat,
    x: Word64,
    y: Word64,
    eligible: int,
    borough: string)

  /** One row of the area table: its code and its (possibly absent) geometry blob. */
  datatype Area = Area(msoaId: string, shape: Option<seq<u8>>)

  /**
   * The ring id `f"{msoa_id}_{ring_id}"` of ring k of an area: the area code, then an
   * underscore that is the id's last one, then the decimal digits that read back as k.
   */
  function RingId(msoaId: string, k: nat): (id: string)
    ensures |id| > |msoaId| && id[..|msoaId|] == msoaId && LastUnderscore(id) == |msoaId|
    ensures AllDigits(id[|msoaId| + 1..]) && StringToNat(id[|msoaId| + 1..]) == k
  {
    var id := msoaId + "_" + NatToString(k);
    RingIdSeparator(msoaId, NatToString(k));
    StringToNatToString(k);
    assert id[..|msoaId|] == msoaId && id[|msoaId| + 1..] == NatToString(k);
    id
  }

  /** The row written for vertex i of ring k. */
  function VertexRow(msoaId: string, k: nat, i: nat, p: Point, eligible: int, borough: string): CoordinateRow {
    CoordinateRow(msoaId, RingId(msoaId, k), i, p.x, p.y, eligible, borough)
  }

  /**
   * The rows of ring k, one per vertex in ring order: each carries the ring's id and the
   * area's tags, and its order is the position of the vertex whose coordinates it holds.
   */
  function RingRows(msoaId: string, k: nat, ring: Ring, eligible: int, borough: string): (r: seq<CoordinateRow>)
    ensures |r| == |ring|
    ensures forall row | row in r ::
              row.msoaId == msoaId && row.ringId == RingId(msoaId, k) && row.eligible == eligible
              && row.borough == borough && row.order < |ring| && Point(row.x, row.y) == ring[row.order]
  {
    seq(|ring|, i requires 0 <= i < |ring| => VertexRow(msoaId, k, i, ring[i], eligible, borough))
  }

  /** The rows of every ring of one area, ring after ring: one row per vertex. */
  function AreaRows(msoaId: string, rings: seq<Ring>, eligible: int, borough: string): (r: seq<CoordinateRow>)
    ensures |r| == TotalPoints(rings)
    decreases |rings|
  {
    if rings == [] then []
    else AreaRows(msoaId, rings[..|rings| - 1], eligible, borough)
         + RingRows(msoaId, |rings| - 1, rings[|rings| - 1], eligible, borough)
  }

  /** The number of vertices over all rings. */
  function TotalPoints(rings: seq<Ring>): nat
    decreases |rings|
  {
    if rings == [] then 0 else TotalPoints(rings[..|rings| - 1]) + |rings[|rings| - 1]|
  }

  /** What `is_eligible` is for an area: its entry in the eligibility table, 0 when it has none. */
  function EligibilityOf(eligibility: map<string, int>, msoaId: string): int {
    if msoaId in eligibility then eligibility[msoaId] else 0
  }

  /**
   * The whole of `poly_data` after the area loop: areas outside Greater Manchester
   * (no entry in `boroughOf`) are skipped, and a blob that makes the decoder raise
   * stops the run with that error.
   */
  function PolyData(areas: seq<Area>, boroughOf: map<string, string>, eligibility: map<string, int>)
    : (r: Result<seq<CoordinateRow>, DecodeError>)
    ensures r.Success? ==>
              forall i | 0 <= i < |areas| && areas[i].msoaId in boroughOf :: Decode(areas[i].shape).Success?
    ensures r.Failure? ==>
              exists i | 0 <= i < |areas| :: areas[i].msoaId in boroughOf && Decode(areas[i].shape) == Failure(r.error)
    decreases |areas|
  {
    if areas == [] then Success([])
    else
      var last := areas[|areas| - 1];
      match PolyData(areas[..|areas| - 1], boroughOf, eligibility)
      case Failure(e) => Failure(e)
      case Success(rows) =>
        if last.msoaId !in boroughOf then Success(rows)
        else
          match Decode(last.shape)
          case Failure(e) => Failure(e)
          case Success(rings) =>
            Success(rows + AreaRows(last.msoaId, rings, EligibilityOf(eligibility, last.msoaId), boroughOf[last.msoaId]))
  }

  /** The ring loop of `extract_polygons`: append one row per vertex of every ring of one area to `polyData`. */
  method AppendAreaRows(polyData: seq<CoordinateRow>, msoaId: string, rings: seq<Ring>, eligible: int, borough: string)
    returns (out: seq<CoordinateRow>)
    ensures out == polyData + AreaRows(msoaId, rings, eligible, borough)
  {
    out := polyData;
    for k := 0 to |rings|
      invariant out == polyData + AreaRows(msoaId, rings[..k], eligible, borough)
    {
      out := AppendRingRows(out, msoaId, k, rings[k], eligible, borough);
      assert out == polyData + AreaRows(msoaId, rings[..k + 1], eligible, borough) by {
        AreaRowsStep(msoaId, rings, eligible, borough, k);
      }
    }
    assert rings[..|rings|] == rings;
  }

  /** The vertex loop of `extract_polygons`: append one row per vertex of ring k, in ring order. */
  method AppendRingRows(polyData: seq<CoordinateRow>, msoaId: string, k: nat, ring: Ring, eligible: int, borough: string)
    returns (out: seq<CoordinateRow>)
    ensures out == polyData + RingRows(msoaId, k, ring, eligible, borough)
  {
    out := polyData;
    assert RingRows(msoaId, k, ring[..0], eligible, borough) == [];
    for i := 0 to |ring|
      invariant out == polyData + RingRows(msoaId, k, ring[..i], eligible, borough)
    {
      RingRowsStep(msoaId, k, ring, eligible, borough, i);
      out := out + [CoordinateRow(msoaId, RingId(msoaId, k), i, ring[i].x, ring[i].y, eligible, borough)];
    }
    assert ring[..|ring|] == ring;
  }

  /** Writing vertex i of a ring adds its row after those of the vertices before it. */
  lemma {:induction false} RingRowsStep(msoaId: string, k: nat, ring: Ring, eligible: int, borough: string, i: nat)
    requires i < |ring|
    ensures RingRows(msoaId, k, ring[..i + 1], eligible, borough)
            == RingRows(msoaId, k, ring[..i], eligible, borough) + [VertexRow(msoaId, k, i, ring[i], eligible, borough)]
  {
  }

  /** Flattening ring k of an area adds its rows after those of the rings before it. */
  lemma {:induction false} AreaRowsStep(msoaId: string, rings: seq<Ring>, eligible: int, borough: string, k: nat)
    requires k < |rings|
    ensures AreaRows(msoaId, rings[..k + 1], eligible, borough)
            == AreaRows(msoaId, rings[..k], eligible, borough) + RingRows(msoaId, k, rings[k], eligible, borough)
  {
    assert rings[..k + 1][..k] == rings[..k];
  }

  /** The area loop of `extract_polygons`: decoding each Greater Manchester area's blob and flattening its rings. */
  method ExtractPolygons(areas: seq<Area>, boroughOf: map<string, string>, eligibility: map<string, int>)
    returns (r: Result<seq<CoordinateRow>, DecodeError>)
    ensures r == PolyData(areas, boroughOf, eligibility)
  {
    var polyData: seq<CoordinateRow> := [];
    for a := 0 to |areas|
      invariant PolyData(areas[..a], boroughOf, eligibility) == Success(polyData)
    {
      var area := areas[a];
      assert areas[..a + 1][..a] == areas[..a];
      if area.msoaId !in boroughOf {
        continue;
      }
      var borough := boroughOf[area.msoaId];
      var isEligible := if area.msoaId in eligibility then eligibility[area.msoaId] else 0;
      var rings := DecodeGpkgGeom(area.shape);
      if rings.Failure? {
        assert PolyData(areas, boroughOf, eligibility) == Failure(rings.error) by {
          PolyDataStopsAtFailure(areas, a + 1, boroughOf, eligibility);
        }
        return Failure(rings.error);
      }
      polyData := AppendAreaRows(polyData, area.msoaId, rings.value, isEligible, borough);
    }
    assert areas[..|areas|] == areas;
    return Success(polyData);
  }

  /** Once an area's blob makes the decoder raise, no later area changes the outcome. */
  lemma {:induction false} PolyDataStopsAtFailure(areas: seq<Area>, a: nat, boroughOf: map<string, string>, eligibility: map<string, int>)
    requires a <= |areas| && PolyData(areas[..a], boroughOf, eligibility).Failure?
    ensures PolyData(areas, boroughOf, eligibility) == PolyData(areas[..a], boroughOf, eligibility)
    decreases |areas| - a
  {
    if a < |areas| {
      assert areas[..a + 1][..a] == areas[..a];
      PolyDataStopsAtFailure(areas, a + 1, boroughOf, eligibility);
    } else {
      assert areas[..a] == areas;
    }
  }

  /** The position of the last underscore in s, or -1 when there is none. */
  function LastUnderscore(s: string): (r: int)
    ensures -1 <= r < |s|
    ensures r >= 0 ==> s[r] == '_'
    decreases |s|
  {
    if s == [] then -1
    else if s[|s| - 1] == '_' then |s| - 1
    else LastUnderscore(s[..|s| - 1])
  }

  /** The underscore a ring id puts after the area code is its last one: digits follow it. */
  lemma {:induction false} RingIdSeparator(msoaId: string, digits: string)
    requires AllDigits(digits)
    ensures LastUnderscore(msoaId + "_" + digits) == |msoaId|
    decreases |digits|
  {
    var s := msoaId + "_" + digits;
    if digits != [] {
      var init := digits[..|digits| - 1];
      assert s[..|s| - 1] == msoaId + "_" + init;
      assert s[|s| - 1] == digits[|digits| - 1];
      RingIdSeparator(msoaId, init);
    }
  }

  /**
   * Ring ids name rings uniquely: two ids are equal exactly when they are for the same
   * area and the same ring index, whatever characters the area codes contain.
   */
  lemma {:induction false} RingIdInjective(m1: string, k1: nat, m2: string, k2: nat)
    ensures RingId(m1, k1) == RingId(m2, k2) <==> m1 == m2 && k1 == k2
  {
    var s1, s2 := RingId(m1, k1), RingId(m2, k2);
    if s1 == s2 {
      RingIdSeparator(m1, NatToString(k1));
      RingIdSeparator(m2, NatToString(k2));
      assert |m1| == |m2|;
      assert m1 == s1[..|m1|] && m2 == s2[..|m2|];
      assert NatToString(k1) == s1[|m1| + 1..] && NatToString(k2) == s2[|m2| + 1..];
      NatToStringInjective(k1, k2);
    }
  }

  /**
   * Vertex i of ring k sits right after the vertices of the rings before it, tagged with
   * ring id `msoaId_k`, order i and its own coordinates.
   */
  lemma {:induction false} AreaRowsAt(msoaId: string, rings: seq<Ring>, eligible: int, borough: string, k: nat, i: nat)
    requires k < |rings| && i < |rings[k]|
    ensures TotalPoints(rings[..k]) + i < |AreaRows(msoaId, rings, eligible, borough)|
    ensures AreaRows(msoaId, rings, eligible, borough)[TotalPoints(rings[..k]) + i]
            == CoordinateRow(msoaId, RingId(msoaId, k), i, rings[k][i].x, rings[k][i].y, eligible, borough)
    decreases |rings|
  {
    var n := |rings| - 1;
    var init := rings[..n];
    if k < n {
      assert init[..k] == rings[..k] && init[k] == rings[k];
      AreaRowsAt(msoaId, init, eligible, borough, k, i);
    } else {
      assert rings[..k] == init;
    }
  }

  /** Every row of an area's flattening is the row of one of its vertices. */
  lemma {:induction false} AreaRowsMember(msoaId: string, rings: seq<Ring>, eligible: int, borough: string, row: CoordinateRow)
    requires row in AreaRows(msoaId, rings, eligible, borough)
    ensures row.msoaId == msoaId && row.eligible == eligible && row.borough == borough
    ensures exists k | 0 <= k < |rings| :: row.ringId == RingId(msoaId, k) && row.order < |rings[k]|
                                           && Point(row.x, row.y) == rings[k][row.order]
    decreases |rings|
  {
    var n := |rings| - 1;
    var init := rings[..n];
    if row in AreaRows(msoaId, init, eligible, borough) {
      AreaRowsMember(msoaId, init, eligible, borough, row);
      var k :| 0 <= k < |init| && row.ringId == RingId(msoaId, k) && row.order < |init[k]|
               && Point(row.x, row.y) == init[k][row.order];
      assert init[k] == rings[k];
    } else {
      assert row in RingRows(msoaId, n, rings[n], eligible, borough);
    }
  }

  /** Every row of `poly_data` carries its own area's borough and eligibility. */
  lemma {:induction false} PolyDataRowsTagged(areas: seq<Area>, boroughOf: map<string, string>, eligibility: map<string, int>)
    requires PolyData(areas, boroughOf, eligibility).Success?
    ensures forall row | row in PolyData(areas, boroughOf, eligibility).value ::
              row.msoaId in boroughOf && row.borough == boroughOf[row.msoaId]
              && row.eligible == EligibilityOf(eligibility, row.msoaId)
    decreases |areas|
  {
    if areas != [] {
      var last := areas[|areas| - 1];
      var init := areas[..|areas| - 1];
      PolyDataRowsTagged(init, boroughOf, eligibility);
      if last.msoaId in boroughOf && Decode(last.shape).Success? {
        var rings := Decode(last.shape).value;
        var e, b := EligibilityOf(eligibility, last.msoaId), boroughOf[last.msoaId];
        forall row | row in AreaRows(last.msoaId, rings, e, b)
          ensures row.msoaId == last.msoaId && row.eligible == e && row.borough == b
        {
          AreaRowsMember(last.msoaId, rings, e, b, row);
        }
      }
    }
  }
}
