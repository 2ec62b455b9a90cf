/**
 * `decode_gpkg_geom` as the program runs it: an offset that moves forward through the
 * blob, a list of points appended to inside the point loop, a list of rings appended
 * to inside the ring loop. Each method is proved to return exactly what the `GeoPackage`
 * specification says, failures included.
 */
module GeoPackageDecoder {
  import opened Wrappers
  import opened Bytes
  import opened GeoPackage

  /** Values already read, in front of whatever the rest of the input reads as. */
  function Prepend<T>(prefix: seq<T>, rest: Result<Parsed<seq<T>>, DecodeError>): (r: Result<Parsed<seq<T>>, DecodeError>)
    ensures r.Success? <==> rest.Success?
    ensures r.Success? ==> r.value.value == prefix + rest.value.value && r.value.next == rest.value.next
    ensures r.Failure? ==> r.error == rest.error
  {
    match rest
    case Failure(e) => Failure(e)
    case Success(p) => Success(Parsed(prefix + p.value, p.next))
  }

  lemma {:induction false} PrependTwice<T>(a: seq<T>, b: seq<T>, rest: Result<Parsed<seq<T>>, DecodeError>)
    ensures Prepend(a, Prepend(b, rest)) == Prepend(a + b, rest)
  {
    if rest.Success? {
      assert a + (b + rest.value.value) == (a + b) + rest.value.value;
    }
  }

  lemma {:induction false} PrependNothing<T>(rest: Result<Parsed<seq<T>>, DecodeError>)
    ensures Prepend([], rest) == rest
  {
    if rest.Success? {
      assert [] + rest.value.value == rest.value.value;
    }
  }

  /** The point loop: `num_points` 16-byte records read one after another from `offset`. */
  method ReadRing(wkb: seq<u8>, offset: nat, le: bool) returns (r: Result<Parsed<Ring>, DecodeError>)
    ensures r == ParseRing(wkb, offset, le)
  {
    if offset + 4 > |wkb| {
      return Failure(Truncated);
    }
    Pow256Widths();
    var numPoints := WordAt(wkb, offset, 4, le);
    var pos: nat := offset + 4;
    var points: seq<Point> := [];
    PrependNothing(ParsePoints(wkb, pos, numPoints, le));
    var j: nat := 0;
    while j < numPoints
      invariant j <= numPoints && pos == offset + 4 + 16 * j
      invariant Prepend(points, ParsePoints(wkb, pos, numPoints - j, le)) == ParsePoints(wkb, offset + 4, numPoints, le)
    {
      if pos + 16 > |wkb| {
        return Failure(Truncated);
      }
      var p := ReadPoint(wkb, pos, le);
      assert ParsePoints(wkb, pos, numPoints - j, le) == Prepend([p], ParsePoints(wkb, pos + 16, numPoints - j - 1, le));
      PrependTwice(points, [p], ParsePoints(wkb, pos + 16, numPoints - j - 1, le));
      points := points + [p];
      pos := pos + 16;
      j := j + 1;
    }
    assert points + [] == points;
    return Success(Parsed(points, pos));
  }

  /** The ring loop: n rings read one after another from `offset`. */
  method ReadRings(wkb: seq<u8>, offset: nat, n: nat, le: bool) returns (r: Result<Parsed<seq<Ring>>, DecodeError>)
    ensures r == ParseRings(wkb, offset, n, le)
  {
    var pos: nat := offset;
    var rings: seq<Ring> := [];
    PrependNothing(ParseRings(wkb, pos, n, le));
    var k: nat := 0;
    while k < n
      invariant k <= n
      invariant Prepend(rings, ParseRings(wkb, pos, n - k, le)) == ParseRings(wkb, offset, n, le)
    {
      var ring := ReadRing(wkb, pos, le);
      if ring.Failure? {
        return Failure(ring.error);
      }
      var rest := ParseRings(wkb, ring.value.next, n - k - 1, le);
      RingsAt(wkb, pos, n - k, le);
      PrependTwice(rings, [ring.value.value], rest);
      rings := rings + [ring.value.value];
      pos := ring.value.next;
      k := k + 1;
    }
    assert rings + [] == rings;
    return Success(Parsed(rings, pos));
  }

  /**
   * The sub-polygon loop of a MultiPolygon: for each of n sub-polygons, skip its
   * byte-order byte, read its type code (never looked at) and ring count, then its
   * rings, appending them to one list.
   */
  method ReadParts(wkb: seq<u8>, offset: nat, n: nat, le: bool) returns (r: Result<Parsed<seq<Ring>>, DecodeError>)
    ensures r == ParseParts(wkb, offset, n, le)
  {
    var pos: nat := offset;
    var rings: seq<Ring> := [];
    PrependNothing(ParseParts(wkb, pos, n, le));
    var k: nat := 0;
    while k < n
      invariant k <= n
      invariant Prepend(rings, ParseParts(wkb, pos, n - k, le)) == ParseParts(wkb, offset, n, le)
    {
      if pos + 5 > |wkb| {
        return Failure(Truncated);
      }
      Pow256Widths();
      var subType := WordAt(wkb, pos + 1, 4, le);
      if pos + 9 > |wkb| {
        return Failure(Truncated);
      }
      var numRings := WordAt(wkb, pos + 5, 4, le);
      var part := ReadRings(wkb, pos + 9, numRings, le);
      PartAt(wkb, pos, le);
      if part.Failure? {
        return Failure(part.error);
      }
      var rest := ParseParts(wkb, part.value.next, n - k - 1, le);
      PartsAt(wkb, pos, n - k, le);
      PrependTwice(rings, part.value.value, rest);
      rings := rings + part.value.value;
      pos := part.value.next;
      k := k + 1;
    }
    assert rings + [] == rings;
    return Success(Parsed(rings, pos));
  }

  /** m > 0 rings: the first ring, then whatever the other m - 1 read as. */
  lemma {:induction false} RingsAt(w: seq<u8>, off: nat, m: nat, le: bool)
    requires m > 0 && ParseRing(w, off, le).Success?
    ensures ParseRings(w, off, m, le)
            == Prepend([ParseRing(w, off, le).value.value], ParseRings(w, ParseRing(w, off, le).value.next, m - 1, le))
  {
  }

  /** Once both header words are there, a sub-polygon reads as the rings after them. */
  lemma {:induction false} PartAt(w: seq<u8>, off: nat, le: bool)
    requires off + 9 <= |w|
    ensures Pow256(4) == Word32Limit
    ensures ParsePart(w, off, le) == ParseRings(w, off + 9, WordAt(w, off + 5, 4, le), le)
  {
    Pow256Widths();
  }

  /** m > 0 sub-polygons: the first one's rings, then whatever the other m - 1 read as. */
  lemma {:induction false} PartsAt(w: seq<u8>, off: nat, m: nat, le: bool)
    requires m > 0 && ParsePart(w, off, le).Success?
    ensures ParseParts(w, off, m, le)
            == Prepend(ParsePart(w, off, le).value.value, ParseParts(w, ParsePart(w, off, le).value.next, m - 1, le))
  {
  }

  /** `decode_gpkg_geom`: the rings of a GeoPackageBinary Polygon or MultiPolygon blob. */
  method DecodeGpkgGeom(blob: Option<seq<u8>>) returns (r: Result<seq<Ring>, DecodeError>)
    ensures r == Decode(blob)
  {
    if blob.None? {
      return Success([]);
    }
    var b := blob.value;
    if |b| < 2 || b[..2] != Magic {
      return Success([]);
    }
    if |b| < 4 {
      return Failure(FlagsMissing);
    }
    var flags := b[3];
    var envelopeContents := (flags as nat / 2) % 8;
    if envelopeContents >= |EnvelopeSizes| {
      return Failure(BadEnvelopeIndicator(envelopeContents));
    }
    var headerSize := PreambleSize + EnvelopeSizes[envelopeContents];
    var wkb := if headerSize <= |b| then b[headerSize..] else [];
    if |wkb| < 5 {
      return Success([]);
    }
    var le := wkb[0] == 1;
    Pow256Widths();
    var geomType := WordAt(wkb, 1, 4, le);
    if geomType == PolygonCode {
      if 9 > |wkb| {
        return Failure(Truncated);
      }
      var numRings := WordAt(wkb, 5, 4, le);
      var rings := ReadRings(wkb, 9, numRings, le);
      if rings.Failure? {
        return Failure(rings.error);
      }
      return Success(rings.value.value);
    } else if geomType == MultiPolygonCode {
      if 9 > |wkb| {
        return Failure(Truncated);
      }
      var numPolys := WordAt(wkb, 5, 4, le);
      var rings := ReadParts(wkb, 9, numPolys, le);
      if rings.Failure? {
        return Failure(rings.error);
      }
      return Success(rings.value.value);
    }
    return Success([]);
  }
}
