/**
 * Writers for the GeoPackageBinary Polygon and MultiPolygon layouts that `Decode` reads,
 * and the lemmas that tie reading and writing together: decoding an encoding gives back
 * the rings, every successful Polygon or MultiPolygon decode consumed exactly an encoding of its result,
 * and a body cut short raises instead of yielding partial rings.
 */
module GeoPackageEncoding {
  import opened Wrappers
  import opened Bytes
  import opened GeoPackage

  function EncodeWord32(v: Word32, le: bool): (r: seq<u8>)
    ensures |r| == 4
  {
    Pow256Widths();
    ToBytes(v, 4, le)
  }

  function EncodePoint(p: Point, le: bool): (r: seq<u8>)
    ensures |r| == PointSize
  {
    Pow256Widths();
    ToBytes(p.x, 8, le) + ToBytes(p.y, 8, le)
  }

  function EncodePoints(ps: seq<Point>, le: bool): (r: seq<u8>)
    ensures |r| == 16 * |ps|
  {
    if ps == [] then [] else EncodePoint(ps[0], le) + EncodePoints(ps[1..], le)
  }

  /** Every ring's point count fits the four-byte count field. */
  predicate CountsFit(rings: seq<Ring>) {
    forall i | 0 <= i < |rings| :: |rings[i]| < Word32Limit
  }

  /** The sum over the rings of 4 + 16 times the ring's point count. */
  function RingsSize(rings: seq<Ring>): nat {
    if rings == [] then 0 else 4 + 16 * |rings[0]| + RingsSize(rings[1..])
  }

  /** One ring: its point count, then its points. */
  function EncodeRing(ring: Ring, le: bool): (r: seq<u8>)
    requires |ring| < Word32Limit
    ensures |r| == 4 + 16 * |ring|
  {
    EncodeWord32(|ring|, le) + EncodePoints(ring, le)
  }

  /** Rings, one after the other. */
  function EncodeRings(rings: seq<Ring>, le: bool): (r: seq<u8>)
    requires CountsFit(rings)
    ensures |r| == RingsSize(rings)
  {
    if rings == [] then [] else EncodeRing(rings[0], le) + EncodeRings(rings[1..], le)
  }

  /** A WKB Polygon body in the byte order that `orderByte` selects. */
  function EncodePolygon(orderByte: u8, rings: seq<Ring>): (r: seq<u8>)
    requires |rings| < Word32Limit && CountsFit(rings)
    ensures |r| == 9 + RingsSize(rings) && r[0] == orderByte
  {
    var le := IsLittleEndian(orderByte);
    [orderByte] + EncodeWord32(PolygonCode, le) + EncodeWord32(|rings|, le) + EncodeRings(rings, le)
  }

  /** One sub-polygon of a MultiPolygon, with its own (unchecked) byte order and type code. */
  datatype Part = Part(orderByte: u8, typeCode: Word32, rings: seq<Ring>)

  predicate PartFits(part: Part) {
    |part.rings| < Word32Limit && CountsFit(part.rings)
  }

  predicate PartsFit(parts: seq<Part>) {
    forall i | 0 <= i < |parts| :: PartFits(parts[i])
  }

  /** The sum over the sub-polygons of 9 + the size of their rings. */
  function PartsSize(parts: seq<Part>): nat {
    if parts == [] then 0 else 9 + RingsSize(parts[0].rings) + PartsSize(parts[1..])
  }

  /** One sub-polygon: its own byte-order byte and type code, a ring count, its rings. */
  function EncodePart(part: Part, le: bool): (r: seq<u8>)
    requires PartFits(part)
    ensures |r| == 9 + RingsSize(part.rings)
  {
    [part.orderByte] + EncodeWord32(part.typeCode, le) + EncodeWord32(|part.rings|, le)
    + EncodeRings(part.rings, le)
  }

  function EncodeParts(parts: seq<Part>, le: bool): (r: seq<u8>)
    requires PartsFit(parts)
    ensures |r| == PartsSize(parts)
  {
    if parts == [] then [] else EncodePart(parts[0], le) + EncodeParts(parts[1..], le)
  }

  /** A WKB MultiPolygon body in the byte order that `orderByte` selects. */
  function EncodeMultiPolygon(orderByte: u8, parts: seq<Part>): (r: seq<u8>)
    requires |parts| < Word32Limit && PartsFit(parts)
    ensures |r| == 9 + PartsSize(parts) && r[0] == orderByte
  {
    var le := IsLittleEndian(orderByte);
    [orderByte] + EncodeWord32(MultiPolygonCode, le) + EncodeWord32(|parts|, le) + EncodeParts(parts, le)
  }

  /** The rings of all sub-polygons, in order, with the grouping dropped. */
  function AllRings(parts: seq<Part>): seq<Ring> {
    if parts == [] then [] else parts[0].rings + AllRings(parts[1..])
  }

  /** A header whose envelope has the length its flags byte announces. */
  predicate ValidHeader(flags: u8, srsId: seq<u8>, envelope: seq<u8>) {
    EnvelopeIndicator(flags) < |EnvelopeSizes| && |srsId| == 4
    && |envelope| == EnvelopeSizes[EnvelopeIndicator(flags)]
  }

  /** A GeoPackageBinary blob: magic, version, flags, SRS id, envelope, then the WKB body. */
  function Container(version: u8, flags: u8, srsId: seq<u8>, envelope: seq<u8>, body: seq<u8>): (r: seq<u8>)
    requires ValidHeader(flags, srsId, envelope)
    ensures |r| == HeaderSize(flags) + |body|
    ensures HasMagic(r) && r[3] == flags && r[HeaderSize(flags)..] == body
  {
    Magic + [version, flags] + srsId + envelope + body
  }

  lemma {:induction false} ReadWord32At(w: seq<u8>, off: nat, v: Word32, le: bool)
    requires Matches(w, off, EncodeWord32(v, le))
    ensures ReadWord32(w, off, le) == Success(v)
  {
    Pow256Widths();
    WordAtMatches(w, off, EncodeWord32(v, le), 4, le);
    WordAtToBytes(v, 4, le);
  }

  lemma {:induction false} ReadPointAt(w: seq<u8>, off: nat, p: Point, le: bool)
    requires Matches(w, off, EncodePoint(p, le))
    ensures off + 16 <= |w| && ReadPoint(w, off, le) == p
  {
    Pow256Widths();
    MatchesSplit(w, off, ToBytes(p.x, 8, le), ToBytes(p.y, 8, le));
    WordAtMatches(w, off, ToBytes(p.x, 8, le), 8, le);
    WordAtMatches(w, off + 8, ToBytes(p.y, 8, le), 8, le);
    WordAtToBytes(p.x, 8, le);
    WordAtToBytes(p.y, 8, le);
  }

  /** One step of `ParsePoints`: the first point, then the rest. */
  lemma {:induction false} ParsePointsCons(w: seq<u8>, off: nat, n: nat, le: bool, p: Point, tail: seq<Point>, end: nat)
    requires n == |tail| + 1 && off + 16 <= |w| && ReadPoint(w, off, le) == p
    requires ParsePoints(w, off + 16, |tail|, le) == Success(Parsed(tail, end))
    ensures ParsePoints(w, off, n, le) == Success(Parsed([p] + tail, end))
  {
  }

  lemma {:induction false} Uncons<T>(s: seq<T>)
    requires s != []
    ensures s == [s[0]] + s[1..]
  {
  }

  /**
   * Bytes that match an encoding of sub-polygons: the first one reads back as its rings,
   * and the bytes after it match an encoding of the others.
   */
  lemma {:induction false} FirstPartReads(w: seq<u8>, off: nat, parts: seq<Part>, le: bool)
    requires PartsFit(parts) && parts != [] && Matches(w, off, EncodeParts(parts, le))
    ensures PartsFit(parts[1..])
    ensures ParsePart(w, off, le) == Success(Parsed(parts[0].rings, off + 9 + RingsSize(parts[0].rings)))
    ensures Matches(w, off + 9 + RingsSize(parts[0].rings), EncodeParts(parts[1..], le))
  {
    EncodePartsUncons(parts, le);
    MatchesSplit(w, off, EncodePart(parts[0], le), EncodeParts(parts[1..], le));
    PartRoundTrip(w, off, parts[0], le);
  }

  lemma {:induction false} EncodePartsUncons(parts: seq<Part>, le: bool)
    requires PartsFit(parts) && parts != []
    ensures PartFits(parts[0]) && PartsFit(parts[1..])
    ensures EncodeParts(parts, le) == EncodePart(parts[0], le) + EncodeParts(parts[1..], le)
  {
    assert PartFits(parts[0]);
  }

  /** One step of `ParseRings`: the first ring, then the rest. */
  lemma {:induction false} ParseRingsCons(w: seq<u8>, off: nat, rings: seq<Ring>, le: bool, mid: nat, end: nat)
    requires rings != []
    requires ParseRing(w, off, le) == Success(Parsed(rings[0], mid))
    requires ParseRings(w, mid, |rings| - 1, le) == Success(Parsed(rings[1..], end))
    ensures ParseRings(w, off, |rings|, le) == Success(Parsed(rings, end))
  {
    Uncons(rings);
  }

  /** One step of `ParseParts`: the first sub-polygon's rings, then the rest. */
  lemma {:induction false} ParsePartsCons(w: seq<u8>, off: nat, le: bool, parts: seq<Part>, mid: nat, end: nat)
    requires parts != []
    requires ParsePart(w, off, le) == Success(Parsed(parts[0].rings, mid))
    requires ParseParts(w, mid, |parts| - 1, le) == Success(Parsed(AllRings(parts[1..]), end))
    ensures ParseParts(w, off, |parts|, le) == Success(Parsed(AllRings(parts), end))
  {
  }

  lemma {:induction false} PointsRoundTrip(w: seq<u8>, off: nat, ps: seq<Point>, le: bool)
    requires Matches(w, off, EncodePoints(ps, le))
    ensures ParsePoints(w, off, |ps|, le) == Success(Parsed(ps, off + 16 * |ps|))
    decreases ps
  {
    if ps != [] {
      var p, tail := ps[0], ps[1..];
      MatchesSplit(w, off, EncodePoint(p, le), EncodePoints(tail, le));
      ReadPointAt(w, off, p, le);
      PointsRoundTrip(w, off + 16, tail, le);
      ParsePointsCons(w, off, |ps|, le, p, tail, off + 16 + 16 * |tail|);
      assert [p] + tail == ps;
    }
  }

  lemma {:induction false} RingRoundTrip(w: seq<u8>, off: nat, ring: Ring, le: bool)
    requires |ring| < Word32Limit && Matches(w, off, EncodeRing(ring, le))
    ensures ParseRing(w, off, le) == Success(Parsed(ring, off + 4 + 16 * |ring|))
  {
    MatchesSplit(w, off, EncodeWord32(|ring|, le), EncodePoints(ring, le));
    ReadWord32At(w, off, |ring|, le);
    PointsRoundTrip(w, off + 4, ring, le);
  }

  /** Bytes that match an encoding of rings match its first ring, then the others. */
  lemma {:induction false} RingsSplit(w: seq<u8>, off: nat, rings: seq<Ring>, le: bool)
    requires CountsFit(rings) && rings != [] && Matches(w, off, EncodeRings(rings, le))
    ensures CountsFit(rings[1..]) && |rings[0]| < Word32Limit
    ensures Matches(w, off, EncodeRing(rings[0], le))
    ensures Matches(w, off + 4 + 16 * |rings[0]|, EncodeRings(rings[1..], le))
    ensures RingsSize(rings) == 4 + 16 * |rings[0]| + RingsSize(rings[1..])
  {
    MatchesSplit(w, off, EncodeRing(rings[0], le), EncodeRings(rings[1..], le));
  }

  /** Each of `rings` in turn reads back from where the one before it ended. */
  predicate RingsReadBack(w: seq<u8>, off: nat, rings: seq<Ring>, le: bool)
    decreases rings
  {
    rings == []
    || (ParseRing(w, off, le).Success? && ParseRing(w, off, le).value.value == rings[0]
        && RingsReadBack(w, ParseRing(w, off, le).value.next, rings[1..], le))
  }

  lemma {:induction false} RingsLayout(w: seq<u8>, off: nat, rings: seq<Ring>, le: bool)
    requires CountsFit(rings) && Matches(w, off, EncodeRings(rings, le))
    ensures RingsReadBack(w, off, rings, le)
    decreases rings
  {
    if rings != [] {
      RingsSplit(w, off, rings, le);
      RingRoundTrip(w, off, rings[0], le);
      RingsLayout(w, off + 4 + 16 * |rings[0]|, rings[1..], le);
    }
  }

  lemma {:induction false} RingsReadBackParse(w: seq<u8>, off: nat, rings: seq<Ring>, le: bool)
    requires RingsReadBack(w, off, rings, le)
    ensures ParseRings(w, off, |rings|, le) == Success(Parsed(rings, off + RingsSize(rings)))
    decreases rings
  {
    if rings != [] {
      var mid := ParseRing(w, off, le).value.next;
      RingsReadBackParse(w, mid, rings[1..], le);
      ParseRingsCons(w, off, rings, le, mid, mid + RingsSize(rings[1..]));
    } else {
      assert ParseRings(w, off, 0, le) == Success(Parsed([], off));
    }
  }

  lemma {:induction false} RingsRoundTrip(w: seq<u8>, off: nat, rings: seq<Ring>, le: bool)
    requires CountsFit(rings) && Matches(w, off, EncodeRings(rings, le))
    ensures ParseRings(w, off, |rings|, le) == Success(Parsed(rings, off + RingsSize(rings)))
  {
    RingsLayout(w, off, rings, le);
    RingsReadBackParse(w, off, rings, le);
  }

  /** The first sub-polygon reads back as its rings, whatever its byte-order byte and type code. */
  lemma {:induction false} PartRoundTrip(w: seq<u8>, off: nat, part: Part, le: bool)
    requires PartFits(part) && Matches(w, off, EncodePart(part, le))
    ensures ParsePart(w, off, le) == Success(Parsed(part.rings, off + 9 + RingsSize(part.rings)))
  {
    PartHeaderAt(w, off, part, le);
    RingsRoundTrip(w, off + 9, part.rings, le);
  }

  /** Where a part is written, its type code and ring count read back, and its rings follow. */
  lemma {:induction false} PartHeaderAt(w: seq<u8>, off: nat, part: Part, le: bool)
    requires PartFits(part) && Matches(w, off, EncodePart(part, le))
    ensures ParsePart(w, off, le) == ParseRings(w, off + 9, |part.rings|, le)
    ensures Matches(w, off + 9, EncodeRings(part.rings, le))
  {
    var typeBytes := EncodeWord32(part.typeCode, le);
    var countBytes := EncodeWord32(|part.rings|, le);
    var ringBytes := EncodeRings(part.rings, le);
    MatchesSplit(w, off, [part.orderByte] + typeBytes + countBytes, ringBytes);
    MatchesSplit(w, off, [part.orderByte] + typeBytes, countBytes);
    MatchesSplit(w, off, [part.orderByte], typeBytes);
    ReadWord32At(w, off + 1, part.typeCode, le);
    ReadWord32At(w, off + 5, |part.rings|, le);
  }

  /** Each of `parts` in turn reads back as its rings from where the one before it ended. */
  predicate PartsReadBack(w: seq<u8>, off: nat, parts: seq<Part>, le: bool)
    decreases parts
  {
    parts == []
    || (ParsePart(w, off, le) == Success(Parsed(parts[0].rings, off + 9 + RingsSize(parts[0].rings)))
        && PartsReadBack(w, off + 9 + RingsSize(parts[0].rings), parts[1..], le))
  }

  lemma {:induction false} PartsLayout(w: seq<u8>, off: nat, parts: seq<Part>, le: bool)
    requires PartsFit(parts) && Matches(w, off, EncodeParts(parts, le))
    ensures PartsReadBack(w, off, parts, le)
    decreases parts
  {
    if parts != [] {
      var next := off + 9 + RingsSize(parts[0].rings);
      FirstPartReads(w, off, parts, le);
      PartsLayout(w, next, parts[1..], le);
    }
  }

  lemma {:induction false} PartsReadBackParse(w: seq<u8>, off: nat, parts: seq<Part>, le: bool)
    requires PartsReadBack(w, off, parts, le)
    ensures ParseParts(w, off, |parts|, le) == Success(Parsed(AllRings(parts), off + PartsSize(parts)))
    decreases parts
  {
    if parts != [] {
      var mid := off + 9 + RingsSize(parts[0].rings);
      PartsReadBackParse(w, mid, parts[1..], le);
      ParsePartsCons(w, off, le, parts, mid, mid + PartsSize(parts[1..]));
    }
  }

  lemma {:induction false} PartsRoundTrip(w: seq<u8>, off: nat, parts: seq<Part>, le: bool)
    requires PartsFit(parts) && Matches(w, off, EncodeParts(parts, le))
    ensures ParseParts(w, off, |parts|, le) == Success(Parsed(AllRings(parts), off + PartsSize(parts)))
  {
    PartsLayout(w, off, parts, le);
    PartsReadBackParse(w, off, parts, le);
  }

  /** Reading a body that starts with `orderByte`, a type code and a count. */
  lemma {:induction false} BodyHeaderAt(wkb: seq<u8>, orderByte: u8, code: Word32, count: Word32, rest: seq<u8>)
    requires wkb == [orderByte] + EncodeWord32(code, IsLittleEndian(orderByte))
                    + EncodeWord32(count, IsLittleEndian(orderByte)) + rest
    ensures |wkb| >= 9 && wkb[0] == orderByte
    ensures WordAt(wkb, 1, 4, IsLittleEndian(orderByte)) == code
    ensures ReadWord32(wkb, 5, IsLittleEndian(orderByte)) == Success(count)
    ensures Matches(wkb, 9, rest) && wkb[9..] == rest
  {
    var le := IsLittleEndian(orderByte);
    var codeBytes, countBytes := EncodeWord32(code, le), EncodeWord32(count, le);
    assert Matches(wkb, 0, wkb);
    MatchesSplit(wkb, 0, [orderByte] + codeBytes + countBytes, rest);
    MatchesSplit(wkb, 0, [orderByte] + codeBytes, countBytes);
    MatchesSplit(wkb, 0, [orderByte], codeBytes);
    ReadWord32At(wkb, 1, code, le);
    ReadWord32At(wkb, 5, count, le);
    MatchesSlice(wkb, 9, rest);
  }

  /** A container with a well-formed header decodes to whatever its body decodes to. */
  lemma {:induction false} DecodeContainer(version: u8, flags: u8, srsId: seq<u8>, envelope: seq<u8>, body: seq<u8>)
    requires ValidHeader(flags, srsId, envelope)
    ensures Decode(Some(Container(version, flags, srsId, envelope, body)))
            == if |body| < 5 then Success([]) else DecodeBody(body)
  {
    var b := Container(version, flags, srsId, envelope, body);
    assert b[HeaderSize(flags)..] == body;
  }

  /** A Polygon body whose ring count and rings read successfully decodes to those rings. */
  lemma {:induction false} DecodePolygonBody(wkb: seq<u8>, rings: seq<Ring>)
    requires |wkb| >= 9 && WordAt(wkb, 1, 4, IsLittleEndian(wkb[0])) == PolygonCode
    requires ReadWord32(wkb, 5, IsLittleEndian(wkb[0])) == Success(|rings|)
    requires ParseRings(wkb, 9, |rings|, IsLittleEndian(wkb[0])).Success?
    requires ParseRings(wkb, 9, |rings|, IsLittleEndian(wkb[0])).value.value == rings
    ensures DecodeBody(wkb) == Success(rings)
  {
  }

  /** A Polygon body too short for its ring count, or for its rings, raises. */
  lemma {:induction false} DecodePolygonBodyFails(wkb: seq<u8>)
    requires |wkb| >= 5 && WordAt(wkb, 1, 4, IsLittleEndian(wkb[0])) == PolygonCode
    requires |wkb| < 9 || ParseRings(wkb, 9, ReadWord32(wkb, 5, IsLittleEndian(wkb[0])).value,
                                     IsLittleEndian(wkb[0])).Failure?
    ensures DecodeBody(wkb) == Failure(Truncated)
  {
  }

  /** A MultiPolygon body whose part count and parts read successfully decodes to their rings. */
  lemma {:induction false} DecodeMultiPolygonBody(wkb: seq<u8>, count: Word32, rings: seq<Ring>)
    requires |wkb| >= 9 && WordAt(wkb, 1, 4, IsLittleEndian(wkb[0])) == MultiPolygonCode
    requires ReadWord32(wkb, 5, IsLittleEndian(wkb[0])) == Success(count)
    requires ParseParts(wkb, 9, count, IsLittleEndian(wkb[0])).Success?
    requires ParseParts(wkb, 9, count, IsLittleEndian(wkb[0])).value.value == rings
    ensures DecodeBody(wkb) == Success(rings)
  {
  }

  lemma {:induction false} PolygonBodyReads(body: seq<u8>, orderByte: u8, le: bool, rings: seq<Ring>)
    requires |rings| < Word32Limit && CountsFit(rings)
    requires body == EncodePolygon(orderByte, rings) && le == IsLittleEndian(orderByte)
    ensures |body| >= 9 && body[0] == orderByte
    ensures WordAt(body, 1, 4, le) == PolygonCode
    ensures ReadWord32(body, 5, le) == Success(|rings|)
    ensures ParseRings(body, 9, |rings|, le) == Success(Parsed(rings, |body|))
  {
    BodyHeaderAt(body, orderByte, PolygonCode, |rings|, EncodeRings(rings, le));
    RingsRoundTrip(body, 9, rings, le);
  }

  lemma {:induction false} MultiPolygonBodyReads(body: seq<u8>, orderByte: u8, le: bool, parts: seq<Part>)
    requires |parts| < Word32Limit && PartsFit(parts)
    requires body == EncodeMultiPolygon(orderByte, parts) && le == IsLittleEndian(orderByte)
    ensures |body| >= 9 && body[0] == orderByte
    ensures WordAt(body, 1, 4, le) == MultiPolygonCode
    ensures ReadWord32(body, 5, le) == Success(|parts|)
    ensures ParseParts(body, 9, |parts|, le) == Success(Parsed(AllRings(parts), 9 + PartsSize(parts)))
  {
    BodyHeaderAt(body, orderByte, MultiPolygonCode, |parts|, EncodeParts(parts, le));
    PartsRoundTrip(body, 9, parts, le);
  }

  /**
   * Round trip: a Polygon written inside any well-formed header, in either byte order,
   * decodes to exactly the rings and points written, in order.
   */
  lemma {:induction false} PolygonRoundTrip(version: u8, flags: u8, srsId: seq<u8>, envelope: seq<u8>, orderByte: u8, rings: seq<Ring>)
    requires ValidHeader(flags, srsId, envelope)
    requires |rings| < Word32Limit && CountsFit(rings)
    ensures Decode(Some(Container(version, flags, srsId, envelope, EncodePolygon(orderByte, rings)))) == Success(rings)
  {
    var body := EncodePolygon(orderByte, rings);
    PolygonBodyReads(body, orderByte, IsLittleEndian(orderByte), rings);
    DecodePolygonBody(body, rings);
    DecodeContainer(version, flags, srsId, envelope, body);
  }

  /**
   * Round trip: a MultiPolygon decodes to the rings of all its sub-polygons in one flat
   * list, whatever byte-order bytes and type codes the sub-polygons carry.
   */
  lemma {:induction false} MultiPolygonRoundTrip(version: u8, flags: u8, srsId: seq<u8>, envelope: seq<u8>, orderByte: u8, parts: seq<Part>)
    requires ValidHeader(flags, srsId, envelope)
    requires |parts| < Word32Limit && PartsFit(parts)
    ensures Decode(Some(Container(version, flags, srsId, envelope, EncodeMultiPolygon(orderByte, parts))))
            == Success(AllRings(parts))
  {
    var body := EncodeMultiPolygon(orderByte, parts);
    MultiPolygonBodyReads(body, orderByte, IsLittleEndian(orderByte), parts);
    DecodeMultiPolygonBody(body, |parts|, AllRings(parts));
    DecodeContainer(version, flags, srsId, envelope, body);
  }

  /** The four bytes a successful read consumed are the encoding of the value read. */
  lemma {:induction false} ReadWord32Exact(w: seq<u8>, off: nat, le: bool)
    requires off + 4 <= |w|
    ensures ReadWord32(w, off, le).Success?
    ensures Matches(w, off, EncodeWord32(ReadWord32(w, off, le).value, le))
  {
    Pow256Widths();
    ToBytesWordAt(w, off, 4, le);
    SliceMatches(w, off, EncodeWord32(ReadWord32(w, off, le).value, le));
  }

  lemma {:induction false} ReadPointExact(w: seq<u8>, off: nat, le: bool)
    requires off + 16 <= |w|
    ensures Matches(w, off, EncodePoint(ReadPoint(w, off, le), le))
  {
    var p := ReadPoint(w, off, le);
    Pow256Widths();
    ToBytesWordAt(w, off, 8, le);
    ToBytesWordAt(w, off + 8, 8, le);
    SliceMatches(w, off, ToBytes(p.x, 8, le));
    SliceMatches(w, off + 8, ToBytes(p.y, 8, le));
    MatchesJoin(w, off, ToBytes(p.x, 8, le), ToBytes(p.y, 8, le));
  }

  lemma {:induction false} PointsExact(w: seq<u8>, off: nat, n: nat, le: bool)
    requires off <= |w| && ParsePoints(w, off, n, le).Success?
    ensures Matches(w, off, EncodePoints(ParsePoints(w, off, n, le).value.value, le))
    decreases n
  {
    if n > 0 {
      ParsePointsUncons(w, off, n, le);
      PointsExact(w, off + 16, n - 1, le);
      ReadPointExact(w, off, le);
      PointsExactCons(w, off, ReadPoint(w, off, le), ParsePoints(w, off + 16, n - 1, le).value.value, le);
    } else {
      assert ParsePoints(w, off, n, le).value.value == [];
    }
  }

  /** A successful read of n > 0 points is the point at `off`, then n - 1 more after it. */
  lemma {:induction false} ParsePointsUncons(w: seq<u8>, off: nat, n: nat, le: bool)
    requires n > 0 && ParsePoints(w, off, n, le).Success?
    ensures off + 16 <= |w| && ParsePoints(w, off + 16, n - 1, le).Success?
    ensures ParsePoints(w, off, n, le).value.value
            == [ReadPoint(w, off, le)] + ParsePoints(w, off + 16, n - 1, le).value.value
  {
  }

  /** Bytes matching one point and then a list of points match the longer list. */
  lemma {:induction false} PointsExactCons(w: seq<u8>, off: nat, p: Point, rest: seq<Point>, le: bool)
    requires Matches(w, off, EncodePoint(p, le)) && Matches(w, off + 16, EncodePoints(rest, le))
    ensures Matches(w, off, EncodePoints([p] + rest, le))
  {
    var ps := [p] + rest;
    assert ps[0] == p && ps[1..] == rest;
    MatchesJoin(w, off, EncodePoint(p, le), EncodePoints(rest, le));
  }


  lemma {:induction false} RingExact(w: seq<u8>, off: nat, le: bool)
    requires ParseRing(w, off, le).Success?
    ensures |ParseRing(w, off, le).value.value| < Word32Limit
    ensures Matches(w, off, EncodeRing(ParseRing(w, off, le).value.value, le))
  {
    var r := ParseRing(w, off, le).value;
    var count := ReadWord32(w, off, le).value;
    ReadWord32Exact(w, off, le);
    PointsExact(w, off + 4, count, le);
    MatchesJoin(w, off, EncodeWord32(count, le), EncodePoints(r.value, le));
  }

  /** Rings read from `w` fit the count field and end where their encoding would. */
  lemma {:induction false} RingsEnd(w: seq<u8>, off: nat, n: nat, le: bool)
    requires ParseRings(w, off, n, le).Success?
    ensures CountsFit(ParseRings(w, off, n, le).value.value)
    ensures ParseRings(w, off, n, le).value.next == off + RingsSize(ParseRings(w, off, n, le).value.value)
    decreases n
  {
    if n > 0 {
      var ring := ParseRing(w, off, le).value;
      ParseRingsUncons(w, off, n, le);
      RingsEnd(w, ring.next, n - 1, le);
      RingsSizeCons(ring.value, ParseRings(w, ring.next, n - 1, le).value.value);
    }
  }

  lemma {:induction false} RingsSizeCons(ring: Ring, rest: seq<Ring>)
    ensures RingsSize([ring] + rest) == 4 + 16 * |ring| + RingsSize(rest)
    ensures CountsFit([ring] + rest) <==> |ring| < Word32Limit && CountsFit(rest)
  {
    var rings := [ring] + rest;
    assert rings[0] == ring && rings[1..] == rest;
    if |ring| < Word32Limit && CountsFit(rest) {
      forall i | 0 <= i < |rings| ensures |rings[i]| < Word32Limit {
        if i > 0 { assert rings[i] == rest[i - 1]; }
      }
    }
  }

  lemma {:induction false} RingsExact(w: seq<u8>, off: nat, n: nat, le: bool)
    requires off <= |w| && ParseRings(w, off, n, le).Success?
    ensures CountsFit(ParseRings(w, off, n, le).value.value)
    ensures ParseRings(w, off, n, le).value.next == off + RingsSize(ParseRings(w, off, n, le).value.value)
    ensures Matches(w, off, EncodeRings(ParseRings(w, off, n, le).value.value, le))
    decreases n
  {
    RingsEnd(w, off, n, le);
    if n > 0 {
      var ring := ParseRing(w, off, le).value;
      var rest := ParseRings(w, ring.next, n - 1, le).value;
      ParseRingsUncons(w, off, n, le);
      RingExact(w, off, le);
      RingsExact(w, ring.next, n - 1, le);
      RingsExactCons(w, off, ring.value, rest.value, le);
    }
  }

  /** A successful read of n > 0 rings is its first ring, then n - 1 more read from where that one ended. */
  lemma {:induction false} ParseRingsUncons(w: seq<u8>, off: nat, n: nat, le: bool)
    requires n > 0 && ParseRings(w, off, n, le).Success?
    ensures ParseRing(w, off, le).Success?
    ensures ParseRings(w, ParseRing(w, off, le).value.next, n - 1, le).Success?
    ensures ParseRings(w, off, n, le).value
      == Parsed([ParseRing(w, off, le).value.value] + ParseRings(w, ParseRing(w, off, le).value.next, n - 1, le).value.value,
                ParseRings(w, ParseRing(w, off, le).value.next, n - 1, le).value.next)
  {
  }

  /** Bytes matching one ring and then a list of rings match the longer list. */
  lemma {:induction false} RingsExactCons(w: seq<u8>, off: nat, ring: Ring, rest: seq<Ring>, le: bool)
    requires |ring| < Word32Limit && Matches(w, off, EncodeRing(ring, le))
    requires CountsFit(rest) && Matches(w, off + 4 + 16 * |ring|, EncodeRings(rest, le))
    ensures CountsFit([ring] + rest) && RingsSize([ring] + rest) == 4 + 16 * |ring| + RingsSize(rest)
    ensures Matches(w, off, EncodeRings([ring] + rest, le))
  {
    var rings := [ring] + rest;
    assert rings[0] == ring && rings[1..] == rest;
    MatchesJoin(w, off, EncodeRing(ring, le), EncodeRings(rest, le));
  }

  /**
   * A Polygon body that decodes is, up to the bytes it consumed, exactly the encoding of
   * what it decoded to: as many rings as its ring count says, each with as many points
   * as its own count says, and 9 + the sum of 4 + 16 times each point count bytes read.
   */
  lemma {:induction false} DecodedPolygonIsEncoding(wkb: seq<u8>)
    requires |wkb| >= 5 && WordAt(wkb, 1, 4, IsLittleEndian(wkb[0])) == PolygonCode
    requires DecodeBody(wkb).Success?
    ensures |DecodeBody(wkb).value| < Word32Limit && CountsFit(DecodeBody(wkb).value)
    ensures 9 + RingsSize(DecodeBody(wkb).value) <= |wkb|
    ensures wkb[..9 + RingsSize(DecodeBody(wkb).value)] == EncodePolygon(wkb[0], DecodeBody(wkb).value)
  {
    var rings := PolygonBodyParsed(wkb);
    PolygonReadsExact(wkb, rings);
  }

  /** A ring count and that many rings read after a Polygon header are that header and those rings, written back. */
  lemma {:induction false} PolygonReadsExact(wkb: seq<u8>, rings: seq<Ring>)
    requires |wkb| >= 5 && WordAt(wkb, 1, 4, IsLittleEndian(wkb[0])) == PolygonCode
    requires ReadWord32(wkb, 5, IsLittleEndian(wkb[0])) == Success(|rings|)
    requires ParseRings(wkb, 9, |rings|, IsLittleEndian(wkb[0])).Success?
    requires ParseRings(wkb, 9, |rings|, IsLittleEndian(wkb[0])).value.value == rings
    ensures |rings| < Word32Limit && CountsFit(rings)
    ensures 9 + RingsSize(rings) <= |wkb| && wkb[..9 + RingsSize(rings)] == EncodePolygon(wkb[0], rings)
  {
    var le := IsLittleEndian(wkb[0]);
    var header := [wkb[0]] + EncodeWord32(PolygonCode, le) + EncodeWord32(|rings|, le);
    RingsExact(wkb, 9, |rings|, le);
    HeaderExact(wkb, 0, PolygonCode, |rings|, le);
    MatchesJoin(wkb, 0, header, EncodeRings(rings, le));
    MatchesPrefix(wkb, EncodePolygon(wkb[0], rings));
  }

  lemma {:induction false} MatchesPrefix(w: seq<u8>, e: seq<u8>)
    requires Matches(w, 0, e)
    ensures |e| <= |w| && w[..|e|] == e
  {
    MatchesSlice(w, 0, e);
    assert w[..|e|] == w[0..|e|];
  }

  /** Nine bytes holding a byte-order byte, a type code and a count are those three, written back. */
  lemma {:induction false} HeaderExact(w: seq<u8>, off: nat, code: Word32, count: Word32, le: bool)
    requires ReadWord32(w, off + 1, le) == Success(code) && ReadWord32(w, off + 5, le) == Success(count)
    ensures Matches(w, off, [w[off]] + EncodeWord32(code, le) + EncodeWord32(count, le))
  {
    ReadWord32Exact(w, off + 1, le);
    ReadWord32Exact(w, off + 5, le);
    assert w[off + 0] == ByteAt([w[off]], 0);
    MatchesJoin(w, off, [w[off]], EncodeWord32(code, le));
    MatchesJoin(w, off, [w[off]] + EncodeWord32(code, le), EncodeWord32(count, le));
  }

  /** The reads a successful Polygon decode made: a ring count, then that many rings. */
  lemma {:induction false} PolygonBodyParsed(wkb: seq<u8>) returns (rings: seq<Ring>)
    requires |wkb| >= 5 && WordAt(wkb, 1, 4, IsLittleEndian(wkb[0])) == PolygonCode
    requires DecodeBody(wkb).Success?
    ensures rings == DecodeBody(wkb).value
    ensures ReadWord32(wkb, 5, IsLittleEndian(wkb[0])) == Success(|rings|)
    ensures ParseRings(wkb, 9, |rings|, IsLittleEndian(wkb[0])).Success?
    ensures ParseRings(wkb, 9, |rings|, IsLittleEndian(wkb[0])).value.value == rings
  {
    rings := DecodeBody(wkb).value;
  }

  lemma {:induction false} RingsTruncated(w: seq<u8>, off: nat, rings: seq<Ring>, le: bool)
    requires CountsFit(rings) && rings != [] && CutShort(w, off, EncodeRings(rings, le))
    ensures ParseRings(w, off, |rings|, le).Failure?
    decreases rings
  {
    var mid := off + 4 + 16 * |rings[0]|;
    RingsCutShortSplit(w, off, rings, le);
    if |w| < mid {
      RingTruncated(w, off, rings[0], le);
      ParseRingsFirstFails(w, off, |rings|, le);
    } else {
      RingRoundTrip(w, off, rings[0], le);
      RingsTruncated(w, mid, rings[1..], le);
      ParseRingsLaterFails(w, off, |rings|, le);
    }
  }

  /** Bytes cutting short an encoding of rings cut short its first ring, or match it and cut short the rest. */
  lemma {:induction false} RingsCutShortSplit(w: seq<u8>, off: nat, rings: seq<Ring>, le: bool)
    requires CountsFit(rings) && rings != [] && CutShort(w, off, EncodeRings(rings, le))
    ensures |rings[0]| < Word32Limit && CountsFit(rings[1..])
    ensures |w| < off + 4 + 16 * |rings[0]| ==> CutShort(w, off, EncodeRing(rings[0], le))
    ensures off + 4 + 16 * |rings[0]| <= |w| ==>
      Matches(w, off, EncodeRing(rings[0], le)) && rings[1..] != []
      && CutShort(w, off + 4 + 16 * |rings[0]|, EncodeRings(rings[1..], le))
  {
    CutShortSplit(w, off, EncodeRing(rings[0], le), EncodeRings(rings[1..], le));
  }

  lemma {:induction false} ParseRingsFirstFails(w: seq<u8>, off: nat, n: nat, le: bool)
    requires n > 0 && ParseRing(w, off, le).Failure?
    ensures ParseRings(w, off, n, le).Failure?
  {
  }

  lemma {:induction false} ParseRingsLaterFails(w: seq<u8>, off: nat, n: nat, le: bool)
    requires n > 0 && ParseRing(w, off, le).Success?
    requires ParseRings(w, ParseRing(w, off, le).value.next, n - 1, le).Failure?
    ensures ParseRings(w, off, n, le).Failure?
  {
  }

  lemma {:induction false} RingTruncated(w: seq<u8>, off: nat, ring: Ring, le: bool)
    requires |ring| < Word32Limit && off <= |w| < off + 4 + 16 * |ring|
    requires CutShort(w, off, EncodeRing(ring, le))
    ensures ParseRing(w, off, le).Failure?
  {
    var countBytes := EncodeWord32(|ring|, le);
    CutShortSplit(w, off, countBytes, EncodePoints(ring, le));
    if off + 4 <= |w| {
      ReadWord32At(w, off, |ring|, le);
    }
  }

  /** A Polygon body cut short after its first five bytes fails to read. */
  lemma {:induction false} TruncatedPolygonBody(orderByte: u8, rings: seq<Ring>, k: nat)
    requires |rings| < Word32Limit && CountsFit(rings)
    requires 5 <= k < |EncodePolygon(orderByte, rings)|
    ensures var wkb := EncodePolygon(orderByte, rings)[..k];
      |wkb| >= 5 && WordAt(wkb, 1, 4, IsLittleEndian(wkb[0])) == PolygonCode
      && (|wkb| < 9 || ParseRings(wkb, 9, ReadWord32(wkb, 5, IsLittleEndian(wkb[0])).value,
                                  IsLittleEndian(wkb[0])).Failure?)
  {
    var le := IsLittleEndian(orderByte);
    var body := EncodePolygon(orderByte, rings);
    var wkb := body[..k];
    BodyHeaderAt(body, orderByte, PolygonCode, |rings|, EncodeRings(rings, le));
    WordAtPrefix(body, k, 1, 4, le);
    if k >= 9 {
      WordAtPrefix(body, k, 5, 4, le);
      assert wkb[9..] == EncodeRings(rings, le)[..k - 9];
      CutShortOfPrefix(wkb, 9, EncodeRings(rings, le));
      RingsTruncated(wkb, 9, rings, le);
    }
  }

  /**
   * A Polygon body cut short anywhere after its first five bytes raises (struct.error)
   * instead of returning some of its rings.
   */
  lemma {:induction false} TruncatedPolygonRaises(version: u8, flags: u8, srsId: seq<u8>, envelope: seq<u8>, orderByte: u8,
                               rings: seq<Ring>, k: nat)
    requires ValidHeader(flags, srsId, envelope)
    requires |rings| < Word32Limit && CountsFit(rings)
    requires 5 <= k < |EncodePolygon(orderByte, rings)|
    ensures Decode(Some(Container(version, flags, srsId, envelope, EncodePolygon(orderByte, rings)[..k])))
            == Failure(Truncated)
  {
    var wkb := EncodePolygon(orderByte, rings)[..k];
    TruncatedPolygonBody(orderByte, rings, k);
    DecodePolygonBodyFails(wkb);
    DecodeContainer(version, flags, srsId, envelope, wkb);
  }

  /** A MultiPolygon body too short for its part count, or for its parts, raises. */
  lemma {:induction false} DecodeMultiPolygonBodyFails(wkb: seq<u8>)
    requires |wkb| >= 5 && WordAt(wkb, 1, 4, IsLittleEndian(wkb[0])) == MultiPolygonCode
    requires |wkb| < 9 || ParseParts(wkb, 9, ReadWord32(wkb, 5, IsLittleEndian(wkb[0])).value,
                                     IsLittleEndian(wkb[0])).Failure?
    ensures DecodeBody(wkb) == Failure(Truncated)
  {
  }

  /** Bytes that end inside a sub-polygon's encoding fail to read it. */
  lemma {:induction false} PartTruncated(w: seq<u8>, off: nat, part: Part, le: bool)
    requires PartFits(part) && off <= |w| < off + 9 + RingsSize(part.rings)
    requires CutShort(w, off, EncodePart(part, le))
    ensures ParsePart(w, off, le).Failure?
  {
    if off + 9 <= |w| {
      var header := [part.orderByte] + EncodeWord32(part.typeCode, le) + EncodeWord32(|part.rings|, le);
      CutShortSplit(w, off, header, EncodeRings(part.rings, le));
      MatchesSplit(w, off, [part.orderByte] + EncodeWord32(part.typeCode, le), EncodeWord32(|part.rings|, le));
      ReadWord32At(w, off + 5, |part.rings|, le);
      RingsTruncated(w, off + 9, part.rings, le);
    }
  }

  /** Bytes cutting short an encoding of sub-polygons cut short the first one, or match it and cut short the rest. */
  lemma {:induction false} PartsCutShortSplit(w: seq<u8>, off: nat, parts: seq<Part>, le: bool)
    requires PartsFit(parts) && parts != [] && CutShort(w, off, EncodeParts(parts, le))
    ensures PartFits(parts[0]) && PartsFit(parts[1..])
    ensures |w| < off + 9 + RingsSize(parts[0].rings) ==> CutShort(w, off, EncodePart(parts[0], le))
    ensures off + 9 + RingsSize(parts[0].rings) <= |w| ==>
      Matches(w, off, EncodePart(parts[0], le)) && parts[1..] != []
      && CutShort(w, off + 9 + RingsSize(parts[0].rings), EncodeParts(parts[1..], le))
  {
    EncodePartsUncons(parts, le);
    CutShortSplit(w, off, EncodePart(parts[0], le), EncodeParts(parts[1..], le));
  }

  lemma {:induction false} ParsePartsFirstFails(w: seq<u8>, off: nat, n: nat, le: bool)
    requires n > 0 && ParsePart(w, off, le).Failure?
    ensures ParseParts(w, off, n, le).Failure?
  {
  }

  lemma {:induction false} ParsePartsLaterFails(w: seq<u8>, off: nat, n: nat, le: bool, rings: seq<Ring>, mid: nat, m: nat)
    requires n == m + 1 && ParsePart(w, off, le) == Success(Parsed(rings, mid))
    requires ParseParts(w, mid, m, le).Failure?
    ensures ParseParts(w, off, n, le).Failure?
  {
  }

  /** Any strict prefix of an encoding of sub-polygons fails to read as that many sub-polygons. */
  lemma {:induction false} PartsTruncated(w: seq<u8>, off: nat, parts: seq<Part>, le: bool)
    requires PartsFit(parts) && parts != [] && CutShort(w, off, EncodeParts(parts, le))
    ensures ParseParts(w, off, |parts|, le).Failure?
    decreases parts
  {
    var mid := off + 9 + RingsSize(parts[0].rings);
    PartsCutShortSplit(w, off, parts, le);
    if |w| < mid {
      PartTruncated(w, off, parts[0], le);
      ParsePartsFirstFails(w, off, |parts|, le);
    } else {
      var rest := parts[1..];
      PartRoundTrip(w, off, parts[0], le);
      PartsTruncated(w, mid, rest, le);
      ParsePartsLaterFails(w, off, |parts|, le, parts[0].rings, mid, |rest|);
    }
  }

  /** A MultiPolygon body cut short after its first five bytes fails to read. */
  lemma {:induction false} TruncatedMultiPolygonBody(orderByte: u8, parts: seq<Part>, k: nat)
    requires |parts| < Word32Limit && PartsFit(parts)
    requires 5 <= k < |EncodeMultiPolygon(orderByte, parts)|
    ensures var wkb := EncodeMultiPolygon(orderByte, parts)[..k];
      |wkb| >= 5 && WordAt(wkb, 1, 4, IsLittleEndian(wkb[0])) == MultiPolygonCode
      && (|wkb| < 9 || ParseParts(wkb, 9, ReadWord32(wkb, 5, IsLittleEndian(wkb[0])).value,
                                  IsLittleEndian(wkb[0])).Failure?)
  {
    var le := IsLittleEndian(orderByte);
    var body := EncodeMultiPolygon(orderByte, parts);
    var wkb := body[..k];
    BodyHeaderAt(body, orderByte, MultiPolygonCode, |parts|, EncodeParts(parts, le));
    WordAtPrefix(body, k, 1, 4, le);
    if k >= 9 {
      WordAtPrefix(body, k, 5, 4, le);
      assert wkb[9..] == EncodeParts(parts, le)[..k - 9];
      CutShortOfPrefix(wkb, 9, EncodeParts(parts, le));
      PartsTruncated(wkb, 9, parts, le);
    }
  }

  /**
   * A MultiPolygon body cut short anywhere after its first five bytes raises (struct.error)
   * instead of returning the rings of the sub-polygons read so far.
   */
  lemma {:induction false} TruncatedMultiPolygonRaises(version: u8, flags: u8, srsId: seq<u8>, envelope: seq<u8>,
                                                       orderByte: u8, parts: seq<Part>, k: nat)
    requires ValidHeader(flags, srsId, envelope)
    requires |parts| < Word32Limit && PartsFit(parts)
    requires 5 <= k < |EncodeMultiPolygon(orderByte, parts)|
    ensures Decode(Some(Container(version, flags, srsId, envelope, EncodeMultiPolygon(orderByte, parts)[..k])))
            == Failure(Truncated)
  {
    var wkb := EncodeMultiPolygon(orderByte, parts)[..k];
    TruncatedMultiPolygonBody(orderByte, parts, k);
    DecodeMultiPolygonBodyFails(wkb);
    DecodeContainer(version, flags, srsId, envelope, wkb);
  }

  /** A successful read of n > 0 sub-polygons is the first one's rings, then n - 1 more read from where it ended. */
  lemma {:induction false} ParsePartsUncons(w: seq<u8>, off: nat, n: nat, le: bool)
    requires n > 0 && ParseParts(w, off, n, le).Success?
    ensures ParsePart(w, off, le).Success?
    ensures ParseParts(w, ParsePart(w, off, le).value.next, n - 1, le).Success?
    ensures ParseParts(w, off, n, le).value
      == Parsed(ParsePart(w, off, le).value.value + ParseParts(w, ParsePart(w, off, le).value.next, n - 1, le).value.value,
                ParseParts(w, ParsePart(w, off, le).value.next, n - 1, le).value.next)
  {
  }

  /** A sub-polygon that reads is, up to where it ends, the encoding of a part holding what was read. */
  lemma {:induction false} PartExact(w: seq<u8>, off: nat, le: bool) returns (part: Part)
    requires ParsePart(w, off, le).Success?
    ensures PartFits(part) && part.rings == ParsePart(w, off, le).value.value
    ensures ParsePart(w, off, le).value.next == off + 9 + RingsSize(part.rings)
    ensures Matches(w, off, EncodePart(part, le))
  {
    var code := ReadWord32(w, off + 1, le).value;
    var count := ReadWord32(w, off + 5, le).value;
    RingsExact(w, off + 9, count, le);
    part := Part(w[off], code, ParseRings(w, off + 9, count, le).value.value);
    HeaderExact(w, off, code, count, le);
    MatchesJoin(w, off, [w[off]] + EncodeWord32(code, le) + EncodeWord32(count, le), EncodeRings(part.rings, le));
  }

  /** Bytes matching one part and then a list of parts match the longer list. */
  lemma {:induction false} PartsExactCons(w: seq<u8>, off: nat, first: Part, rest: seq<Part>, le: bool)
    requires PartFits(first) && Matches(w, off, EncodePart(first, le))
    requires PartsFit(rest) && Matches(w, off + 9 + RingsSize(first.rings), EncodeParts(rest, le))
    ensures PartsFit([first] + rest)
    ensures AllRings([first] + rest) == first.rings + AllRings(rest)
    ensures PartsSize([first] + rest) == 9 + RingsSize(first.rings) + PartsSize(rest)
    ensures Matches(w, off, EncodeParts([first] + rest, le))
  {
    var parts := [first] + rest;
    assert parts[0] == first && parts[1..] == rest;
    forall i | 0 <= i < |parts| ensures PartFits(parts[i]) {
      if i > 0 { assert parts[i] == rest[i - 1]; }
    }
    MatchesJoin(w, off, EncodePart(first, le), EncodeParts(rest, le));
  }

  /** Sub-polygons that read are, up to where they end, the encoding of parts holding what was read. */
  lemma {:induction false} PartsExact(w: seq<u8>, off: nat, n: nat, le: bool) returns (parts: seq<Part>)
    requires off <= |w| && ParseParts(w, off, n, le).Success?
    ensures |parts| == n && PartsFit(parts)
    ensures AllRings(parts) == ParseParts(w, off, n, le).value.value
    ensures ParseParts(w, off, n, le).value.next == off + PartsSize(parts)
    ensures Matches(w, off, EncodeParts(parts, le))
    decreases n
  {
    if n == 0 {
      parts := [];
    } else {
      ParsePartsUncons(w, off, n, le);
      var first := PartExact(w, off, le);
      var rest := PartsExact(w, ParsePart(w, off, le).value.next, n - 1, le);
      parts := [first] + rest;
      PartsExactCons(w, off, first, rest, le);
    }
  }

  /** Holds when `parts`, written as a MultiPolygon body, are exactly the first bytes of `wkb`, and give `rings`. */
  predicate MultiPolygonPrefix(wkb: seq<u8>, parts: seq<Part>, rings: seq<Ring>)
    requires |wkb| >= 1
  {
    |parts| < Word32Limit && PartsFit(parts) && AllRings(parts) == rings
    && 9 + PartsSize(parts) <= |wkb| && wkb[..9 + PartsSize(parts)] == EncodeMultiPolygon(wkb[0], parts)
  }

  /**
   * A MultiPolygon body that decodes is, up to the bytes it consumed, the encoding of
   * sub-polygons whose rings, one after the other, are what it decoded to.
   */
  lemma {:induction false} DecodedMultiPolygonIsEncoding(wkb: seq<u8>)
    requires |wkb| >= 5 && WordAt(wkb, 1, 4, IsLittleEndian(wkb[0])) == MultiPolygonCode
    requires DecodeBody(wkb).Success?
    ensures exists parts :: MultiPolygonPrefix(wkb, parts, DecodeBody(wkb).value)
  {
    var le := IsLittleEndian(wkb[0]);
    var count := ReadWord32(wkb, 5, le).value;
    var parts := MultiPolygonReadsExact(wkb, count);
    assert MultiPolygonPrefix(wkb, parts, DecodeBody(wkb).value);
  }

  /** A part count and that many parts read after a MultiPolygon header are that header and some parts, written back. */
  lemma {:induction false} MultiPolygonReadsExact(wkb: seq<u8>, count: Word32) returns (parts: seq<Part>)
    requires |wkb| >= 5 && WordAt(wkb, 1, 4, IsLittleEndian(wkb[0])) == MultiPolygonCode
    requires ReadWord32(wkb, 5, IsLittleEndian(wkb[0])) == Success(count)
    requires ParseParts(wkb, 9, count, IsLittleEndian(wkb[0])).Success?
    ensures MultiPolygonPrefix(wkb, parts, ParseParts(wkb, 9, count, IsLittleEndian(wkb[0])).value.value)
  {
    parts := PartsExact(wkb, 9, count, IsLittleEndian(wkb[0]));
    assert ReadWord32(wkb, 1, IsLittleEndian(wkb[0])) == Success(MultiPolygonCode);
    MultiPolygonLayout(wkb, parts);
  }

  /** A MultiPolygon header whose count is the number of parts, followed by those parts, is their encoding. */
  lemma {:induction false} MultiPolygonLayout(wkb: seq<u8>, parts: seq<Part>)
    requires |wkb| >= 1 && PartsFit(parts)
    requires ReadWord32(wkb, 1, IsLittleEndian(wkb[0])) == Success(MultiPolygonCode)
    requires ReadWord32(wkb, 5, IsLittleEndian(wkb[0])) == Success(|parts|)
    requires Matches(wkb, 9, EncodeParts(parts, IsLittleEndian(wkb[0])))
    ensures |parts| < Word32Limit
    ensures 9 + PartsSize(parts) <= |wkb| && wkb[..9 + PartsSize(parts)] == EncodeMultiPolygon(wkb[0], parts)
  {
    var le := IsLittleEndian(wkb[0]);
    var header := [wkb[0]] + EncodeWord32(MultiPolygonCode, le) + EncodeWord32(|parts|, le);
    HeaderExact(wkb, 0, MultiPolygonCode, |parts|, le);
    MatchesJoin(wkb, 0, header, EncodeParts(parts, le));
    MatchesPrefix(wkb, EncodeMultiPolygon(wkb[0], parts));
  }

  /** The envelope and the other header bytes after the flags never change what is decoded. */
  lemma {:induction false} EnvelopeContentsIgnored(b1: seq<u8>, b2: seq<u8>)
    requires HasMagic(b1) && HasMagic(b2) && |b1| >= 4 && |b2| >= 4 && b1[3] == b2[3]
    requires EnvelopeIndicator(b1[3]) < |EnvelopeSizes|
    requires HeaderSize(b1[3]) <= |b1| && HeaderSize(b1[3]) <= |b2|
    requires b1[HeaderSize(b1[3])..] == b2[HeaderSize(b1[3])..]
    ensures Decode(Some(b1)) == Decode(Some(b2))
  {
  }
}
