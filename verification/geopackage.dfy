/**
 * The GeoPackageBinary geometry format as `decode_gpkg_geom` reads it: the container
 * header of section 2.1.3 of the OGC GeoPackage Encoding Standard, then a Well-Known
 * Binary body (section 8.2 of OGC Simple Feature Access Part 1, 06-103r4) holding a
 * Polygon or a MultiPolygon. This module is the specification: `Decode` says what the
 * decoder returns for every blob, the `Encode` functions write the format, and the
 * lemmas relate the two.
 */
module GeoPackage {
  import opened Wrappers
  import opened Bytes

  /** One (x, y) vertex; each coordinate is the 64-bit pattern of a double. */
  datatype Point = Point(x: Word64, y: Word64)

  type Ring = seq<Point>

  /** What the original raises where this model returns `Failure`. */
  datatype DecodeError =
    | FlagsMissing                        // a "GP" blob with no byte 3: IndexError
    | BadEnvelopeIndicator(indicator: nat) // indicator 5..7 indexes past the size table: IndexError
    | Truncated                            // a struct.unpack read ran past the end: struct.error

  /** A decoded value with the offset just past the bytes it was read from. */
  datatype Parsed<T> = Parsed(value: T, next: nat)

  const Magic: seq<u8> := [0x47, 0x50]  // "GP"
  const EnvelopeSizes: seq<nat> := [0, 32, 48, 48, 64]
  const PreambleSize: nat := 8
  const PolygonCode: nat := 3
  const MultiPolygonCode: nat := 6
  const PointSize: nat := 16

  predicate HasMagic(b: seq<u8>) {
    |b| >= 2 && b[..2] == Magic
  }

  /** Bits 1-3 of the flags byte: which envelope, if any, follows the preamble. */
  function EnvelopeIndicator(flags: u8): (r: nat)
    ensures r < 8
  {
    (flags as nat / 2) % 8
  }

  /** Length of the whole container header, preamble plus envelope. */
  function HeaderSize(flags: u8): (r: nat)
    requires EnvelopeIndicator(flags) < |EnvelopeSizes|
    ensures r in {8, 40, 56, 72}
    ensures EnvelopeIndicator(flags) == 0 <==> r == PreambleSize
  {
    PreambleSize + EnvelopeSizes[EnvelopeIndicator(flags)]
  }

  /** A byte-order byte of 1 means little-endian; every other value big-endian. */
  predicate IsLittleEndian(orderByte: u8) {
    orderByte == 1
  }

  /** `struct.unpack(order + 'I', w[off:off+4])`: fails unless all four bytes are there. */
  function ReadWord32(w: seq<u8>, off: nat, le: bool): (r: Result<Word32, DecodeError>)
    ensures r.Success? <==> off + 4 <= |w|
    ensures r.Failure? ==> r.error == Truncated
    ensures r.Success? ==> r.value < Pow256(4)
  {
    if off + 4 <= |w| then
      Pow256Widths();
      Success(WordAt(w, off, 4, le))
    else
      Failure(Truncated)
  }

  /** `struct.unpack(order + 'dd', w[off:off+16])`, reading the two words as bit patterns. */
  function ReadPoint(w: seq<u8>, off: nat, le: bool): (p: Point)
    requires off + 16 <= |w|
    ensures p.x < Pow256(8) && p.y < Pow256(8)
  {
    Pow256Widths();
    Point(WordAt(w, off, 8, le), WordAt(w, off + 8, 8, le))
  }

  /** n consecutive point records starting at `off`. */
  function ParsePoints(w: seq<u8>, off: nat, n: nat, le: bool): (r: Result<Parsed<seq<Point>>, DecodeError>)
    ensures r.Success? <==> n == 0 || off + 16 * n <= |w|
    ensures r.Success? ==> |r.value.value| == n && r.value.next == off + 16 * n
    ensures r.Failure? ==> r.error == Truncated
    decreases n
  {
    if n == 0 then
      Success(Parsed([], off))
    else if off + 16 > |w| then
      Failure(Truncated)
    else
      match ParsePoints(w, off + 16, n - 1, le)
      case Failure(e) => Failure(e)
      case Success(rest) => Success(Parsed([ReadPoint(w, off, le)] + rest.value, rest.next))
  }

  /** One ring: a point count, then that many points. */
  function ParseRing(w: seq<u8>, off: nat, le: bool): (r: Result<Parsed<Ring>, DecodeError>)
    ensures r.Success? ==> |r.value.value| < Word32Limit && r.value.next == off + 4 + 16 * |r.value.value|
    ensures r.Failure? ==> r.error == Truncated
  {
    match ReadWord32(w, off, le)
    case Failure(e) => Failure(e)
    case Success(count) => ParsePoints(w, off + 4, count, le)
  }

  /** n consecutive rings starting at `off`, in encoding order. */
  function ParseRings(w: seq<u8>, off: nat, n: nat, le: bool): (r: Result<Parsed<seq<Ring>>, DecodeError>)
    ensures r.Success? ==> |r.value.value| == n && off <= r.value.next
    ensures r.Failure? ==> r.error == Truncated
    decreases n
  {
    if n == 0 then
      Success(Parsed([], off))
    else
      match ParseRing(w, off, le)
      case Failure(e) => Failure(e)
      case Success(ring) =>
        match ParseRings(w, ring.next, n - 1, le)
        case Failure(e) => Failure(e)
        case Success(rest) => Success(Parsed([ring.value] + rest.value, rest.next))
  }

  /**
   * One sub-polygon of a MultiPolygon: its byte-order byte is skipped, its type code is
   * read but never looked at, then come a ring count and that many rings.
   */
  function ParsePart(w: seq<u8>, off: nat, le: bool): (r: Result<Parsed<seq<Ring>>, DecodeError>)
    ensures r.Success? ==> off + 9 <= r.value.next
    ensures r.Failure? ==> r.error == Truncated
  {
    match ReadWord32(w, off + 1, le)
    case Failure(e) => Failure(e)
    case Success(_) =>
      match ReadWord32(w, off + 5, le)
      case Failure(e) => Failure(e)
      case Success(numRings) => ParseRings(w, off + 9, numRings, le)
  }

  /** n consecutive sub-polygons starting at `off`, their rings appended to one flat list. */
  function ParseParts(w: seq<u8>, off: nat, n: nat, le: bool): (r: Result<Parsed<seq<Ring>>, DecodeError>)
    ensures r.Success? ==> off <= r.value.next
    ensures r.Failure? ==> r.error == Truncated
    decreases n
  {
    if n == 0 then
      Success(Parsed([], off))
    else
      match ParsePart(w, off, le)
      case Failure(e) => Failure(e)
      case Success(part) =>
        match ParseParts(w, part.next, n - 1, le)
        case Failure(e) => Failure(e)
        case Success(rest) => Success(Parsed(part.value + rest.value, rest.next))
  }

  /** The WKB type code in bytes 1-4, read in the byte order that byte 0 selects. */
  function GeometryType(wkb: seq<u8>): nat
    requires |wkb| >= 5
  {
    WordAt(wkb, 1, 4, IsLittleEndian(wkb[0]))
  }

  /** A WKB body of at least five bytes: byte order, type code, then a Polygon or MultiPolygon. */
  function DecodeBody(wkb: seq<u8>): (r: Result<seq<Ring>, DecodeError>)
    requires |wkb| >= 5
    ensures r.Failure? ==> r.error == Truncated
    ensures GeometryType(wkb) != PolygonCode && GeometryType(wkb) != MultiPolygonCode ==> r == Success([])
  {
    var le := IsLittleEndian(wkb[0]);
    var geomType := GeometryType(wkb);
    if geomType == PolygonCode then
      match ReadWord32(wkb, 5, le)
      case Failure(e) => Failure(e)
      case Success(numRings) =>
        match ParseRings(wkb, 9, numRings, le)
        case Failure(e) => Failure(e)
        case Success(rings) => Success(rings.value)
    else if geomType == MultiPolygonCode then
      match ReadWord32(wkb, 5, le)
      case Failure(e) => Failure(e)
      case Success(numPolys) =>
        match ParseParts(wkb, 9, numPolys, le)
        case Failure(e) => Failure(e)
        case Success(parts) => Success(parts.value)
    else
      Success([])
  }

  /** What `decode_gpkg_geom` returns (or raises) for a blob, `None` included. */
  function Decode(blob: Option<seq<u8>>): (r: Result<seq<Ring>, DecodeError>)
    ensures blob.None? ==> r == Success([])
    ensures blob.Some? && !HasMagic(blob.value) ==> r == Success([])
    ensures blob.Some? && HasMagic(blob.value) && |blob.value| < 4 ==> r == Failure(FlagsMissing)
    ensures blob.Some? && HasMagic(blob.value) && |blob.value| >= 4 && EnvelopeIndicator(blob.value[3]) >= 5
            ==> r == Failure(BadEnvelopeIndicator(EnvelopeIndicator(blob.value[3])))
    ensures (blob.Some? && HasMagic(blob.value) && |blob.value| >= 4 && EnvelopeIndicator(blob.value[3]) < 5
             && |blob.value| < HeaderSize(blob.value[3]) + 5) ==> r == Success([])
    ensures (blob.Some? && HasMagic(blob.value) && |blob.value| >= 4 && EnvelopeIndicator(blob.value[3]) < 5
             && |blob.value| >= HeaderSize(blob.value[3]) + 5
             && GeometryType(blob.value[HeaderSize(blob.value[3])..]) != PolygonCode
             && GeometryType(blob.value[HeaderSize(blob.value[3])..]) != MultiPolygonCode) ==> r == Success([])
    ensures (blob.Some? && HasMagic(blob.value) && |blob.value| >= 4 && EnvelopeIndicator(blob.value[3]) < 5
             && r.Failure?) ==> r.error == Truncated
  {
    if blob.None? then Success([])
    else
      var b := blob.value;
      if !HasMagic(b) then Success([])
      else if |b| < 4 then Failure(FlagsMissing)
      else
        var indicator := EnvelopeIndicator(b[3]);
        if indicator >= |EnvelopeSizes| then Failure(BadEnvelopeIndicator(indicator))
        else
          var headerSize := HeaderSize(b[3]);
          var wkb := if headerSize <= |b| then b[headerSize..] else [];
          if |wkb| < 5 then Success([]) else DecodeBody(wkb)
  }
}
