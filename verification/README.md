# Greater Manchester area polygons and borough outlines, modelled in Dafny

This project models the geometry pipeline behind the maps of the study. It has two stages.

- **Polygon extraction.** `extract_polygons` reads every 2021 MSOA area's boundary from a
  GeoPackage. `decode_gpkg_geom` decodes each GeoPackageBinary blob: the container header
  of the OGC GeoPackage Encoding Standard, section 2.1.3, then a Well-Known Binary Polygon
  or MultiPolygon (OGC Simple Feature Access, Part 1, section 8.2). It returns a list of
  rings. The area loop then flattens the rings of every Greater Manchester area into a
  polygon table. The table has one row per vertex, tagged with the area code, the ring id
  `"{code}_{k}"`, the vertex's position `order`, the area's eligibility and its borough.
- **Borough outlines.** `extract_borough_outlines` reads that table back. Each borough's
  rings are rebuilt by grouping its rows by ring id and sorting them by `order`. The key of
  every edge is its two endpoints, smaller first, counted in an insertion-ordered dictionary.
  The keys counted exactly once become the borough's outline segments: an edge that two
  areas share is dropped.

The model has these parts:

- **Specification functions.** `GeoPackage.Decode`, `Polygons.PolyData` and
  `BoroughOutlines.AllOutlines` say what each stage produces for every input. This includes
  the cases where the Python code raises: a `Result` failure stands for the exception.
- **Imperative methods.** `DecodeGpkgGeom`, `ExtractPolygons` and `ExtractBoroughOutlines`
  follow the source's loops, offsets and appends. Each is proved to return exactly what its
  specification function says.
- **Lemmas.** They state what the stages promise:
  - decoding and encoding round-trip;
  - a truncated body raises;
  - ring ids are unique;
  - the outline stage rebuilds exactly the rings that were decoded;
  - the outline holds exactly the segments counted once, with no repeats and in
    first-appearance order;
  - two adjacent squares lose their shared edge.

Modules, one file each:

- `wrappers.dfy`: `Option` and `Result`.
- `bytes.dfy`: bytes, unsigned words in either byte order, and byte-pattern predicates.
- `geopackage.dfy`: the blob format and what the decoder returns for every blob.
- `geopackage_encoding.dfy`: writing the format, with round-trip and truncation lemmas.
- `geopackage_decoder.dfy`: the decoder's loops.
- `decimal.dfy`: `str(k)` for ring indices.
- `polygons.dfy`: the area loop and the flattening.
- `outlines.dfy`: edge keys, counting and the outline segments.
- `borough_outlines.dfy`: the outline run, plus the lemmas that tie the two stages
  together.

## Model

| member | source | states |
|---|---|---|
| Bytes.WordAt | src/Figure_Generation/extract_polygons.py:23 | the value read is below 256^n: an unsigned n-byte integer, least-significant byte first in `<` order and most-significant first in `>` order |
| Bytes.WordAtToBytes | src/Figure_Generation/extract_polygons.py:22-23 | reading back the bytes of a value written in either byte order gives that value |
| Bytes.ToBytesWordAt | src/Figure_Generation/extract_polygons.py:22-23 | writing back a value read in either byte order gives exactly the bytes it was read from, so the read loses nothing |
| Bytes.BigEndianIsReversedLittleEndian | src/Figure_Generation/extract_polygons.py:22 | a big-endian read of some bytes is a little-endian read of the same bytes reversed |
| GeoPackage.EnvelopeIndicator | src/Figure_Generation/extract_polygons.py:15-16 | the envelope indicator taken from bits 1-3 of the flags byte is below 8 |
| GeoPackage.HeaderSize | src/Figure_Generation/extract_polygons.py:17-18 | the header is 8, 40, 56 or 72 bytes long, and it is just the 8-byte preamble exactly when the indicator is 0 |
| GeoPackage.IsLittleEndian | src/Figure_Generation/extract_polygons.py:22 | a byte-order byte of 1 selects little-endian order and every other value big-endian |
| GeoPackage.ReadWord32 | src/Figure_Generation/extract_polygons.py:23 | a 4-byte read succeeds exactly when all four bytes are there, fails only as a truncated read, and yields a value below 2^32 |
| GeoPackage.ParsePoints | src/Figure_Generation/extract_polygons.py:32-35 | reading n points succeeds exactly when 16*n bytes are left; it then yields n points and ends 16*n bytes further on; any failure is a truncated read |
| GeoPackage.ParseRing | src/Figure_Generation/extract_polygons.py:29-36 | a ring read yields fewer than 2^32 points and ends 4 + 16 bytes per point after its start; any failure is a truncated read |
| GeoPackage.ParseRings | src/Figure_Generation/extract_polygons.py:28-36 | reading n rings yields exactly n rings and never moves backwards; any failure is a truncated read |
| GeoPackage.ParsePart | src/Figure_Generation/extract_polygons.py:41-52 | a MultiPolygon part reads at least its 9-byte sub-header; any failure is a truncated read |
| GeoPackage.ParseParts | src/Figure_Generation/extract_polygons.py:40-52 | reading the parts never moves backwards; any failure is a truncated read |
| GeoPackage.DecodeBody | src/Figure_Generation/extract_polygons.py:21-53 | the only error a WKB body of at least 5 bytes can raise is a truncated read, and a type code other than 3 or 6 gives [] |
| GeoPackage.Decode | src/Figure_Generation/extract_polygons.py:11-53 | None, a blob not starting with "GP", and a WKB body under 5 bytes all give []; a "GP" blob without byte 3 raises; indicators 5-7 raise; a type code other than 3 or 6 gives []; after the indicator is accepted, the only error left is a truncated read |
| GeoPackageDecoder.ReadRing | src/Figure_Generation/extract_polygons.py:29-36 | the point loop of one ring returns exactly the ring the format specifies at that offset, or the same error |
| GeoPackageDecoder.ReadRings | src/Figure_Generation/extract_polygons.py:26-36 | the ring loop returns exactly the rings the format specifies, or the same error |
| GeoPackageDecoder.ReadParts | src/Figure_Generation/extract_polygons.py:38-52 | the sub-polygon loop returns the rings of all parts in one flat list exactly as the format specifies, or the same error |
| GeoPackageDecoder.DecodeGpkgGeom | src/Figure_Generation/extract_polygons.py:11-53 | the decoder returns, or raises, exactly what the format specification says for every blob |
| GeoPackageEncoding.Container | src/Figure_Generation/extract_polygons.py:13-19 | a written container starts with "GP", carries its flags byte at position 3 and holds the body right after the header its flags announce |
| GeoPackageEncoding.PointsRoundTrip | src/Figure_Generation/extract_polygons.py:32-35 | points written in either byte order read back as the same points, ending right after them |
| GeoPackageEncoding.RingRoundTrip | src/Figure_Generation/extract_polygons.py:29-36 | a written ring reads back as the same ring |
| GeoPackageEncoding.RingsRoundTrip | src/Figure_Generation/extract_polygons.py:28-36 | written rings read back as the same rings, in order |
| GeoPackageEncoding.PartRoundTrip | src/Figure_Generation/extract_polygons.py:41-52 | a written part reads back as its rings, whatever its own byte-order byte and type code are |
| GeoPackageEncoding.PartsRoundTrip | src/Figure_Generation/extract_polygons.py:40-52 | written parts read back as the concatenation of their rings |
| GeoPackageEncoding.DecodeContainer | src/Figure_Generation/extract_polygons.py:12-20 | a container with a well-formed header decodes to what its body decodes to, or to [] when the body is under 5 bytes |
| GeoPackageEncoding.PolygonRoundTrip | src/Figure_Generation/extract_polygons.py:11-36 | a Polygon written inside any well-formed header, in either byte order, decodes to exactly the rings written |
| GeoPackageEncoding.MultiPolygonRoundTrip | src/Figure_Generation/extract_polygons.py:37-53 | a MultiPolygon decodes to the rings of all its parts in one flat list |
| GeoPackageEncoding.PointsExact | src/Figure_Generation/extract_polygons.py:32-35 | the points read are exactly the encoding of the bytes read, so decoding loses nothing |
| GeoPackageEncoding.RingExact | src/Figure_Generation/extract_polygons.py:29-36 | a ring that reads is exactly the encoding of the bytes it was read from |
| GeoPackageEncoding.RingsExact | src/Figure_Generation/extract_polygons.py:28-36 | rings that read are exactly the encoding of the bytes they were read from, and they end where that encoding ends |
| GeoPackageEncoding.DecodedPolygonIsEncoding | src/Figure_Generation/extract_polygons.py:25-36 | a Polygon body that decodes, up to the bytes it consumed, is exactly the encoding of the rings it decoded to |
| GeoPackageEncoding.ReadWord32Exact | src/Figure_Generation/extract_polygons.py:23 | the four bytes a successful read consumed are exactly the encoding of the value read, in the same byte order |
| GeoPackageEncoding.ReadPointExact | src/Figure_Generation/extract_polygons.py:33 | the sixteen bytes a point read consumed are exactly the encoding of the point read |
| GeoPackageEncoding.PartsExact | src/Figure_Generation/extract_polygons.py:40-52 | parts that read are exactly the encoding of some sub-polygons whose rings, one after the other, are what was read |
| GeoPackageEncoding.DecodedMultiPolygonIsEncoding | src/Figure_Generation/extract_polygons.py:37-52 | a MultiPolygon body that decodes, up to the bytes it consumed, is exactly the encoding of sub-polygons whose rings, one after the other, are what it decoded to |
| GeoPackageEncoding.RingsTruncated | src/Figure_Generation/extract_polygons.py:28-36 | rings cut short anywhere fail to read |
| GeoPackageEncoding.TruncatedPolygonRaises | src/Figure_Generation/extract_polygons.py:26-36 | a Polygon body cut anywhere after its first 5 bytes raises instead of returning some of its rings |
| GeoPackageEncoding.PartsTruncated | src/Figure_Generation/extract_polygons.py:40-52 | sub-polygons cut short anywhere fail to read |
| GeoPackageEncoding.TruncatedMultiPolygonRaises | src/Figure_Generation/extract_polygons.py:37-52 | a MultiPolygon body cut anywhere after its first 5 bytes raises instead of returning some of its rings |
| GeoPackageEncoding.EnvelopeContentsIgnored | src/Figure_Generation/extract_polygons.py:15-19 | the envelope bytes and the other header bytes after the flags never change the result |
| Decimal.NatToString | src/Figure_Generation/extract_polygons.py:84 | `str(k)` of a ring index has at least one digit, only digits, and no leading zero unless k is 0 |
| Decimal.StringToNatToString | src/Figure_Generation/extract_polygons.py:84 | `int(str(k)) == k` |
| Decimal.NatToStringInjective | src/Figure_Generation/extract_polygons.py:84 | distinct ring indices are written as distinct strings, and equal ones as equal strings |
| Polygons.RingId | src/Figure_Generation/extract_polygons.py:84 | the ring id is the area code, then an underscore that is its last one, then decimal digits that read back as the ring index |
| Polygons.RingRows | src/Figure_Generation/extract_polygons.py:81-90 | one row per vertex of the ring; every row carries the area code, the ring id, the eligibility and the borough, and holds the coordinates of the vertex its order names |
| Polygons.AreaRows | src/Figure_Generation/extract_polygons.py:80-90 | flattening writes exactly one row per vertex of every ring |
| Polygons.PolyData | src/Figure_Generation/extract_polygons.py:73-90 | the table is produced only when every blob of an area in the lookup decodes; an error is the error of one of those blobs |
| Polygons.AppendAreaRows | src/Figure_Generation/extract_polygons.py:80-90 | the nested loops append exactly the rows of the area's flattening to the table built so far |
| Polygons.AppendRingRows | src/Figure_Generation/extract_polygons.py:81-90 | the vertex loop appends exactly the rows of one ring, in ring order, to the table built so far |
| Polygons.ExtractPolygons | src/Figure_Generation/extract_polygons.py:73-91 | the area loop yields exactly the specified table: areas outside the lookup are skipped, and the first blob that raises stops the run with its error |
| Polygons.PolyDataStopsAtFailure | src/Figure_Generation/extract_polygons.py:79 | once a blob raises, no later area changes the outcome |
| Polygons.RingIdSeparator | src/Figure_Generation/extract_polygons.py:84 | the underscore a ring id puts after the area code is its last one |
| Polygons.RingIdInjective | src/Figure_Generation/extract_polygons.py:84 | two ring ids are equal exactly when both the area code and the ring index are equal, whatever characters the area codes contain |
| Polygons.AreaRowsAt | src/Figure_Generation/extract_polygons.py:80-90 | vertex i of ring k sits right after the vertices of the earlier rings, with ring id `code_k`, order i and its own coordinates |
| Polygons.AreaRowsMember | src/Figure_Generation/extract_polygons.py:80-90 | every flattened row carries the area's code, eligibility and borough, and is the row of some vertex i of some ring k, with id `code_k` and order i |
| Polygons.PolyDataRowsTagged | src/Figure_Generation/extract_polygons.py:74-90 | every row of the table belongs to an area in the lookup and carries that area's borough and eligibility, 0 when the area has no eligibility row |
| Outlines.Key | src/Figure_Generation/extract_borough_outlines.py:23-25 | the key of an edge has its smaller endpoint first and is the edge in one direction or the other |
| Outlines.KeySymmetric | src/Figure_Generation/extract_borough_outlines.py:25 | an edge walked in either direction has the same key |
| Outlines.RingEdges | src/Figure_Generation/extract_borough_outlines.py:22-25 | a ring of L vertices gives L - 1 edge keys (none when L < 2), each with its smaller endpoint first |
| Outlines.Occurrences | src/Figure_Generation/extract_borough_outlines.py:18-26 | the keys counted for a borough are as many as the vertices of its rings, less one per ring that has any |
| Outlines.Unique | src/Figure_Generation/extract_borough_outlines.py:13 | `unique()` holds exactly the elements of its input |
| Outlines.UniqueDistinct | src/Figure_Generation/extract_borough_outlines.py:13 | `unique()` never lists an element twice |
| Outlines.UniqueInFirstOccurrenceOrder | src/Figure_Generation/extract_borough_outlines.py:13 | `unique()` lists elements in the order of their first appearance; the same holds for the key order of the segment dictionary |
| Outlines.SinglesAmong | src/Figure_Generation/extract_borough_outlines.py:28-29 | the count filter keeps exactly the keys that were counted once |
| Outlines.Singles | src/Figure_Generation/extract_borough_outlines.py:28-29 | a segment is in the outline exactly when its key was counted exactly once, and no segment is in it twice |
| Outlines.OccurrencesCanonical | src/Figure_Generation/extract_borough_outlines.py:25-26 | every key counted has its smaller endpoint first |
| Outlines.SinglesCanonical | src/Figure_Generation/extract_borough_outlines.py:25-34 | every outline segment has its smaller endpoint first |
| Outlines.SinglesInFirstOccurrenceOrder | src/Figure_Generation/extract_borough_outlines.py:28-34 | outline segments come in the order their keys were first counted |
| Outlines.SimpleRingEdgesDistinct | src/Figure_Generation/extract_borough_outlines.py:22-25 | a closed ring that never revisits a vertex has no repeated edge key |
| Outlines.SimpleRingKeepsAllEdges | src/Figure_Generation/extract_borough_outlines.py:16-34 | a borough made of one simple closed ring of L vertices outlines with all of its L - 1 edges, in ring order |
| Outlines.SharedEdgeCancels | src/Figure_Generation/extract_borough_outlines.py:16-34 | of two rings that share exactly one edge, that edge disappears and every other edge stays, ring by ring, in order |
| Outlines.AdjacentSquaresShareOneEdge | src/Figure_Generation/extract_borough_outlines.py:22-25 | the two unit squares have no repeated edges, and the edge from (1,0) to (1,1) is the only one they share |
| Outlines.AdjacentSquaresShareNoOutline | src/Figure_Generation/extract_borough_outlines.py:16-34 | two adjacent unit squares outline with exactly 6 segments, with no repeats: the 8 edges minus the shared one |
| BoroughOutlines.OutlineRows | src/Figure_Generation/extract_borough_outlines.py:28-34 | one outline row per segment |
| BoroughOutlines.RowsWhere | src/Figure_Generation/extract_borough_outlines.py:14-19 | a filtered frame holds exactly the rows of the table whose borough, or ring id, is the value asked for |
| BoroughOutlines.Insert | src/Figure_Generation/extract_borough_outlines.py:19 | inserting one row adds exactly that row (as a multiset) and leaves it or the old first row in front |
| BoroughOutlines.InsertSorted | src/Figure_Generation/extract_borough_outlines.py:19 | inserting one row into rows sorted by `order` keeps them sorted |
| BoroughOutlines.SortByOrder | src/Figure_Generation/extract_borough_outlines.py:19 | `sort_values('order')` returns the same rows (a permutation) in ascending order |
| BoroughOutlines.Coords | src/Figure_Generation/extract_borough_outlines.py:20 | one (x, y) pair per row |
| BoroughOutlines.RingPoints | src/Figure_Generation/extract_borough_outlines.py:19-20 | a rebuilt ring has one vertex per row of its ring id, each the coordinates of such a row |
| BoroughOutlines.BoroughRings | src/Figure_Generation/extract_borough_outlines.py:18-20 | a borough has one rebuilt ring per distinct ring id among its rows, and none of them is empty |
| BoroughOutlines.BoroughOutline | src/Figure_Generation/extract_borough_outlines.py:16-34 | a row is in a borough's outline exactly when it names that borough and its segment's key occurs exactly once among the borough's edges |
| BoroughOutlines.OutlinesFor | src/Figure_Generation/extract_borough_outlines.py:13-34 | every row of the outlines of some boroughs names one of them |
| BoroughOutlines.AllOutlines | src/Figure_Generation/extract_borough_outlines.py:13-34 | the output holds no row twice |
| BoroughOutlines.Count | src/Figure_Generation/extract_borough_outlines.py:26 | one `get(seg, 0) + 1` step leaves the dictionary counting one more occurrence of the key, with the key appended to the key order the first time it is seen |
| BoroughOutlines.CountRingEdges | src/Figure_Generation/extract_borough_outlines.py:22-26 | the edge loop of one ring leaves the dictionary counting every edge key of that ring, in insertion order |
| BoroughOutlines.CountSegments | src/Figure_Generation/extract_borough_outlines.py:16-26 | after the ring loop the dictionary holds, in insertion order, every edge key of every ring of the borough, each with its number of occurrences |
| BoroughOutlines.EmitSingles | src/Figure_Generation/extract_borough_outlines.py:28-34 | the items loop appends one row for each key counted exactly once, in dictionary order, and nothing else |
| BoroughOutlines.ExtractBoroughOutlines | src/Figure_Generation/extract_borough_outlines.py:7-34 | the whole run yields exactly the specified outline table: borough after borough in order of first appearance |
| BoroughOutlines.RowsOfRingInArea | src/Figure_Generation/extract_borough_outlines.py:19 | among an area's flattened rows, those with the id of ring k are exactly the rows written for ring k |
| BoroughOutlines.SortSorted | src/Figure_Generation/extract_borough_outlines.py:19 | sorting rows that are already in order changes nothing |
| BoroughOutlines.SortRingRows | src/Figure_Generation/extract_borough_outlines.py:19-20 | sorting a ring's rows by `order` and zipping x and y gives back the ring's vertices |
| BoroughOutlines.RegroupRecoversRing | src/Figure_Generation/extract_borough_outlines.py:18-20 | regrouping an area's rows by ring id and sorting by order gives back each decoded ring exactly |
| BoroughOutlines.RowsOfRingInPolyData | src/Figure_Generation/extract_borough_outlines.py:19 | when area codes do not repeat, the whole table's rows with the id of ring k of an area are exactly the rows that area's flattening wrote for that ring |
| BoroughOutlines.TableRecoversRing | src/Figure_Generation/extract_borough_outlines.py:14-20 | end to end, when area codes do not repeat: the borough's slice of the table, filtered to ring `code_k` and sorted by order, is exactly ring k as the decoder produced it |
| BoroughOutlines.OutlineRowsMember | src/Figure_Generation/extract_borough_outlines.py:28-34 | a row is among a borough's outline rows exactly when it names that borough and one of the segments |
| BoroughOutlines.OutlineRowsDistinct | src/Figure_Generation/extract_borough_outlines.py:28-34 | rows written for distinct segments are distinct |
| BoroughOutlines.OutlinesForMember | src/Figure_Generation/extract_borough_outlines.py:13-34 | a row is in the outlines of some boroughs exactly when its borough is one of them and it is in that borough's outline |
| BoroughOutlines.OutlinesForDistinct | src/Figure_Generation/extract_borough_outlines.py:13-34 | the outlines of distinct boroughs hold no row twice |
| BoroughOutlines.AllOutlinesMember | src/Figure_Generation/extract_borough_outlines.py:13-34 | a row is in the output exactly when its borough is in the table and its segment's key occurs exactly once among that borough's edges |

## Left out

- **I/O.** Reading the areas from SQLite, the lookup and eligibility CSVs, writing and
  re-reading `map_polygons_final.csv`, writing `borough_outlines.csv`, and every `print`
  (including the `count` progress counter) are left out. The areas come in as a sequence,
  and the CSV round trip between the stages is taken to be lossless.
- **Lookups.** The two pandas lookups (`ladnm` of an area in the Greater Manchester
  boroughs, and `Eligible`) are given as maps from area code to value. How they are built
  from the CSVs is not modelled: the borough filter, `drop_duplicates`, and the choice of
  the first matching row.
- **Coordinates.** Each coordinate is kept as the 64-bit pattern of its IEEE double.
  Floating-point values are not modelled. Edge keys order endpoints by comparing the bit
  patterns as unsigned integers, in place of Python's tuple order on floats. The two
  orders agree on which pairs are equal. They can disagree on which endpoint comes first
  for negative coordinates. They also disagree on -0.0 and 0.0 (one value in Python, two
  keys here) and on NaN.
- BoroughOutlines.SortByOrder: sorts stably, while pandas' default `sort_values` is not
  stable. The two differ only when a ring has two rows with the same `order`, and the
  flattening never writes such rows unless an area code repeats (see below).
- BoroughOutlines.TableRecoversRing: requires that no area code appears twice in the area
  table, which the source does not check. If a code repeated, its rings would share ring
  ids, and the outline stage would merge them.
- BoroughOutlines.RowsOfRingInPolyData: requires distinct area codes, for the same reason.
- **Segments counted three or more times.** The code emits no diagnostic for them: it
  drops them silently, like any count other than 1, and the model does the same.
- **Decoder helpers.** The decoder's nested loops are split into `ReadRing`, `ReadRings`
  and `ReadParts`, one loop per method. `sub_type` is read, so a short read still raises,
  but its value is never used, as in the source.
- **Other figure scripts.** The repository's other figure and analysis scripts are not
  part of this model.
