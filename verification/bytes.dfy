/**
 * Bytes and the fixed-width unsigned integers that `struct.unpack` reads from them
 * (format characters `I`, four bytes, and the eight-byte words behind `d`),
 * in either byte order, together with the writers that produce them.
 */
module Bytes {

  newtype u8 = x: int | 0 <= x < 256

  /** 256 to the power n: one more than the largest value n bytes can hold. */
  function Pow256(n: nat): (r: nat)
    ensures r > 0
  {
    if n == 0 then 1 else 256 * Pow256(n - 1)
  }

  const Word32Limit: nat := 0x1_0000_0000
  const Word64Limit: nat := 0x1_0000_0000_0000_0000

  /** A value held in four bytes (a `uint32` count or type code). */
  type Word32 = x: nat | x < 0x1_0000_0000

  /**
   * The bit pattern of one IEEE-754 double, held in eight bytes. The decoder copies
   * these words and never looks inside them.
   */
  type Word64 = x: nat | x < 0x1_0000_0000_0000_0000

  lemma {:induction false} Pow256Widths()
    ensures Pow256(4) == Word32Limit && Pow256(8) == Word64Limit
  {
  }

  /**
   * The unsigned value of the n bytes of `w` starting at `off`: least-significant byte
   * first when `littleEndian` (`<` in struct), most-significant first otherwise (`>`).
   */
  function WordAt(w: seq<u8>, off: nat, n: nat, littleEndian: bool): (r: nat)
    requires off + n <= |w|
    ensures r < Pow256(n)
    decreases n, w
  {
    if n == 0 then 0
    else if littleEndian then w[off] as nat + 256 * WordAt(w, off + 1, n - 1, littleEndian)
    else WordAt(w, off, n - 1, littleEndian) * 256 + w[off + n - 1] as nat
  }

  /**
   * `v` written as n bytes (`struct.pack`): least-significant byte first when
   * `littleEndian`, most-significant first otherwise.
   */
  function ToBytes(v: nat, n: nat, littleEndian: bool): (r: seq<u8>)
    requires v < Pow256(n)
    ensures |r| == n
    decreases n, v
  {
    if n == 0 then []
    else if littleEndian then [(v % 256) as u8] + ToBytes(v / 256, n - 1, littleEndian)
    else ToBytes(v / 256, n - 1, littleEndian) + [(v % 256) as u8]
  }

  function Reverse<T>(s: seq<T>): (r: seq<T>)
    ensures |r| == |s|
  {
    if s == [] then [] else Reverse(s[1..]) + [s[0]]
  }

  /** A word depends only on its own n bytes, wherever they sit. */
  lemma {:induction false} WordAtFrame(a: seq<u8>, ia: nat, b: seq<u8>, ib: nat, n: nat, littleEndian: bool)
    requires ia + n <= |a| && ib + n <= |b|
    requires forall j | ib <= j < ib + n :: a[ia + (j - ib)] == b[j]
    ensures WordAt(a, ia, n, littleEndian) == WordAt(b, ib, n, littleEndian)
    decreases n
  {
    if n > 0 {
      assert a[ia + (ib - ib)] == b[ib];
      assert a[ia + (ib + n - 1 - ib)] == b[ib + n - 1];
      if littleEndian {
        forall j | ib + 1 <= j < ib + 1 + (n - 1)
          ensures a[ia + 1 + (j - (ib + 1))] == b[j]
        {
          assert a[ia + (j - ib)] == b[j];
        }
        WordAtFrame(a, ia + 1, b, ib + 1, n - 1, littleEndian);
      } else {
        WordAtFrame(a, ia, b, ib, n - 1, littleEndian);
      }
    }
  }

  /** Cutting bytes off the end does not change a word that lies before the cut. */
  lemma {:induction false} WordAtPrefix(w: seq<u8>, k: nat, off: nat, n: nat, littleEndian: bool)
    requires off + n <= k <= |w|
    ensures WordAt(w[..k], off, n, littleEndian) == WordAt(w, off, n, littleEndian)
  {
    WordAtFrame(w[..k], off, w, off, n, littleEndian);
  }

  /** Reading back what was written, in either byte order, gives the value written. */
  lemma {:induction false} WordAtToBytes(v: nat, n: nat, littleEndian: bool)
    requires v < Pow256(n)
    ensures WordAt(ToBytes(v, n, littleEndian), 0, n, littleEndian) == v
    decreases n
  {
    if n > 0 {
      WordAtToBytes(v / 256, n - 1, littleEndian);
      if littleEndian {
        WordAtToBytesLittle(v, n);
      } else {
        WordAtToBytesBig(v, n);
      }
    }
  }

  /** The little-endian step: the low byte first, then the bytes of `v / 256`. */
  lemma {:induction false} WordAtToBytesLittle(v: nat, n: nat)
    requires 0 < n && v < Pow256(n) && v / 256 < Pow256(n - 1)
    requires WordAt(ToBytes(v / 256, n - 1, true), 0, n - 1, true) == v / 256
    ensures WordAt(ToBytes(v, n, true), 0, n, true) == v
  {
    var s := ToBytes(v, n, true);
    var t := ToBytes(v / 256, n - 1, true);
    assert s == [(v % 256) as u8] + t;
    WordAtFrame(s, 1, t, 0, n - 1, true);
    SplitLowByte(v);
  }

  /** The big-endian step: the bytes of `v / 256`, then the low byte last. */
  lemma {:induction false} WordAtToBytesBig(v: nat, n: nat)
    requires 0 < n && v < Pow256(n) && v / 256 < Pow256(n - 1)
    requires WordAt(ToBytes(v / 256, n - 1, false), 0, n - 1, false) == v / 256
    ensures WordAt(ToBytes(v, n, false), 0, n, false) == v
  {
    var s := ToBytes(v, n, false);
    var t := ToBytes(v / 256, n - 1, false);
    assert s == t + [(v % 256) as u8];
    WordAtFrame(s, 0, t, 0, n - 1, false);
    SplitLowByte(v);
  }

  lemma {:induction false} SplitLowByte(v: nat)
    ensures v % 256 < 256 && v == v % 256 + 256 * (v / 256) && v == (v / 256) * 256 + v % 256
  {
  }

  /** Writing back what was read, in either byte order, gives the bytes read. */
  lemma {:induction false} ToBytesWordAt(w: seq<u8>, off: nat, n: nat, littleEndian: bool)
    requires off + n <= |w|
    ensures ToBytes(WordAt(w, off, n, littleEndian), n, littleEndian) == w[off..off + n]
    decreases n
  {
    if n > 0 {
      if littleEndian {
        ToBytesWordAt(w, off + 1, n - 1, true);
        ToBytesWordAtLittle(w, off, n);
      } else {
        ToBytesWordAt(w, off, n - 1, false);
        ToBytesWordAtBig(w, off, n);
      }
    }
  }

  /** The little-endian step: the first byte, then the word of the bytes after it. */
  lemma {:induction false} ToBytesWordAtLittle(w: seq<u8>, off: nat, n: nat)
    requires 0 < n && off + n <= |w|
    requires ToBytes(WordAt(w, off + 1, n - 1, true), n - 1, true) == w[off + 1..off + n]
    ensures ToBytes(WordAt(w, off, n, true), n, true) == w[off..off + n]
  {
    LowByte(w[off] as nat, WordAt(w, off + 1, n - 1, true));
    assert w[off..off + n] == [w[off]] + w[off + 1..off + n];
  }

  /** The big-endian step: the word of all bytes but the last, then the last byte. */
  lemma {:induction false} ToBytesWordAtBig(w: seq<u8>, off: nat, n: nat)
    requires 0 < n && off + n <= |w|
    requires ToBytes(WordAt(w, off, n - 1, false), n - 1, false) == w[off..off + n - 1]
    ensures ToBytes(WordAt(w, off, n, false), n, false) == w[off..off + n]
  {
    LowByte(w[off + n - 1] as nat, WordAt(w, off, n - 1, false));
    assert w[off..off + n] == w[off..off + n - 1] + [w[off + n - 1]];
  }

  /** The low byte of `lo + 256 * hi` is `lo`, and the bytes above it are `hi`. */
  lemma {:induction false} LowByte(lo: nat, hi: nat)
    requires lo < 256
    ensures (lo + 256 * hi) % 256 == lo && (lo + 256 * hi) / 256 == hi
    ensures (hi * 256 + lo) % 256 == lo && (hi * 256 + lo) / 256 == hi
  {
  }

  /**
   * The byte-order flag only decides which end of the word is most significant:
   * a big-endian read is a little-endian read of the reversed bytes.
   */
  lemma {:induction false} BigEndianIsReversedLittleEndian(s: seq<u8>)
    ensures WordAt(s, 0, |s|, false) == WordAt(Reverse(s), 0, |s|, true)
    decreases |s|
  {
    if s != [] {
      var init, last := s[..|s| - 1], s[|s| - 1];
      BigEndianIsReversedLittleEndian(init);
      ReverseSnoc(init, last);
      assert s == init + [last];
      var r := Reverse(s);
      assert r == [last] + Reverse(init);
      WordAtFrame(s, 0, init, 0, |s| - 1, false);
      WordAtFrame(r, 1, Reverse(init), 0, |s| - 1, true);
    }
  }

  lemma {:induction false} ReverseSnoc<T>(s: seq<T>, x: T)
    ensures Reverse(s + [x]) == [x] + Reverse(s)
    decreases s
  {
    if s != [] {
      assert (s + [x])[1..] == s[1..] + [x];
      ReverseSnoc(s[1..], x);
    } else {
      assert Reverse([x]) == Reverse([x][1..]) + [x];
    }
  }

  /**
   * Byte i of an expected encoding. The quantifiers below mention bytes of `e` only
   * through it, so they come into play only where a proof names `ByteAt` itself.
   */
  function ByteAt(e: seq<u8>, i: nat): u8
    requires i < |e|
  {
    e[i]
  }

  /** The bytes of `w` from `off` on begin with `e`. */
  predicate Matches(w: seq<u8>, off: nat, e: seq<u8>) {
    off + |e| <= |w| && forall i | 0 <= i < |e| :: w[off + i] == ByteAt(e, i)
  }

  /** The bytes of `w` from `off` to its end are a strict prefix of `e`: `e` cut short. */
  predicate CutShort(w: seq<u8>, off: nat, e: seq<u8>) {
    off <= |w| < off + |e| && forall i | 0 <= i < |w| - off :: w[off + i] == ByteAt(e, i)
  }

  lemma {:induction false} MatchesSlice(w: seq<u8>, off: nat, e: seq<u8>)
    requires Matches(w, off, e)
    ensures w[off..off + |e|] == e
  {
    forall i | 0 <= i < |e|
      ensures w[off..off + |e|][i] == e[i]
    {
      assert w[off + i] == ByteAt(e, i);
    }
  }

  lemma {:induction false} SliceMatches(w: seq<u8>, off: nat, e: seq<u8>)
    requires off + |e| <= |w| && w[off..off + |e|] == e
    ensures Matches(w, off, e)
  {
    forall i | 0 <= i < |e|
      ensures w[off + i] == ByteAt(e, i)
    {
      assert w[off..off + |e|][i] == w[off + i];
    }
  }

  /** Bytes that match `a` + `b` match `a`, then `b` right after it. */
  lemma {:induction false} MatchesSplit(w: seq<u8>, off: nat, a: seq<u8>, b: seq<u8>)
    requires Matches(w, off, a + b)
    ensures Matches(w, off, a) && Matches(w, off + |a|, b)
  {
    forall i | 0 <= i < |a|
      ensures w[off + i] == ByteAt(a, i)
    {
      assert w[off + i] == ByteAt(a + b, i);
    }
    forall i | 0 <= i < |b|
      ensures w[off + |a| + i] == ByteAt(b, i)
    {
      assert w[off + (|a| + i)] == ByteAt(a + b, |a| + i);
    }
  }

  /** Bytes that match `a`, then `b` right after it, match `a` + `b`. */
  lemma {:induction false} MatchesJoin(w: seq<u8>, off: nat, a: seq<u8>, b: seq<u8>)
    requires Matches(w, off, a) && Matches(w, off + |a|, b)
    ensures Matches(w, off, a + b)
  {
    forall i | 0 <= i < |a + b|
      ensures w[off + i] == ByteAt(a + b, i)
    {
      if i < |a| {
        assert w[off + i] == ByteAt(a, i);
      } else {
        assert w[off + |a| + (i - |a|)] == ByteAt(b, i - |a|);
      }
    }
  }

  /** A prefix of `w` that runs out before `a` + `b` does: `w` ends inside `a` or inside `b`. */
  lemma {:induction false} CutShortSplit(w: seq<u8>, off: nat, a: seq<u8>, b: seq<u8>)
    requires CutShort(w, off, a + b)
    ensures (|w| < off + |a| && CutShort(w, off, a)) || (Matches(w, off, a) && CutShort(w, off + |a|, b))
  {
    if |w| < off + |a| {
      forall i | 0 <= i < |w| - off
        ensures w[off + i] == ByteAt(a, i)
      {
        assert w[off + i] == ByteAt(a + b, i);
      }
    } else {
      forall i | 0 <= i < |a|
        ensures w[off + i] == ByteAt(a, i)
      {
        assert w[off + i] == ByteAt(a + b, i);
      }
      forall i | 0 <= i < |w| - (off + |a|)
        ensures w[off + |a| + i] == ByteAt(b, i)
      {
        assert w[off + (|a| + i)] == ByteAt(a + b, |a| + i);
      }
    }
  }

  lemma {:induction false} CutShortOfPrefix(w: seq<u8>, off: nat, e: seq<u8>)
    requires off <= |w| < off + |e| && w[off..] == e[..|w| - off]
    ensures CutShort(w, off, e)
  {
    forall i | 0 <= i < |w| - off
      ensures w[off + i] == ByteAt(e, i)
    {
      assert w[off..][i] == e[..|w| - off][i];
    }
  }

  /** A word read where `e` matches reads what `e` holds. */
  lemma {:induction false} WordAtMatches(w: seq<u8>, off: nat, e: seq<u8>, n: nat, le: bool)
    requires Matches(w, off, e) && n <= |e|
    ensures WordAt(w, off, n, le) == WordAt(e, 0, n, le)
  {
    forall j | off <= j < off + n
      ensures e[0 + (j - off)] == w[j]
    {
      assert w[off + (j - off)] == ByteAt(e, j - off);
    }
    WordAtFrame(e, 0, w, off, n, le);
  }
}
