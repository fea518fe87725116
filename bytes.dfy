/**
  Byte strings as MiniKV stores them: the `std::string` keys and values of the
  store are plain byte sequences, compared the way `std::string::operator<`
  compares them (lexicographically, bytes taken as unsigned), and every length
  prefix on disk is a two-byte `uint16_t` written in host byte order, which this
  model fixes to little-endian.
 */
module Bytes {

  newtype uint8 = x: int | 0 <= x < 256

  type Bytes = seq<uint8>

  /** One more than the largest length a `uint16_t` prefix can hold. */
  const U16_LIMIT: nat := 65536

  /** `static_cast<uint16_t>(n)`: a length reduced modulo 2^16. */
  function Trunc16(n: nat): (r: nat)
    ensures r < U16_LIMIT && r <= n
    ensures n < U16_LIMIT ==> r == n
  {
    n % U16_LIMIT
  }

  /** The two bytes of a `uint16_t` as written by `reinterpret_cast` on a little-endian host. */
  function EncodeU16(n: nat): (r: Bytes)
    requires n < U16_LIMIT
    ensures |r| == 2
  {
    [(n % 256) as uint8, (n / 256) as uint8]
  }

  /** The `uint16_t` read back from the first two bytes of `b`. */
  function DecodeU16(b: Bytes): (n: nat)
    requires |b| >= 2
    ensures n < U16_LIMIT
  {
    b[0] as nat + 256 * b[1] as nat
  }

  lemma DecodeEncodeU16(n: nat, rest: Bytes)
    requires n < U16_LIMIT
    ensures DecodeU16(EncodeU16(n) + rest) == n
  {
  }

  lemma DecodeEncodeU16Exact(n: nat)
    requires n < U16_LIMIT
    ensures DecodeU16(EncodeU16(n)) == n
  {
  }

  lemma EncodeDecodeU16(b: Bytes)
    requires |b| >= 2
    ensures EncodeU16(DecodeU16(b)) == b[..2]
  {
  }

  /** `a < b` on `std::string`: lexicographic order on unsigned bytes, a proper prefix first. */
  predicate Less(a: Bytes, b: Bytes)
  {
    if |a| == 0 then |b| > 0
    else if |b| == 0 then false
    else if a[0] != b[0] then a[0] < b[0]
    else Less(a[1..], b[1..])
  }

  lemma {:induction false} LessIrreflexive(a: Bytes)
    ensures !Less(a, a)
  {
    if |a| > 0 {
      LessIrreflexive(a[1..]);
    }
  }

  lemma {:induction false} LessTransitive(a: Bytes, b: Bytes, c: Bytes)
    requires Less(a, b) && Less(b, c)
    ensures Less(a, c)
  {
    if |a| > 0 && |b| > 0 && |c| > 0 && a[0] == b[0] == c[0] {
      LessTransitive(a[1..], b[1..], c[1..]);
    }
  }

  /** Any two different byte strings are ordered one way or the other (and never both ways). */
  lemma {:induction false} LessTotal(a: Bytes, b: Bytes)
    ensures a != b <==> (Less(a, b) || Less(b, a))
    ensures !(Less(a, b) && Less(b, a))
  {
    if |a| > 0 && |b| > 0 && a[0] == b[0] {
      LessTotal(a[1..], b[1..]);
      if a[1..] == b[1..] {
        assert a == [a[0]] + a[1..] && b == [b[0]] + b[1..];
      }
    } else if |a| == 0 && |b| == 0 {
      assert a == b;
    }
  }

  lemma ConcatAssoc<T>(a: seq<T>, b: seq<T>, c: seq<T>)
    ensures (a + b) + c == a + (b + c)
  {
  }

  lemma SliceOfSlice<T>(s: seq<T>, lo: nat, hi: nat, i: nat, j: nat)
    requires lo <= hi <= |s| && i <= j <= hi - lo
    ensures s[lo..hi][i..j] == s[lo + i..lo + j]
  {
    forall n | 0 <= n < j - i
      ensures s[lo..hi][i..j][n] == s[lo + i..lo + j][n]
    {
    }
  }

  /** A slice within the first part of a concatenation. */
  lemma SliceOfPrefix<T>(a: seq<T>, rest: seq<T>, i: nat, j: nat)
    requires i <= j <= |a|
    ensures (a + rest)[i..j] == a[i..j]
  {
    forall n | 0 <= n < j - i
      ensures (a + rest)[i..j][n] == a[i..j][n]
    {
    }
  }

  /** A slice within a prefix of a sequence. */
  lemma SliceOfTake<T>(a: seq<T>, k: nat, i: nat, j: nat)
    requires i <= j <= k <= |a|
    ensures a[..k][i..j] == a[i..j]
  {
    forall n | 0 <= n < j - i
      ensures a[..k][i..j][n] == a[i..j][n]
    {
    }
  }

  /** The first `n + k` elements are the first `n`, then the first `k` of the rest. */
  lemma TakeAfterDrop<T>(a: seq<T>, n: nat, k: nat)
    requires n + k <= |a|
    ensures a[..n + k] == a[..n] + a[n..][..k]
  {
    assert a[..n + k] == a[..n] + a[n..n + k];
  }

  /** A slice of a suffix is a slice of the whole, shifted. */
  lemma SliceOfDrop<T>(a: seq<T>, n: nat, i: nat, j: nat)
    requires n <= |a| && i <= j <= |a| - n
    ensures a[n..][i..j] == a[n + i..n + j]
  {
    forall x | 0 <= x < j - i
      ensures a[n..][i..j][x] == a[n + i..n + j][x]
    {
    }
  }

  /** The middle part of a three-part concatenation. */
  lemma MiddleSlice<T>(pre: seq<T>, mid: seq<T>, post: seq<T>)
    ensures |pre| + |mid| <= |pre + mid + post|
    ensures (pre + mid + post)[|pre|..|pre| + |mid|] == mid
  {
    var s := pre + mid + post;
    forall n | 0 <= n < |mid|
      ensures s[|pre|..|pre| + |mid|][n] == mid[n]
    {
    }
  }
}
