/**
  The disk the store runs on, reduced to what MiniKV observes of it: a map from
  path to file contents. Opening a file for reading succeeds exactly when the path
  is present; whether an opening for writing and the bytes written succeed is
  decided by the caller of each operation (an `openOk` flag and a `landed` count).
 */
module Files {
  import opened Bytes

  type Path = string

  class FileSystem {
    var files: map<Path, Bytes>

    constructor (initial: map<Path, Bytes>)
      ensures files == initial
    {
      files := initial;
    }
  }

  /** The bytes of `path`, or no bytes when there is no such file. */
  function Contents(files: map<Path, Bytes>, path: Path): Bytes
  {
    if path in files then files[path] else []
  }

  predicate HasSuffix(s: string, suffix: string)
  {
    |suffix| <= |s| && s[|s| - |suffix|..] == suffix
  }

  /** Two paths that end in suffixes differing at the same distance from the end are different. */
  lemma {:induction false} DifferentSuffixes(p: Path, q: Path, a: string, b: string)
    requires HasSuffix(p, a) && HasSuffix(q, b) && |a| == |b| && a != b
    ensures p != q
  {
  }

  /** `n` in decimal, as `std::to_string` prints a non-negative `int`. */
  function NatToString(n: nat): (s: string)
    ensures |s| > 0
    ensures forall i :: 0 <= i < |s| ==> '0' <= s[i] <= '9'
    decreases n
  {
    if n < 10 then [Digit(n)] else NatToString(n / 10) + [Digit(n % 10)]
  }

  function Digit(d: nat): (c: char)
    requires d < 10
    ensures '0' <= c <= '9'
  {
    ('0' as int + d) as char
  }

  /** Different numbers print differently, so `std::to_string` of a counter never repeats a value's text. */
  lemma {:induction false} NatToStringInjective(a: nat, b: nat)
    requires NatToString(a) == NatToString(b)
    ensures a == b
    decreases a
  {
    var s := NatToString(a);
    if a >= 10 && b >= 10 {
      assert s[..|s| - 1] == NatToString(a / 10) == NatToString(b / 10);
      NatToStringInjective(a / 10, b / 10);
      assert Digit(a % 10) == s[|s| - 1] == Digit(b % 10);
    }
  }
}
