/**
  The string helpers `trim` and `split` of MiniKV/src/utils.cpp. Each method
  walks its input the way the C++ loop does (iterators become indices) and is
  proved equal to a recursive specification function; what those functions
  promise is proved as lemmas below them.
 */
module Utils {

  // ---------------------------------------------------------------------------
  // trim

  /** `std::isspace` in the C locale: the space, and tab through carriage return. */
  predicate IsSpace(c: char)
  {
    c == ' ' || '\t' <= c <= '\r'
  }

  predicate AllSpace(s: string)
  {
    forall i :: 0 <= i < |s| ==> IsSpace(s[i])
  }

  /** `s` without its leading run of whitespace. */
  function TrimLeft(s: string): string
  {
    if s != [] && IsSpace(s[0]) then TrimLeft(s[1..]) else s
  }

  /** `s` without its trailing run of whitespace. */
  function TrimRight(s: string): string
  {
    if s != [] && IsSpace(s[|s| - 1]) then TrimRight(s[..|s| - 1]) else s
  }

  /** What `trim` returns: both whitespace runs dropped. */
  function Trimmed(s: string): string
  {
    TrimRight(TrimLeft(s))
  }

  /**
    `trim`: advance `start` over leading whitespace, then move `end` back from
    the last character (the `do`-`while` runs once before testing) until it
    reaches `start` or a non-space. An empty input would step `end` before
    `begin()`, which C++ leaves undefined, so the input must be non-empty.
   */
  method Trim(str: string) returns (r: string)
    requires |str| > 0
    ensures r == Trimmed(str)
  {
    var start := 0;
    while start != |str| && IsSpace(str[start])
      invariant 0 <= start <= |str|
      invariant TrimLeft(str[start..]) == TrimLeft(str)
    {
      assert str[start..][1..] == str[start + 1..];
      start := start + 1;
    }
    assert TrimLeft(str) == str[start..];
    var end := |str| - 1;
    assert str[start..end + 1] == str[start..];
    while end - start > 0 && IsSpace(str[end])
      invariant start - 1 <= end < |str|
      invariant start < |str| ==> start <= end
      invariant TrimRight(str[start..end + 1]) == TrimRight(str[start..])
    {
      assert str[start..end + 1][..end - start] == str[start..end];
      end := end - 1;
    }
    r := str[start..end + 1];
  }

  /** `TrimLeft` keeps a suffix of `s` that does not start with whitespace, and drops only whitespace. */
  lemma {:induction false} TrimLeftDropsSpace(s: string)
    ensures |TrimLeft(s)| <= |s| && TrimLeft(s) == s[|s| - |TrimLeft(s)|..]
    ensures AllSpace(s[..|s| - |TrimLeft(s)|])
    ensures TrimLeft(s) == [] || !IsSpace(TrimLeft(s)[0])
    decreases |s|
  {
    if s != [] && IsSpace(s[0]) {
      TrimLeftDropsSpace(s[1..]);
      var n := |s| - |TrimLeft(s)|;
      assert s[..n] == [s[0]] + s[1..][..n - 1];
    }
  }

  /** `TrimRight` keeps a prefix of `s` that does not end with whitespace, and drops only whitespace. */
  lemma {:induction false} TrimRightDropsSpace(s: string)
    ensures |TrimRight(s)| <= |s| && TrimRight(s) == s[..|TrimRight(s)|]
    ensures AllSpace(s[|TrimRight(s)|..])
    ensures TrimRight(s) == [] || !IsSpace(TrimRight(s)[|TrimRight(s)| - 1])
    decreases |s|
  {
    if s != [] && IsSpace(s[|s| - 1]) {
      var p := s[..|s| - 1];
      TrimRightDropsSpace(p);
      var n := |TrimRight(s)|;
      assert s[n..] == p[n..] + [s[|s| - 1]];
    }
  }

  /** The result of `trim` starts with a non-space character, unless it is empty. */
  lemma TrimmedNoLeading(s: string)
    ensures Trimmed(s) == [] || !IsSpace(Trimmed(s)[0])
  {
    TrimLeftDropsSpace(s);
    TrimRightDropsSpace(TrimLeft(s));
  }

  /** The result of `trim` ends with a non-space character, unless it is empty. */
  lemma TrimmedNoTrailing(s: string)
    ensures Trimmed(s) == [] || !IsSpace(Trimmed(s)[|Trimmed(s)| - 1])
  {
    TrimRightDropsSpace(TrimLeft(s));
  }

  /** The result of `trim` is the stretch of `s` between a whitespace prefix and a whitespace suffix. */
  lemma TrimmedIsInfix(s: string)
    ensures var i, t := |s| - |TrimLeft(s)|, Trimmed(s);
      && 0 <= i && i + |t| <= |s|
      && s[i..i + |t|] == t
      && AllSpace(s[..i])
      && AllSpace(s[i + |t|..])
  {
    var l := TrimLeft(s);
    var i, t := |s| - |l|, Trimmed(s);
    TrimLeftDropsSpace(s);
    assert AllSpace(s[..i]);
    TrimRightDropsSpace(l);
    assert AllSpace(l[|t|..]);
    assert s[i..i + |t|] == l[..|t|];
    assert s[i + |t|..] == l[|t|..];
  }

  /** `trim` of a string is empty exactly when the string is all whitespace. */
  lemma TrimmedEmptyIffAllSpace(s: string)
    ensures Trimmed(s) == [] <==> AllSpace(s)
  {
    TrimmedIsInfix(s);
    var i := |s| - |TrimLeft(s)|;
    if Trimmed(s) == [] {
      assert s == s[..i] + s[i..];
    } else {
      TrimmedNoLeading(s);
      assert s[i] == Trimmed(s)[0];
    }
  }

  /** Trimming twice is trimming once. */
  lemma TrimmedIdempotent(s: string)
    ensures Trimmed(Trimmed(s)) == Trimmed(s)
  {
    var t := Trimmed(s);
    TrimmedNoLeading(s);
    TrimmedNoTrailing(s);
    assert TrimLeft(t) == t;
  }

  // ---------------------------------------------------------------------------
  // split

  /** The position of the first `d` in `s`, or `|s|` when there is none. */
  function IndexOf(s: string, d: char): (i: nat)
    ensures i <= |s|
    ensures i < |s| ==> s[i] == d
    ensures forall k :: 0 <= k < i ==> s[k] != d
  {
    if s == [] then 0
    else if s[0] == d then 0
    else 1 + IndexOf(s[1..], d)
  }

  /**
    What the `std::getline` loop of `split` collects: the text up to each
    delimiter in turn, and the rest after the last one when that rest is not
    empty (a `getline` that finds nothing left to read fails and ends the loop).
   */
  function Tokens(s: string, d: char): seq<string>
    decreases |s|
  {
    if s == [] then []
    else
      var i := IndexOf(s, d);
      if i == |s| then [s] else [s[..i]] + Tokens(s[i + 1..], d)
  }

  /** The tokens put back together, with the delimiter between each two. */
  function Join(ts: seq<string>, d: char): string
  {
    if |ts| == 0 then []
    else if |ts| == 1 then ts[0]
    else ts[0] + [d] + Join(ts[1..], d)
  }

  /** `split`: push each token `getline` yields until it fails. */
  method Split(str: string, delimiter: char) returns (tokens: seq<string>)
    ensures tokens == Tokens(str, delimiter)
  {
    tokens := [];
    var pos := 0;
    while pos < |str|
      invariant 0 <= pos <= |str|
      invariant tokens + Tokens(str[pos..], delimiter) == Tokens(str, delimiter)
      decreases |str| - pos
    {
      ghost var rest := str[pos..];
      var token, next := GetLine(str, pos, delimiter);
      assert Tokens(rest, delimiter) == [token] + Tokens(str[next..], delimiter) by {
        var i := IndexOf(rest, delimiter);
        if i < |rest| {
          assert rest[i + 1..] == str[next..];
        } else {
          assert rest[..i] == rest;
        }
      }
      tokens := tokens + [token];
      pos := next;
    }
  }

  /**
    One successful `std::getline(ss, token, delimiter)` reading from `pos`: the
    characters up to the next delimiter or the end, with the delimiter consumed.
   */
  method GetLine(str: string, pos: nat, d: char) returns (token: string, next: nat)
    requires pos < |str|
    ensures pos < next <= |str|
    ensures var i := IndexOf(str[pos..], d);
      && token == str[pos..][..i]
      && next == (if pos + i < |str| then pos + i + 1 else |str|)
  {
    token := [];
    next := pos;
    while next < |str| && str[next] != d
      invariant pos <= next <= |str|
      invariant token == str[pos..next]
      invariant forall k :: pos <= k < next ==> str[k] != d
    {
      token := token + [str[next]];
      next := next + 1;
    }
    IndexOfFirst(str[pos..], d, next - pos);
    if next < |str| {
      next := next + 1;
    }
  }

  /** Any position that holds `d` (or is the end) with no `d` before it is the one `IndexOf` finds. */
  lemma IndexOfFirst(s: string, d: char, j: nat)
    requires j <= |s| && (j < |s| ==> s[j] == d)
    requires forall k :: 0 <= k < j ==> s[k] != d
    ensures IndexOf(s, d) == j
  {
  }

  /** No token contains the delimiter. */
  lemma {:induction false} TokensHaveNoDelimiter(s: string, d: char)
    ensures forall t :: t in Tokens(s, d) ==> d !in t
    decreases |s|
  {
    if s != [] {
      var i := IndexOf(s, d);
      if i < |s| {
        TokensHaveNoDelimiter(s[i + 1..], d);
      }
    }
  }

  /** Joining the tokens gives the input back, less one trailing delimiter if it ended with one. */
  lemma {:induction false} JoinTokens(s: string, d: char)
    ensures Join(Tokens(s, d), d) == if s != [] && s[|s| - 1] == d then s[..|s| - 1] else s
    decreases |s|
  {
    if s != [] {
      var i := IndexOf(s, d);
      if i < |s| {
        var rest := s[i + 1..];
        assert s == s[..i] + [d] + rest;
        if rest != [] {
          JoinTokens(rest, d);
          assert Tokens(rest, d) != [];
          var ts := Tokens(s, d);
          assert ts[1..] == Tokens(rest, d);
          if rest[|rest| - 1] == d {
            assert s[..|s| - 1] == s[..i] + [d] + rest[..|rest| - 1];
          }
        }
      }
    }
  }

  /** The number of tokens: one per delimiter, plus one for a non-empty text after the last delimiter; none for "". */
  lemma {:induction false} TokenCount(s: string, d: char)
    ensures |Tokens(s, d)| == multiset(s)[d] + (if s != [] && s[|s| - 1] != d then 1 else 0)
    decreases |s|
  {
    if s != [] {
      var i := IndexOf(s, d);
      if i == |s| {
        assert d !in s;
        assert multiset(s)[d] == 0;
      } else {
        var rest := s[i + 1..];
        assert s == s[..i] + [d] + rest;
        assert d !in s[..i];
        assert multiset(s) == multiset(s[..i]) + multiset([d]) + multiset(rest);
        assert multiset(s)[d] == multiset(rest)[d] + 1;
        TokenCount(rest, d);
        if rest != [] {
          assert s[|s| - 1] == rest[|rest| - 1];
        }
      }
    }
  }

  /** The delimiter after `a` is the first one when `a` has none. */
  lemma IndexOfAfter(a: string, d: char, b: string)
    requires d !in a
    ensures IndexOf(a + [d] + b, d) == |a|
  {
    IndexOfFirst(a + [d] + b, d, |a|);
  }

  /** Splitting the joined tokens gives them back, when no token holds the delimiter and the last is not empty. */
  lemma {:induction false} TokensOfJoin(ts: seq<string>, d: char)
    requires forall t :: t in ts ==> d !in t
    requires ts == [] || ts[|ts| - 1] != []
    ensures Tokens(Join(ts, d), d) == ts
    decreases |ts|
  {
    if |ts| == 1 {
      forall k | 0 <= k < |ts[0]|
        ensures ts[0][k] != d
      {
        assert ts[0][k] in ts[0];
      }
      IndexOfFirst(ts[0], d, |ts[0]|);
    } else if |ts| > 1 {
      var j := Join(ts[1..], d);
      TokensOfJoin(ts[1..], d);
      IndexOfAfter(ts[0], d, j);
      var s := ts[0] + [d] + j;
      assert s[..|ts[0]|] == ts[0];
      assert s[|ts[0]| + 1..] == j;
    }
  }
}
