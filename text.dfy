/**
 * The Python `str` operations the services rely on, over `string` (= `seq<char>`):
 * `strip`, `startswith`/`endswith`, the `in` substring test, the `[:n]` slice,
 * `sep.join`, `str.replace` and `str(n)` for a natural number.
 */
module Text {

  // ---------------------------------------------------------------------------
  // Whitespace and str.strip()
  // ---------------------------------------------------------------------------

  /** `c.isspace()`: the code points CPython classifies as whitespace. */
  predicate IsSpace(c: char) {
    var n := c as int;
    (0x09 <= n <= 0x0D) || (0x1C <= n <= 0x20) || n == 0x85 || n == 0xA0 || n == 0x1680
    || (0x2000 <= n <= 0x200A) || n == 0x2028 || n == 0x2029 || n == 0x202F
    || n == 0x205F || n == 0x3000
  }

  predicate AllSpace(s: string) {
    forall i :: 0 <= i < |s| ==> IsSpace(s[i])
  }

  /** Neither end of `s` is whitespace: what `strip()` always produces. */
  predicate IsStripped(s: string) {
    s == [] || (!IsSpace(s[0]) && !IsSpace(s[|s| - 1]))
  }

  /** `r` is `s[i:j]` for some `0 <= i <= j <= len(s)`. */
  ghost predicate IsSlice(r: string, s: string) {
    exists i, j :: 0 <= i <= j <= |s| && s[i..j] == r
  }

  /** The index of the first non-whitespace character at or after `k` (or `|s|`): where `lstrip` cuts. */
  function LStripIndex(s: string, k: nat): (r: nat)
    requires k <= |s|
    ensures k <= r <= |s|
    ensures forall i :: k <= i < r ==> IsSpace(s[i])
    ensures r == |s| || !IsSpace(s[r])
    decreases |s| - k
  {
    if k < |s| && IsSpace(s[k]) then LStripIndex(s, k + 1) else k
  }

  /** The end of `s[lo..hi]` once its trailing whitespace is dropped: where `rstrip` cuts. */
  function RStripIndex(s: string, lo: nat, hi: nat): (r: nat)
    requires lo <= hi <= |s|
    ensures lo <= r <= hi
    ensures forall i :: r <= i < hi ==> IsSpace(s[i])
    ensures r == lo || !IsSpace(s[r - 1])
    decreases hi
  {
    if lo < hi && IsSpace(s[hi - 1]) then RStripIndex(s, lo, hi - 1) else hi
  }

  /** `s.strip()`: removes the whitespace at both ends. */
  function Strip(s: string): (r: string)
    ensures IsStripped(r)
    ensures |r| <= |s|
  {
    var lo := LStripIndex(s, 0);
    s[lo..RStripIndex(s, lo, |s|)]
  }

  /** What `strip()` keeps is one contiguous slice of its input. */
  lemma StripIsSlice(s: string)
    ensures IsSlice(Strip(s), s)
  {
    var lo := LStripIndex(s, 0);
    var hi := RStripIndex(s, lo, |s|);
    assert s[lo..hi] == Strip(s);
  }

  /** `strip()` returns the empty string exactly when the input is all whitespace. */
  lemma StripEmpty(s: string)
    ensures Strip(s) == [] <==> AllSpace(s)
  {
    var lo := LStripIndex(s, 0);
    var hi := RStripIndex(s, lo, |s|);
    assert |Strip(s)| == hi - lo;
  }

  /** A slice of a slice is a slice. */
  lemma SliceOfSlice(a: string, b: string, c: string)
    requires IsSlice(a, b) && IsSlice(b, c)
    ensures IsSlice(a, c)
  {
    var i, j :| 0 <= i <= j <= |b| && b[i..j] == a;
    var k, l :| 0 <= k <= l <= |c| && c[k..l] == b;
    assert |b| == l - k;
    forall m | 0 <= m < j - i
      ensures c[k + i..k + j][m] == a[m]
    {
      assert a[m] == b[i + m] == c[k..l][i + m];
    }
    assert c[k + i..k + j] == a;
  }

  /** Stripping keeps every character from the first to the last non-space one. */
  lemma StripKeeps(s: string, first: nat, last: nat)
    requires first <= last < |s|
    requires !IsSpace(s[first]) && !IsSpace(s[last])
    requires forall i :: 0 <= i < first ==> IsSpace(s[i])
    ensures Strip(s)[..last - first + 1] == s[first..last + 1]
  {
    var lo := LStripIndex(s, 0);
    assert lo == first;
    var hi := RStripIndex(s, lo, |s|);
    assert hi > last;
  }

  /** Stripping a stripped text surrounded by whitespace gives that text back. */
  lemma StripPadded(pre: string, x: string, post: string)
    requires AllSpace(pre) && AllSpace(post) && IsStripped(x)
    ensures Strip(pre + x + post) == x
  {
    var s := pre + x + post;
    var lo := LStripIndex(s, 0);
    var hi := RStripIndex(s, lo, |s|);
    if x == [] {
      assert AllSpace(s);
      StripEmpty(s);
    } else {
      assert s[|pre|] == x[0] && s[|pre| + |x| - 1] == x[|x| - 1];
      assert lo == |pre|;
      assert hi == |pre| + |x|;
      assert s[lo..hi] == x;
    }
  }

  /** `strip()` is the identity on stripped text. */
  lemma StripStripped(x: string)
    requires IsStripped(x)
    ensures Strip(x) == x
  {
    assert [] + x + [] == x;
    StripPadded([], x, []);
  }

  // ---------------------------------------------------------------------------
  // startswith, endswith, `in`, slicing
  // ---------------------------------------------------------------------------

  predicate StartsWith(s: string, prefix: string) {
    |prefix| <= |s| && s[..|prefix|] == prefix
  }

  predicate EndsWith(s: string, suffix: string) {
    |suffix| <= |s| && s[|s| - |suffix|..] == suffix
  }

  /** `t` occurs in `s` starting at index `i`. */
  predicate OccursAt(s: string, t: string, i: int) {
    0 <= i && i + |t| <= |s| && s[i..i + |t|] == t
  }

  /** Python's `t in s` for strings. */
  predicate Contains(s: string, t: string) {
    exists i | 0 <= i <= |s| - |t| :: OccursAt(s, t, i)
  }

  function Min(a: int, b: int): int {
    if a <= b then a else b
  }

  /** `s[:n]` for `n >= 0`: the longest prefix of `s` with at most `n` characters. */
  function Truncate(s: string, n: nat): (r: string)
    ensures StartsWith(s, r)
    ensures |r| == Min(|s|, n)
  {
    if |s| <= n then s else s[..n]
  }

  // ---------------------------------------------------------------------------
  // sep.join(parts) and plain concatenation
  // ---------------------------------------------------------------------------

  /** Concatenation of a sequence of sequences, in order. */
  function Concat<T>(ss: seq<seq<T>>): seq<T>
    decreases |ss|
  {
    if ss == [] then [] else Concat(ss[..|ss| - 1]) + ss[|ss| - 1]
  }

  lemma {:induction false} ConcatAppend<T>(a: seq<seq<T>>, b: seq<seq<T>>)
    ensures Concat(a + b) == Concat(a) + Concat(b)
    decreases |b|
  {
    if b == [] {
      assert a + b == a;
    } else {
      var b' := b[..|b| - 1];
      assert (a + b)[..|a + b| - 1] == a + b';
      ConcatAppend(a, b');
    }
  }

  /** `sep.join(parts)`. */
  function Join(sep: string, parts: seq<string>): (r: string)
    ensures parts == [] ==> r == ""
    ensures sep == [] ==> r == Concat(parts)
    decreases |parts|
  {
    if |parts| == 0 then ""
    else if |parts| == 1 then parts[0]
    else Join(sep, parts[..|parts| - 1]) + sep + parts[|parts| - 1]
  }

  /** The joined text holds every part once and one separator between neighbours. */
  lemma {:induction false} JoinLength(sep: string, parts: seq<string>)
    requires parts != []
    ensures |Join(sep, parts)| + |sep| == |Concat(parts)| + |sep| * |parts|
    decreases |parts|
  {
    if |parts| == 1 {
      assert Concat(parts) == Concat<char>([]) + parts[0];
    } else {
      var init := parts[..|parts| - 1];
      JoinLength(sep, init);
      assert |sep| * |parts| == |sep| * |init| + |sep|;
    }
  }

  /** The join splits at any part boundary: the parts keep their order. */
  lemma {:induction false} JoinSplit(sep: string, parts: seq<string>, k: nat)
    requires 0 < k < |parts|
    ensures Join(sep, parts) == Join(sep, parts[..k]) + sep + Join(sep, parts[k..])
    decreases |parts|
  {
    var n := |parts|;
    if k == n - 1 {
      assert parts[..n - 1] == parts[..k];
      assert parts[k..] == [parts[n - 1]];
    } else {
      var init := parts[..n - 1];
      JoinSplit(sep, init, k);
      assert init[..k] == parts[..k];
      var tail := parts[k..];
      assert tail[..|tail| - 1] == init[k..];
      assert tail[|tail| - 1] == parts[n - 1];
    }
  }

  // ---------------------------------------------------------------------------
  // str.replace(pat, rep)
  // ---------------------------------------------------------------------------

  /**
   * `s.replace(pat, rep)` for a non-empty `pat`: scans left to right and replaces
   * every non-overlapping occurrence.
   */
  function ReplaceAll(s: string, pat: string, rep: string): (r: string)
    requires pat != []
    ensures rep == pat ==> r == s
    decreases |s|
  {
    if |s| < |pat| then s
    else if s[..|pat|] == pat then rep + ReplaceAll(s[|pat|..], pat, rep)
    else [s[0]] + ReplaceAll(s[1..], pat, rep)
  }

  /** `s.count(pat)` for a non-empty `pat`: the non-overlapping occurrences, found left to right. */
  function Count(s: string, pat: string): nat
    requires pat != []
    decreases |s|
  {
    if |s| < |pat| then 0
    else if s[..|pat|] == pat then 1 + Count(s[|pat|..], pat)
    else Count(s[1..], pat)
  }

  /** Each occurrence `count` finds is replaced: the length changes by `len(rep) - len(pat)` per occurrence. */
  lemma {:induction false} ReplaceAllLength(s: string, pat: string, rep: string)
    requires pat != []
    ensures |ReplaceAll(s, pat, rep)| == |s| + (|rep| - |pat|) * Count(s, pat)
    decreases |s|
  {
    if |s| < |pat| {
    } else if s[..|pat|] == pat {
      var rest := s[|pat|..];
      ReplaceAllLength(rest, pat, rep);
      assert Count(s, pat) == 1 + Count(rest, pat);
      assert ReplaceAll(s, pat, rep) == rep + ReplaceAll(rest, pat, rep);
      MulSucc(|rep| - |pat|, Count(rest, pat));
    } else {
      ReplaceAllLength(s[1..], pat, rep);
      assert Count(s, pat) == Count(s[1..], pat);
      assert ReplaceAll(s, pat, rep) == [s[0]] + ReplaceAll(s[1..], pat, rep);
    }
  }

  lemma MulSucc(a: int, c: int)
    ensures a * (1 + c) == a + a * c
  {
  }

  /** An occurrence in `s[1..]` is an occurrence in `s`, one place later. */
  lemma OccursAtShift(s: string, pat: string, i: nat)
    requires s != []
    ensures OccursAt(s[1..], pat, i) ==> OccursAt(s, pat, i + 1)
  {
    if i + |pat| <= |s[1..]| {
      var shifted, direct := s[1..][i..i + |pat|], s[i + 1..i + 1 + |pat|];
      assert forall k :: 0 <= k < |pat| ==> shifted[k] == direct[k];
      assert shifted == direct;
    }
  }

  /** With no occurrence of `pat`, `replace` changes nothing. */
  lemma {:induction false} ReplaceAllAbsent(s: string, pat: string, rep: string)
    requires pat != []
    requires forall i :: 0 <= i ==> !OccursAt(s, pat, i)
    ensures ReplaceAll(s, pat, rep) == s
    decreases |s|
  {
    if |s| >= |pat| {
      assert !OccursAt(s, pat, 0);
      forall i | 0 <= i
        ensures !OccursAt(s[1..], pat, i)
      {
        OccursAtShift(s, pat, i);
      }
      ReplaceAllAbsent(s[1..], pat, rep);
      assert [s[0]] + s[1..] == s;
    }
  }

  // ---------------------------------------------------------------------------
  // str(n) for n >= 0
  // ---------------------------------------------------------------------------

  function DigitChar(d: nat): char
    requires d < 10
  {
    ('0' as int + d) as char
  }

  /** `str(n)`: the decimal digits of `n`, most significant first, no leading zero. */
  function NatToString(n: nat): (s: string)
    ensures s != []
    ensures forall i :: 0 <= i < |s| ==> '0' <= s[i] <= '9'
    decreases n
  {
    if n < 10 then [DigitChar(n)] else NatToString(n / 10) + [DigitChar(n % 10)]
  }

  /** `int(s)` for a string of decimal digits: the inverse of `NatToString`. */
  function ParseNat(s: string): nat
    requires forall i :: 0 <= i < |s| ==> '0' <= s[i] <= '9'
    decreases |s|
  {
    if s == [] then 0
    else ParseNat(s[..|s| - 1]) * 10 + (s[|s| - 1] as int - '0' as int)
  }

  lemma {:induction false} ParseNatToString(n: nat)
    ensures ParseNat(NatToString(n)) == n
    decreases n
  {
    if n >= 10 {
      var s := NatToString(n);
      assert s[..|s| - 1] == NatToString(n / 10);
      ParseNatToString(n / 10);
    }
  }

  /** Different numbers have different decimal strings. */
  lemma NatToStringInjective(m: nat, n: nat)
    requires NatToString(m) == NatToString(n)
    ensures m == n
  {
    ParseNatToString(m);
    ParseNatToString(n);
  }
}
