/**
 * The Python `str` built-ins the renderer relies on: `isspace` (also the
 * meaning of `\s` in a `str` pattern), the ASCII digit test, `strip()`,
 * `split('\n')` and its inverse `'\n'.join`, `startswith`, `endswith`,
 * substring search and the slice `s[k:-k]`.
 */
module PyStr {
  import opened Wrappers

  /** `c.isspace()`: the characters Python (and `\s`, and `str.strip()`) treat as whitespace. */
  predicate IsSpace(c: char) {
    || ('\t' <= c <= '\r')              // \t \n \v \f \r
    || ('\U{1C}' <= c <= ' ')           // file/group/record/unit separators, space
    || c == '\U{85}' || c == '\U{A0}' || c == '\U{1680}'
    || ('\U{2000}' <= c <= '\U{200A}')
    || c == '\U{2028}' || c == '\U{2029}' || c == '\U{202F}' || c == '\U{205F}' || c == '\U{3000}'
  }

  /** `\d`, restricted to the ASCII digits. */
  predicate IsDigit(c: char) {
    '0' <= c <= '9'
  }

  predicate AllSpace(s: string) {
    forall i :: 0 <= i < |s| ==> IsSpace(s[i])
  }

  /** `s.startswith(t)` */
  predicate StartsWith(s: string, t: string) {
    |t| <= |s| && s[..|t|] == t
  }

  /** A text that differs from `t` at index `k` does not start with `t`. */
  lemma DiffersAt(s: string, t: string, k: nat)
    requires k < |t| && k < |s| && s[k] != t[k]
    ensures !StartsWith(s, t)
  {
    if |t| <= |s| {
      assert s[..|t|][k] == s[k];
    }
  }

  /** `s.endswith(t)` */
  predicate EndsWith(s: string, t: string) {
    |t| <= |s| && s[|s| - |t|..] == t
  }

  /** `s.startswith(t, i)`: `t` occurs in `s` at index `i`. */
  predicate StartsWithAt(s: string, i: nat, t: string) {
    i + |t| <= |s| && forall k :: 0 <= k < |t| ==> s[i + k] == t[k]
  }

  /** A text that differs from `t` at offset `e` from `j` does not hold `t` at `j`. */
  lemma DiffersAtIndex(s: string, j: nat, t: string, e: nat)
    requires e < |t| && j + e < |s| && s[j + e] != t[e]
    ensures !StartsWithAt(s, j, t)
  {
  }

  /** `t in s` */
  predicate Contains(s: string, t: string) {
    exists i: nat :: i <= |s| && StartsWithAt(s, i, t)
  }

  /** The first index at or after `i` that holds a non-whitespace character, or `|s|`. */
  function SkipSpaces(s: string, i: nat): (j: nat)
    requires i <= |s|
    ensures i <= j <= |s| && (j == |s| || !IsSpace(s[j]))
    ensures forall k :: i <= k < j ==> IsSpace(s[k])
    decreases |s| - i
  {
    if i < |s| && IsSpace(s[i]) then SkipSpaces(s, i + 1) else i
  }

  /** The least `j >= lo` such that `s[j..hi]` is all whitespace. */
  function SkipSpacesBack(s: string, lo: nat, hi: nat): (j: nat)
    requires lo <= hi <= |s|
    ensures lo <= j <= hi && (j == lo || !IsSpace(s[j - 1]))
    ensures forall k :: j <= k < hi ==> IsSpace(s[k])
    decreases hi - lo
  {
    if lo < hi && IsSpace(s[hi - 1]) then SkipSpacesBack(s, lo, hi - 1) else hi
  }

  /** `s.strip()`: `s` without the whitespace at either end. */
  function Strip(s: string): string
  {
    var lo := SkipSpaces(s, 0);
    s[lo..SkipSpacesBack(s, lo, |s|)]
  }

  /** `strip()` keeps a slice of `s` that is empty or trimmed, and drops only whitespace around it. */
  lemma StripSpec(s: string)
    ensures var r, lo := Strip(s), SkipSpaces(s, 0); lo + |r| <= |s| && r == s[lo..lo + |r|]
    ensures var r, lo := Strip(s), SkipSpaces(s, 0); AllSpace(s[..lo]) && AllSpace(s[lo + |r|..])
    ensures Strip(s) == [] <==> AllSpace(s)
    ensures Strip(s) != [] ==> Trimmed(Strip(s))
  {
    var lo := SkipSpaces(s, 0);
    var hi := SkipSpacesBack(s, lo, |s|);
    assert lo < hi ==> s[lo..hi][0] == s[lo] && s[lo..hi][hi - lo - 1] == s[hi - 1];
  }

  /** Text with no whitespace at either end is its own `strip()`. */
  lemma StripTrimmed(s: string)
    requires Trimmed(s)
    ensures Strip(s) == s
  {
    assert SkipSpaces(s, 0) == 0;
    assert SkipSpacesBack(s, 0, |s|) == |s|;
  }

  /** Non-empty text with no whitespace at either end. */
  predicate Trimmed(t: string) {
    t != [] && !IsSpace(t[0]) && !IsSpace(t[|t| - 1])
  }

  /**
   * `strip()` removes exactly the whitespace padding: text `t` with
   * whitespace `a` before it and `b` after it strips to `t`.
   */
  lemma StripPadded(a: string, t: string, b: string)
    requires AllSpace(a) && AllSpace(b) && (t == [] || Trimmed(t))
    ensures Strip(a + t + b) == t
  {
    var s := a + t + b;
    if t == [] {
      assert s == a + b;
      assert AllSpace(s) by {
        forall k | 0 <= k < |s| ensures IsSpace(s[k]) {
          if k < |a| { assert s[k] == a[k]; } else { assert s[k] == b[k - |a|]; }
        }
      }
    } else {
      var lo := SkipSpaces(s, 0);
      assert s[|a|] == t[0];
      assert forall k :: 0 <= k < |a| ==> s[k] == a[k];
      var hi := SkipSpacesBack(s, lo, |s|);
      assert s[|a| + |t| - 1] == t[|t| - 1];
      assert forall k :: |a| + |t| <= k < |s| ==> s[k] == b[k - |a| - |t|];
      assert s[lo..hi] == t;
    }
  }

  /** Whitespace around a line does not change its `strip()`. */
  lemma StripPadding(a: string, s: string, b: string)
    requires AllSpace(a) && AllSpace(b)
    ensures Strip(a + s + b) == Strip(s)
  {
    var r := Strip(s);
    var lo := SkipSpaces(s, 0);
    var a', b' := s[..lo], s[lo + |r|..];
    assert s == a' + r + b';
    assert AllSpace(a + a') by {
      forall k | 0 <= k < |a + a'| ensures IsSpace((a + a')[k]) {
        if k < |a| { assert (a + a')[k] == a[k]; } else { assert (a + a')[k] == a'[k - |a|]; }
      }
    }
    assert AllSpace(b' + b) by {
      forall k | 0 <= k < |b' + b| ensures IsSpace((b' + b)[k]) {
        if k < |b'| { assert (b' + b)[k] == b'[k]; } else { assert (b' + b)[k] == b[k - |b'|]; }
      }
    }
    assert a + s + b == (a + a') + r + (b' + b);
    StripPadded(a + a', r, b' + b);
  }

  /** The number of occurrences of `c` in `s`. */
  function Count(s: string, c: char): nat {
    if s == [] then 0 else (if s[0] == c then 1 else 0) + Count(s[1..], c)
  }

  /** `s.split(sep)` for a one-character separator. */
  function Split(s: string, sep: char): (parts: seq<string>)
    ensures |parts| == Count(s, sep) + 1
    ensures forall k :: 0 <= k < |parts| ==> sep !in parts[k]
  {
    if s == [] then [""]
    else
      var rest := Split(s[1..], sep);
      if s[0] == sep then [""] + rest else [[s[0]] + rest[0]] + rest[1..]
  }

  /** `sep.join(parts)` */
  function Join(parts: seq<string>, sep: char): string
    requires parts != []
  {
    if |parts| == 1 then parts[0] else parts[0] + [sep] + Join(parts[1..], sep)
  }

  /** Splitting and joining again gives back the text. */
  lemma {:induction false} JoinSplit(s: string, sep: char)
    ensures Join(Split(s, sep), sep) == s
  {
    if s != [] {
      JoinSplit(s[1..], sep);
      var rest := Split(s[1..], sep);
      if s[0] != sep {
        if |rest| == 1 {
          assert Join(Split(s, sep), sep) == [s[0]] + rest[0];
        } else {
          assert ([s[0]] + rest[0]) + [sep] + Join(rest[1..], sep) == [s[0]] + (rest[0] + [sep] + Join(rest[1..], sep));
        }
        assert [s[0]] + s[1..] == s;
      }
    }
  }

  /** Joining separator-free parts and splitting again gives back the parts. */
  lemma {:induction false} SplitJoin(parts: seq<string>, sep: char)
    requires parts != []
    requires forall k :: 0 <= k < |parts| ==> sep !in parts[k]
    ensures Split(Join(parts, sep), sep) == parts
  {
    if |parts| == 1 {
      SplitNoSeparator(parts[0], sep);
    } else {
      var tail := Join(parts[1..], sep);
      SplitJoin(parts[1..], sep);
      SplitAfterSeparator(parts[0], tail, sep);
      assert Join(parts, sep) == parts[0] + [sep] + tail;
      assert [parts[0]] + parts[1..] == parts;
    }
  }

  lemma {:induction false} SplitNoSeparator(s: string, sep: char)
    requires sep !in s
    ensures Split(s, sep) == [s]
  {
    if s != [] {
      SplitNoSeparator(s[1..], sep);
      assert [s[0]] + s[1..] == s;
    }
  }

  lemma {:induction false} SplitAfterSeparator(a: string, b: string, sep: char)
    requires sep !in a
    ensures Split(a + [sep] + b, sep) == [a] + Split(b, sep)
  {
    if a == [] {
      assert a + [sep] + b == [sep] + b;
      assert ([sep] + b)[1..] == b;
    } else {
      assert (a + [sep] + b)[1..] == a[1..] + [sep] + b;
      SplitAfterSeparator(a[1..], b, sep);
      assert [a[0]] + a[1..] == a;
    }
  }

  /** Splitting at a separator splits the two sides independently. */
  lemma {:induction false} SplitConcat(x: string, y: string, sep: char)
    ensures Split(x + [sep] + y, sep) == Split(x, sep) + Split(y, sep)
  {
    if x == [] {
      assert x + [sep] + y == [sep] + y;
      assert ([sep] + y)[1..] == y;
    } else {
      assert (x + [sep] + y)[1..] == x[1..] + [sep] + y;
      SplitConcat(x[1..], y, sep);
    }
  }

  /** `s.find(t, i)`: the first index at or after `i` where `t` occurs. */
  function FindFrom(s: string, t: string, i: nat): (r: Option<nat>)
    requires i <= |s|
    ensures r.Some? ==> i <= r.value && StartsWithAt(s, r.value, t)
    ensures r.Some? ==> forall j :: i <= j < r.value ==> !StartsWithAt(s, j, t)
    ensures r.None? ==> forall j :: i <= j <= |s| ==> !StartsWithAt(s, j, t)
    decreases |s| - i
  {
    if StartsWithAt(s, i, t) then Some(i)
    else if i == |s| then None
    else FindFrom(s, t, i + 1)
  }

  /**
   * Python's reading of a slice bound `i` on a text of length `n`: a
   * negative index counts from the end, and the result is clamped to `0..n`.
   */
  function SliceBound(n: nat, i: int): (b: nat)
    ensures b <= n
    ensures 0 <= i <= n ==> b == i
    ensures -(n as int) <= i < 0 ==> b == n + i
    ensures i > n ==> b == n
    ensures i < -(n as int) ==> b == 0
  {
    var j := if i < 0 then i + n else i;
    if j < 0 then 0 else if j > n then n else j
  }

  /** Python's `s[a:b]` with step 1: empty once the bounds cross. */
  function PySlice(s: string, a: int, b: int): string
  {
    var lo, hi := SliceBound(|s|, a), SliceBound(|s|, b);
    if lo < hi then s[lo..hi] else []
  }

  /** `s[k:-k]` for `k >= 1`, written without negative indices; `SliceInnerIsPySlice` ties it to `PySlice`. */
  function SliceInner(s: string, k: nat): string
    requires k >= 1
  {
    if |s| >= 2 * k then s[k..|s| - k] else []
  }

  /** The slice without negative indices is Python's `s[k:-k]`. */
  lemma SliceInnerIsPySlice(s: string, k: nat)
    requires k >= 1
    ensures SliceInner(s, k) == PySlice(s, k, -(k as int))
  {
  }

  /**
   * `s[k:-k]` drops exactly `k` characters at each end: what is left and the
   * two ends rejoin into `s`; a text shorter than `2k` leaves nothing.
   */
  lemma SliceInnerRejoin(s: string, k: nat)
    requires k >= 1
    ensures |s| >= 2 * k ==> |SliceInner(s, k)| == |s| - 2 * k && s == s[..k] + SliceInner(s, k) + s[|s| - k..]
    ensures |s| < 2 * k ==> SliceInner(s, k) == []
  {
    if |s| >= 2 * k {
      assert s == s[..k] + s[k..|s| - k] + s[|s| - k..];
    }
  }

  /** The number of digits in `s[lo..hi]`. */
  function DigitsIn(s: string, lo: nat, hi: nat): nat
    requires lo <= hi <= |s|
    decreases hi - lo
  {
    if lo == hi then 0 else (if IsDigit(s[lo]) then 1 else 0) + DigitsIn(s, lo + 1, hi)
  }

  lemma {:induction false} DigitsSplit(s: string, lo: nat, mid: nat, hi: nat)
    requires lo <= mid <= hi <= |s|
    ensures DigitsIn(s, lo, hi) == DigitsIn(s, lo, mid) + DigitsIn(s, mid, hi)
    decreases mid - lo
  {
    if lo < mid {
      DigitsSplit(s, lo + 1, mid, hi);
    }
  }

  lemma {:induction false} DigitsAll(s: string, lo: nat, hi: nat)
    requires lo <= hi <= |s|
    requires forall j :: lo <= j < hi ==> IsDigit(s[j])
    ensures DigitsIn(s, lo, hi) == hi - lo
    decreases hi - lo
  {
    if lo < hi {
      DigitsAll(s, lo + 1, hi);
    }
  }

  /** A stretch holds no more digits than the whole text. */
  lemma DigitsWithin(s: string, lo: nat, hi: nat)
    requires lo <= hi <= |s|
    ensures DigitsIn(s, lo, hi) <= DigitsIn(s, 0, |s|)
  {
    DigitsSplit(s, 0, lo, |s|);
    DigitsSplit(s, lo, hi, |s|);
  }

  lemma {:induction false} DigitsPrefix(x: string, y: string, lo: nat, hi: nat)
    requires lo <= hi <= |x|
    ensures DigitsIn(x + y, lo, hi) == DigitsIn(x, lo, hi)
    decreases hi - lo
  {
    if lo < hi {
      assert (x + y)[lo] == x[lo];
      DigitsPrefix(x, y, lo + 1, hi);
    }
  }

  lemma {:induction false} DigitsShift(x: string, y: string, lo: nat, hi: nat)
    requires lo <= hi <= |y|
    ensures DigitsIn(x + y, |x| + lo, |x| + hi) == DigitsIn(y, lo, hi)
    decreases hi - lo
  {
    if lo < hi {
      assert (x + y)[|x| + lo] == y[lo];
      DigitsShift(x, y, lo + 1, hi);
    }
  }

  /** The digits of a concatenation are those of its parts. */
  lemma DigitsConcat(x: string, y: string)
    ensures DigitsIn(x + y, 0, |x + y|) == DigitsIn(x, 0, |x|) + DigitsIn(y, 0, |y|)
  {
    DigitsSplit(x + y, 0, |x|, |x + y|);
    DigitsPrefix(x, y, 0, |x|);
    DigitsShift(x, y, 0, |y|);
  }

  /** A text none of whose characters is a digit has no digits. */
  lemma {:induction false} NoDigits(s: string, i: nat)
    requires i <= |s| && forall c :: c in s ==> !IsDigit(c)
    ensures DigitsIn(s, i, |s|) == 0
    decreases |s| - i
  {
    if i < |s| {
      assert s[i] in s;
      NoDigits(s, i + 1);
    }
  }
}
