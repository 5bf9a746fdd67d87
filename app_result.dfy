/**
 * How app.py splits the model's reply into the optimised resume and the
 * suggestions section: at the first "## Sugerencias adicionales".
 */
module AppResult {
  import opened Wrappers
  import opened PyStr

  const Marker := "## Sugerencias adicionales"
  const NoSuggestions := "No se devolvieron sugerencias."

  /** `s.split(sep, maxsplit=1)` for a non-empty separator. */
  function SplitOnce(s: string, sep: string): (parts: seq<string>)
    requires sep != []
    ensures 1 <= |parts| <= 2
  {
    match FindFrom(s, sep, 0)
    case None => [s]
    case Some(i) => [s[..i], s[i + |sep|..]]
  }

  /** The two texts the page shows. */
  datatype Sections = Sections(resume: string, suggestions: string)

  function SplitResult(result: string): Sections
  {
    var parts := SplitOnce(result, Marker);
    var resume := Strip(parts[0]);
    var suggestions := if |parts| > 1 then Marker + "\n" + Strip(parts[1]) else NoSuggestions;
    Sections(resume, suggestions)
  }

  /**
   * Splitting once cuts the text at the first separator: the separator
   * rejoins the parts, it starts right after the first part, no occurrence
   * of it starts earlier, and the first part holds no separator.
   */
  lemma SplitOnceParts(s: string, sep: string)
    requires sep != []
    ensures var parts := SplitOnce(s, sep);
      (|parts| == 1 <==> !Contains(s, sep)) &&
      (|parts| == 1 ==> parts[0] == s) &&
      (|parts| == 2 ==> parts[0] + sep + parts[1] == s) &&
      (|parts| == 2 ==> StartsWithAt(s, |parts[0]|, sep)) &&
      (|parts| == 2 ==> forall j: nat :: j < |parts[0]| ==> !StartsWithAt(s, j, sep)) &&
      !Contains(parts[0], sep)
  {
    var parts := SplitOnce(s, sep);
    match FindFrom(s, sep, 0)
    case None =>
    case Some(i) =>
      assert s[..i] + sep + s[i + |sep|..] == s by {
        assert s[i..i + |sep|] == sep;
        assert s == s[..i] + s[i..i + |sep|] + s[i + |sep|..];
      }
      forall j: nat | j <= i ensures !StartsWithAt(s[..i], j, sep) {
        if j + |sep| <= i {
          assert s[..i][j..j + |sep|] == s[j..j + |sep|];
          assert !StartsWithAt(s, j, sep);
        }
      }
  }

  /** The resume part never contains the marker. */
  lemma ResumeHasNoMarker(result: string)
    ensures !Contains(SplitResult(result).resume, Marker)
  {
    var parts := SplitOnce(result, Marker);
    SplitOnceParts(result, Marker);
    StripNoNew(parts[0], Marker);
  }

  /** Text that does not contain `t` does not contain it after `strip()`. */
  lemma StripNoNew(s: string, t: string)
    requires !Contains(s, t)
    ensures !Contains(Strip(s), t)
  {
    var r := Strip(s);
    var lo := SkipSpaces(s, 0);
    forall j: nat | j <= |r| ensures !StartsWithAt(r, j, t) {
      if j + |t| <= |r| && StartsWithAt(r, j, t) {
        forall k | 0 <= k < |t| ensures s[lo + j + k] == t[k] {
          assert r[j + k] == s[lo + j + k];
        }
        assert StartsWithAt(s, lo + j, t);
      }
    }
  }

  /**
   * There are no suggestions exactly when the marker is missing; the resume
   * is then the whole reply, stripped.
   */
  lemma MarkerMissing(result: string)
    ensures SplitResult(result).suggestions == NoSuggestions <==> !Contains(result, Marker)
    ensures !Contains(result, Marker) ==> SplitResult(result).resume == Strip(result)
  {
    SplitOnceParts(result, Marker);
    var parts := SplitOnce(result, Marker);
    if |parts| > 1 {
      assert (Marker + "\n" + Strip(parts[1]))[0] == '#';
    }
  }

  /** The marker overlaps no occurrence of itself: no proper prefix of it is also a suffix. */
  lemma MarkerNoOverlap(s: string, k: nat, j: nat)
    requires StartsWithAt(s, k, Marker) && j < k < j + |Marker|
    ensures !StartsWithAt(s, j, Marker)
  {
    var d := k - j;
    assert s[k + 0] == Marker[0] && s[k + 1] == Marker[1];
    if d == 1 {
      assert s[j + 2] == '#';
      DiffersAtIndex(s, j, Marker, 2);
    } else {
      assert s[j + d] == '#';
      assert forall e :: 2 <= e < |Marker| ==> Marker[e] != '#';
      DiffersAtIndex(s, j, Marker, d);
    }
  }

  /** Text after a prefix adds no occurrence that starts and ends inside it. */
  lemma NotInPrefix(a: string, rest: string, j: nat)
    requires j + |Marker| <= |a| && !StartsWithAt(a, j, Marker)
    ensures !StartsWithAt(a + rest, j, Marker)
  {
    var e :| 0 <= e < |Marker| && a[j + e] != Marker[e];
    assert (a + rest)[j + e] == a[j + e];
    DiffersAtIndex(a + rest, j, Marker, e);
  }

  /**
   * A reply made of a resume without the marker, the marker and a tail
   * splits into the stripped resume and the marker's line followed by the
   * stripped tail.
   */
  lemma SplitAtMarker(a: string, b: string)
    requires !Contains(a, Marker)
    ensures SplitResult(a + Marker + b) == Sections(Strip(a), Marker + "\n" + Strip(b))
  {
    var s := a + Marker + b;
    assert StartsWithAt(s, |a|, Marker) by {
      forall k | 0 <= k < |Marker| ensures s[|a| + k] == Marker[k] {
        assert (a + Marker)[|a| + k] == Marker[k];
      }
    }
    forall j: nat | j < |a| ensures !StartsWithAt(s, j, Marker) {
      if j + |Marker| <= |a| {
        NotInPrefix(a, Marker + b, j);
        assert a + (Marker + b) == s;
      } else {
        MarkerNoOverlap(s, |a|, j);
      }
    }
    FindFirst(s, Marker, |a|);
    assert s[..|a|] == a;
    assert s[|a| + |Marker|..] == b;
  }

  /** `find` returns an occurrence that no earlier one precedes. */
  lemma FindFirst(s: string, t: string, k: nat)
    requires StartsWithAt(s, k, t)
    requires forall j: nat :: j < k ==> !StartsWithAt(s, j, t)
    ensures FindFrom(s, t, 0) == Some(k)
  {
    var r := FindFrom(s, t, 0);
    assert r.Some?;
  }
}
