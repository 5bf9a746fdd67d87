/**
 * The part of Python's `re` module the inline formatter uses: a pattern of the
 * shape `lead(body)trail`, where `lead` and `trail` are literal text and the
 * capture group `body` is a sequence of quantified character classes, and
 * `re.sub(pattern, r'<tag>\1</tag>', s)`.
 *
 * Matching follows the backtracking engine: a greedy item first takes as many
 * characters as it may and gives them back one at a time, a lazy item first
 * takes as few as it may and takes one more at a time, and the first
 * combination that lets the rest of the pattern match wins. `re.sub` scans
 * left to right, replaces the leftmost match, and resumes after it.
 */
module Regex {
  import opened Wrappers
  import opened PyStr

  datatype CharClass =
    | Exactly(c: char)   // a literal such as `@`, `\.`, `\+`, `\(`
    | AnyButNewline      // `.`
    | NonSpace           // `\S`
    | Digit              // `\d`
    | Separator          // `[-.\s]`

  predicate InClass(k: CharClass, c: char) {
    match k
    case Exactly(d) => c == d
    case AnyButNewline => c != '\n'
    case NonSpace => !IsSpace(c)
    case Digit => IsDigit(c)
    case Separator => c == '-' || c == '.' || IsSpace(c)
  }

  datatype Bound = AtMost(n: nat) | Unbounded

  /** `cls{min,max}` when `greedy`, `cls{min,max}?` otherwise. */
  datatype Item = Item(cls: CharClass, min: nat, max: Bound, greedy: bool)

  /** The substitution `re.sub(r'lead(body)trail', r'<tag>\1</tag>', s)`. */
  datatype Rule = Rule(lead: string, body: seq<Item>, trail: string, tag: string)

  /** A literal character, matched once. */
  function Once(c: char): Item { Item(Exactly(c), 1, AtMost(1), true) }

  /** `k?` */
  function Maybe(k: CharClass): Item { Item(k, 0, AtMost(1), true) }

  /** `k+` */
  function Plus(k: CharClass): Item { Item(k, 1, Unbounded, true) }

  /** `k{m,n}` */
  function Between(k: CharClass, m: nat, n: nat): Item { Item(k, m, AtMost(n), true) }

  /** `.*?` */
  const LazyAny := Item(AnyButNewline, 0, Unbounded, false)

  /** The number of consecutive characters of class `k` starting at `p`. */
  function Run(k: CharClass, s: string, p: nat): (n: nat)
    requires p <= |s|
    ensures p + n <= |s|
    ensures forall j :: p <= j < p + n ==> InClass(k, s[j])
    ensures p + n == |s| || !InClass(k, s[p + n])
    decreases |s| - p
  {
    if p < |s| && InClass(k, s[p]) then 1 + Run(k, s, p + 1) else 0
  }

  /** How many characters `it` can take at `p`: its class's run, capped at its maximum. */
  function Avail(it: Item, s: string, p: nat): (n: nat)
    requires p <= |s|
    ensures p + n <= |s|
    ensures forall j :: p <= j < p + n ==> InClass(it.cls, s[j])
    ensures (it.max.AtMost? && n == it.max.n) || p + n == |s| || !InClass(it.cls, s[p + n])
    ensures it.max.AtMost? ==> n <= it.max.n
  {
    var r := Run(it.cls, s, p);
    match it.max
    case Unbounded => r
    case AtMost(m) => if r <= m then r else m
  }

  /** The fewest characters `items` can match. */
  function MinLen(items: seq<Item>): nat {
    if items == [] then 0 else items[0].min + MinLen(items[1..])
  }

  /**
   * Match `items` at `p`, followed by the literal `trail`; the result is where
   * the items' match ends (the end of the capture group), or None.
   */
  function MatchSeq(items: seq<Item>, s: string, p: nat, trail: string): (r: Option<nat>)
    requires p <= |s|
    ensures r.Some? ==> p + MinLen(items) <= r.value && StartsWithAt(s, r.value, trail)
    decreases |items|, 1, 0
  {
    if items == [] then
      if StartsWithAt(s, p, trail) then Some(p) else None
    else
      var n := Avail(items[0], s, p);
      if n < items[0].min then None
      else if items[0].greedy then TryDown(items, s, p, trail, n)
      else TryUp(items, s, p, trail, items[0].min)
  }

  /** Greedy backtracking: let `items[0]` take `k`, then `k - 1`, ... down to its minimum. */
  function TryDown(items: seq<Item>, s: string, p: nat, trail: string, k: nat): (r: Option<nat>)
    requires items != [] && p <= |s|
    requires items[0].min <= k <= Avail(items[0], s, p)
    ensures r.Some? ==> p + MinLen(items) <= r.value && StartsWithAt(s, r.value, trail)
    decreases |items|, 0, k
  {
    var r := MatchSeq(items[1..], s, p + k, trail);
    if r.Some? then r
    else if k == items[0].min then None
    else TryDown(items, s, p, trail, k - 1)
  }

  /** Lazy backtracking: let `items[0]` take `k`, then `k + 1`, ... up to what is available. */
  function TryUp(items: seq<Item>, s: string, p: nat, trail: string, k: nat): (r: Option<nat>)
    requires items != [] && p <= |s|
    requires items[0].min <= k <= Avail(items[0], s, p)
    ensures r.Some? ==> p + MinLen(items) <= r.value && StartsWithAt(s, r.value, trail)
    decreases |items|, 0, Avail(items[0], s, p) - k
  {
    var r := MatchSeq(items[1..], s, p + k, trail);
    if r.Some? then r
    else if k == Avail(items[0], s, p) then None
    else TryUp(items, s, p, trail, k + 1)
  }

  /** The rule's pattern cannot match the empty string, so `re.sub` always moves forward. */
  lemma MinLenFirst(items: seq<Item>)
    requires items != []
    ensures MinLen(items) >= items[0].min
  {
  }

  predicate WellFormed(rule: Rule) {
    |rule.lead| + MinLen(rule.body) + |rule.trail| >= 1
  }

  /** The pattern anchored at `i`: the end of the capture group, or None. */
  function MatchAt(rule: Rule, s: string, i: nat): (r: Option<nat>)
    requires i <= |s|
    ensures r.Some? ==> StartsWithAt(s, i, rule.lead) && StartsWithAt(s, r.value, rule.trail)
    ensures r.Some? ==> i + |rule.lead| + MinLen(rule.body) <= r.value
  {
    if StartsWithAt(s, i, rule.lead) then MatchSeq(rule.body, s, i + |rule.lead|, rule.trail) else None
  }

  function Open(tag: string): string { "<" + tag + ">" }

  function Close(tag: string): string { "</" + tag + ">" }

  /** `re.sub` applied to `s[i..]`. */
  function SubFrom(rule: Rule, s: string, i: nat): string
    requires WellFormed(rule) && i <= |s|
    decreases |s| - i
  {
    if i == |s| then []
    else
      match MatchAt(rule, s, i)
      case Some(g) =>
        Open(rule.tag) + s[i + |rule.lead|..g] + Close(rule.tag) + SubFrom(rule, s, g + |rule.trail|)
      case None => [s[i]] + SubFrom(rule, s, i + 1)
  }

  function Sub(rule: Rule, s: string): string
    requires WellFormed(rule)
  {
    SubFrom(rule, s, 0)
  }

  /** The rules applied one after another, each to the text the previous one produced. */
  function SubAll(rules: seq<Rule>, s: string): string
    requires forall k :: 0 <= k < |rules| ==> WellFormed(rules[k])
    decreases |rules|
  {
    if rules == [] then s else SubAll(rules[1..], Sub(rules[0], s))
  }

  lemma SubAllStep(rules: seq<Rule>, s: string)
    requires rules != [] && forall k :: 0 <= k < |rules| ==> WellFormed(rules[k])
    ensures SubAll(rules, s) == SubAll(rules[1..], Sub(rules[0], s))
  {
  }

  /** The number of matches `re.sub` replaces in `s[i..]`. */
  function MatchCount(rule: Rule, s: string, i: nat): nat
    requires WellFormed(rule) && i <= |s|
    decreases |s| - i
  {
    if i == |s| then 0
    else
      match MatchAt(rule, s, i)
      case Some(g) => 1 + MatchCount(rule, s, g + |rule.trail|)
      case None => MatchCount(rule, s, i + 1)
  }

  /** What one replacement adds to the length: the two tags minus the delimiters they replace. */
  function Growth(rule: Rule): int {
    |Open(rule.tag)| + |Close(rule.tag)| - |rule.lead| - |rule.trail|
  }

  /** Removes the tags a rule inserts, putting its delimiters back. */
  function Untag(rule: Rule, t: string): string
    decreases |t|
  {
    if t == [] then []
    else if StartsWith(t, Open(rule.tag)) then rule.lead + Untag(rule, t[|Open(rule.tag)|..])
    else if StartsWith(t, Close(rule.tag)) then rule.trail + Untag(rule, t[|Close(rule.tag)|..])
    else [t[0]] + Untag(rule, t[1..])
  }

  // ---------------------------------------------------------------------------
  // The matcher against a relational semantics

  /** `s[p..g]` can be cut into consecutive pieces, one per item, each within its item's bounds. */
  ghost predicate Spans(items: seq<Item>, s: string, p: nat, g: nat)
    decreases |items|
  {
    p <= g <= |s| &&
    if items == [] then p == g
    else exists q: nat :: p + items[0].min <= q <= p + Avail(items[0], s, p) && Spans(items[1..], s, q, g)
  }

  /** A span of an optional item followed by a required one starts with a character of one of their classes. */
  lemma SpansOptionalThen(items: seq<Item>, s: string, p: nat, g: nat)
    requires |items| >= 2 && items[0].max == AtMost(1) && items[1].min >= 1
    requires Spans(items, s, p, g)
    ensures p < |s| && (InClass(items[0].cls, s[p]) || InClass(items[1].cls, s[p]))
  {
    var q: nat :| p + items[0].min <= q <= p + Avail(items[0], s, p) && Spans(items[1..], s, q, g);
    if q == p {
      var rest := items[1..];
      assert rest[0] == items[1] && rest != [] && Spans(rest, s, p, g);
      var q2: nat :| p + rest[0].min <= q2 <= p + Avail(rest[0], s, p) && Spans(rest[1..], s, q2, g);
      assert Avail(rest[0], s, p) >= 1;
    }
  }

  /** Whatever the matcher returns is a genuine match of the items. */
  lemma {:induction false} MatchSeqSound(items: seq<Item>, s: string, p: nat, trail: string)
    requires p <= |s|
    ensures var r := MatchSeq(items, s, p, trail); r.Some? ==> Spans(items, s, p, r.value)
    decreases |items|, 1, 0
  {
    if items != [] {
      var n := Avail(items[0], s, p);
      if n >= items[0].min {
        if items[0].greedy {
          TryDownSound(items, s, p, trail, n);
        } else {
          TryUpSound(items, s, p, trail, items[0].min);
        }
      }
    }
  }

  /** Taking `k` characters for the first item, then spanning the rest, spans all the items. */
  lemma SpansStep(items: seq<Item>, s: string, p: nat, k: nat, g: nat)
    requires items != [] && p <= |s| && items[0].min <= k <= Avail(items[0], s, p)
    requires Spans(items[1..], s, p + k, g)
    ensures Spans(items, s, p, g)
  {
  }

  lemma {:induction false} TryDownSound(items: seq<Item>, s: string, p: nat, trail: string, k: nat)
    requires items != [] && p <= |s|
    requires items[0].min <= k <= Avail(items[0], s, p)
    ensures var r := TryDown(items, s, p, trail, k); r.Some? ==> Spans(items, s, p, r.value)
    decreases |items|, 0, k
  {
    var r := MatchSeq(items[1..], s, p + k, trail);
    MatchSeqSound(items[1..], s, p + k, trail);
    if r.Some? {
      SpansStep(items, s, p, k, r.value);
    } else if k > items[0].min {
      TryDownSound(items, s, p, trail, k - 1);
    }
  }

  lemma {:induction false} TryUpSound(items: seq<Item>, s: string, p: nat, trail: string, k: nat)
    requires items != [] && p <= |s|
    requires items[0].min <= k <= Avail(items[0], s, p)
    ensures var r := TryUp(items, s, p, trail, k); r.Some? ==> Spans(items, s, p, r.value)
    decreases |items|, 0, Avail(items[0], s, p) - k
  {
    var r := MatchSeq(items[1..], s, p + k, trail);
    MatchSeqSound(items[1..], s, p + k, trail);
    if r.Some? {
      SpansStep(items, s, p, k, r.value);
    } else if k < Avail(items[0], s, p) {
      TryUpSound(items, s, p, trail, k + 1);
    }
  }

  /** If the items can match up to some `g` followed by the trail, the matcher finds a match. */
  lemma {:induction false} MatchSeqComplete(items: seq<Item>, s: string, p: nat, trail: string, g: nat)
    requires Spans(items, s, p, g) && StartsWithAt(s, g, trail)
    ensures MatchSeq(items, s, p, trail).Some?
    decreases |items|
  {
    if items != [] {
      var q: nat :| p + items[0].min <= q <= p + Avail(items[0], s, p) && Spans(items[1..], s, q, g);
      MatchSeqComplete(items[1..], s, q, trail, g);
      var n := Avail(items[0], s, p);
      if items[0].greedy {
        TryDownFinds(items, s, p, trail, n, q);
      } else {
        TryUpFinds(items, s, p, trail, items[0].min, q);
      }
    }
  }

  lemma {:induction false} TryDownFinds(items: seq<Item>, s: string, p: nat, trail: string, k: nat, q: nat)
    requires items != [] && p <= |s|
    requires items[0].min <= k <= Avail(items[0], s, p)
    requires p + items[0].min <= q <= p + k && MatchSeq(items[1..], s, q, trail).Some?
    ensures TryDown(items, s, p, trail, k).Some?
    decreases k
  {
    if q < p + k && MatchSeq(items[1..], s, p + k, trail).None? {
      TryDownFinds(items, s, p, trail, k - 1, q);
    }
  }

  lemma {:induction false} TryUpFinds(items: seq<Item>, s: string, p: nat, trail: string, k: nat, q: nat)
    requires items != [] && p <= |s|
    requires items[0].min <= k <= Avail(items[0], s, p)
    requires p + k <= q <= p + Avail(items[0], s, p) && MatchSeq(items[1..], s, q, trail).Some?
    ensures TryUp(items, s, p, trail, k).Some?
    decreases Avail(items[0], s, p) - k
  {
    if p + k < q && MatchSeq(items[1..], s, p + k, trail).None? {
      TryUpFinds(items, s, p, trail, k + 1, q);
    }
  }

  // ---------------------------------------------------------------------------
  // The scan of re.sub

  /** A stretch with no match anywhere is copied through unchanged. */
  lemma {:induction false} SubSkip(rule: Rule, s: string, i: nat, j: nat)
    requires WellFormed(rule) && i <= j <= |s|
    requires forall k :: i <= k < j ==> MatchAt(rule, s, k).None?
    ensures SubFrom(rule, s, i) == s[i..j] + SubFrom(rule, s, j)
    decreases j - i
  {
    if i < j {
      SubSkip(rule, s, i + 1, j);
      assert [s[i]] + s[i + 1..j] == s[i..j];
    }
  }

  /** `re.sub` returns its input when the pattern matches nowhere. */
  lemma SubUnchanged(rule: Rule, s: string)
    requires WellFormed(rule)
    requires forall k :: 0 <= k < |s| ==> MatchAt(rule, s, k).None?
    ensures Sub(rule, s) == s
  {
    SubSkip(rule, s, 0, |s|);
  }

  /** The scan replaces nothing exactly when the pattern matches at no position. */
  lemma {:induction false} NoMatchCount(rule: Rule, s: string, i: nat)
    requires WellFormed(rule) && i <= |s|
    ensures MatchCount(rule, s, i) == 0 <==> forall k :: i <= k < |s| ==> MatchAt(rule, s, k).None?
    decreases |s| - i
  {
    if i < |s| {
      var m := MatchAt(rule, s, i);
      if m.Some? {
        SubFromHit(rule, s, i, m.value, m.value + |rule.trail|);
      } else {
        SubFromMiss(rule, s, i);
        NoMatchCount(rule, s, i + 1);
      }
    }
  }

  /** One step of the scan at a match. */
  lemma SubFromHit(rule: Rule, s: string, i: nat, g: nat, h: nat)
    requires WellFormed(rule) && i < |s| && MatchAt(rule, s, i) == Some(g) && h == g + |rule.trail|
    ensures i + |rule.lead| <= g && h <= |s|
    ensures SubFrom(rule, s, i) == Open(rule.tag) + s[i + |rule.lead|..g] + Close(rule.tag) + SubFrom(rule, s, h)
    ensures MatchCount(rule, s, i) == 1 + MatchCount(rule, s, h)
  {
  }

  /** One step of the scan where nothing matches. */
  lemma SubFromMiss(rule: Rule, s: string, i: nat)
    requires WellFormed(rule) && i < |s| && MatchAt(rule, s, i).None?
    ensures SubFrom(rule, s, i) == [s[i]] + SubFrom(rule, s, i + 1)
    ensures MatchCount(rule, s, i) == MatchCount(rule, s, i + 1)
  {
  }

  /** Each replacement changes the length by the rule's growth, and nothing else does. */
  lemma {:induction false} SubLength(rule: Rule, s: string, i: nat)
    requires WellFormed(rule) && i <= |s|
    ensures |SubFrom(rule, s, i)| == |s| - i + Growth(rule) * MatchCount(rule, s, i)
    decreases |s| - i
  {
    if i < |s| {
      var m := MatchAt(rule, s, i);
      if m.Some? {
        var g := m.value;
        var h := g + |rule.trail|;
        SubFromHit(rule, s, i, g, h);
        SubLength(rule, s, h);
        var rest := SubFrom(rule, s, h);
        assert |SubFrom(rule, s, i)| == |Open(rule.tag)| + (g - i - |rule.lead|) + |Close(rule.tag)| + |rest|;
        LengthStep(|Open(rule.tag)|, |Close(rule.tag)|, |rule.lead|, |rule.trail|, |s|, i, g, MatchCount(rule, s, h), Growth(rule));
      } else {
        SubFromMiss(rule, s, i);
        SubLength(rule, s, i + 1);
      }
    }
  }

  /** Each replacement changes the length by the rule's growth. */
  lemma PassLength(rule: Rule, s: string)
    requires WellFormed(rule)
    ensures |Sub(rule, s)| == |s| + Growth(rule) * MatchCount(rule, s, 0)
  {
    SubLength(rule, s, 0);
  }

  lemma LengthStep(o: nat, c: nat, lead: nat, trail: nat, len: nat, i: nat, g: nat, n: nat, growth: int)
    requires growth == o + c - lead - trail
    ensures o + (g - i - lead) + c + (len - (g + trail) + growth * n) == len - i + growth * (1 + n)
  {
    MulStep(growth, n);
  }

  lemma MulStep(a: int, n: nat)
    ensures a * (1 + n) == a + a * n
  {
  }

  /** When the tags grow the text, `re.sub` leaves it alone exactly when nothing matches. */
  lemma SubUnchangedIff(rule: Rule, s: string)
    requires WellFormed(rule) && Growth(rule) > 0
    ensures Sub(rule, s) == s <==> forall k :: 0 <= k < |s| ==> MatchAt(rule, s, k).None?
  {
    SubLength(rule, s, 0);
    NoMatchCount(rule, s, 0);
    var n := MatchCount(rule, s, 0);
    if n == 0 {
      SubUnchanged(rule, s);
    } else {
      MulPos(Growth(rule), n);
      assert |Sub(rule, s)| > |s|;
    }
  }

  lemma MulPos(a: int, n: nat)
    requires a > 0 && n > 0
    ensures a * n > 0
  {
  }

  lemma {:induction false} UntagPlain(rule: Rule, x: string, y: string)
    requires '<' !in x
    ensures Untag(rule, x + y) == x + Untag(rule, y)
  {
    if x != [] {
      assert (x + y)[0] == x[0] && (x + y)[1..] == x[1..] + y;
      DiffersAt(x + y, Open(rule.tag), 0);
      DiffersAt(x + y, Close(rule.tag), 0);
      assert Untag(rule, x + y) == [x[0]] + Untag(rule, x[1..] + y);
      UntagPlain(rule, x[1..], y);
      assert [x[0]] + (x[1..] + Untag(rule, y)) == ([x[0]] + x[1..]) + Untag(rule, y);
      assert [x[0]] + x[1..] == x;
    } else {
      assert x + y == y;
    }
  }

  lemma UntagAfterOpen(rule: Rule, y: string)
    ensures Untag(rule, Open(rule.tag) + y) == rule.lead + Untag(rule, y)
  {
    var o := Open(rule.tag);
    assert (o + y)[..|o|] == o && (o + y)[|o|..] == y;
  }

  lemma UntagAfterClose(rule: Rule, y: string)
    requires rule.tag != [] && rule.tag[0] != '/'
    ensures Untag(rule, Close(rule.tag) + y) == rule.trail + Untag(rule, y)
  {
    var o, c := Open(rule.tag), Close(rule.tag);
    assert (c + y)[..|c|] == c && (c + y)[|c|..] == y;
    assert (c + y)[1] == '/' && o[1] == rule.tag[0];
    DiffersAt(c + y, o, 1);
  }

  /** The tags of a rule start with `<`, so on text without `<` removing them restores `re.sub`'s input. */
  lemma {:induction false} UntagSub(rule: Rule, s: string, i: nat)
    requires WellFormed(rule) && i <= |s|
    requires '<' !in s
    requires rule.tag != [] && rule.tag[0] != '/'
    ensures Untag(rule, SubFrom(rule, s, i)) == s[i..]
    decreases |s| - i
  {
    if i < |s| {
      var m := MatchAt(rule, s, i);
      if m.Some? {
        var h := m.value + |rule.trail|;
        UntagSub(rule, s, h);
        UntagHit(rule, s, i, m.value, h);
      } else {
        SubFromMiss(rule, s, i);
        UntagSub(rule, s, i + 1);
        UntagMiss(rule, s, i);
      }
    }
  }

  lemma UntagHit(rule: Rule, s: string, i: nat, g: nat, h: nat)
    requires WellFormed(rule) && i < |s| && MatchAt(rule, s, i) == Some(g) && h == g + |rule.trail|
    requires '<' !in s
    requires rule.tag != [] && rule.tag[0] != '/'
    requires Untag(rule, SubFrom(rule, s, h)) == s[h..]
    ensures Untag(rule, SubFrom(rule, s, i)) == s[i..]
  {
    var t, rest := SubFrom(rule, s, i), SubFrom(rule, s, h);
    assert t == Open(rule.tag) + s[i + |rule.lead|..g] + Close(rule.tag) + rest by { SubFromHit(rule, s, i, g, h); }
    assert StartsWithAt(s, i, rule.lead) && StartsWithAt(s, g, rule.trail) && i + |rule.lead| <= g;
    UntagPieces(rule, s, i, g, h, t, rest);
  }

  /** The text one replacement and the rest of the scan make untags to the text they came from. */
  lemma UntagPieces(rule: Rule, s: string, i: nat, g: nat, h: nat, t: string, rest: string)
    requires i + |rule.lead| <= g && h == g + |rule.trail| <= |s|
    requires StartsWithAt(s, i, rule.lead) && StartsWithAt(s, g, rule.trail)
    requires '<' !in s
    requires rule.tag != [] && rule.tag[0] != '/'
    requires t == Open(rule.tag) + s[i + |rule.lead|..g] + Close(rule.tag) + rest
    requires Untag(rule, rest) == s[h..]
    ensures Untag(rule, t) == s[i..]
  {
    var inner := s[i + |rule.lead|..g];
    assert '<' !in inner by {
      forall j | 0 <= j < |inner| ensures inner[j] != '<' { assert inner[j] == s[i + |rule.lead| + j]; }
    }
    UntagWrapped(rule, inner, rest);
    assert s[i..i + |rule.lead|] == rule.lead && s[g..h] == rule.trail;
    SliceAround(s, i, i + |rule.lead|, g, h);
  }

  lemma SliceAround(s: string, i: nat, a: nat, g: nat, h: nat)
    requires i <= a <= g <= h <= |s|
    ensures s[i..] == s[i..a] + s[a..g] + s[g..h] + s[h..]
  {
  }

  /** Untagging one replacement gives back the delimited text. */
  lemma UntagWrapped(rule: Rule, inner: string, rest: string)
    requires '<' !in inner
    requires rule.tag != [] && rule.tag[0] != '/'
    ensures Untag(rule, Open(rule.tag) + inner + Close(rule.tag) + rest) ==
      rule.lead + inner + rule.trail + Untag(rule, rest)
  {
    var o, c, u := Open(rule.tag), Close(rule.tag), Untag(rule, rest);
    assert Untag(rule, c + rest) == rule.trail + u by { UntagAfterClose(rule, rest); }
    assert Untag(rule, inner + (c + rest)) == inner + (rule.trail + u) by { UntagPlain(rule, inner, c + rest); }
    assert Untag(rule, o + (inner + (c + rest))) == rule.lead + (inner + (rule.trail + u)) by {
      UntagAfterOpen(rule, inner + (c + rest));
    }
    Regroup(o, inner, c, rest);
    Regroup(rule.lead, inner, rule.trail, u);
  }

  lemma Regroup(a: string, b: string, c: string, d: string)
    ensures a + b + c + d == a + (b + (c + d))
  {
  }

  lemma UntagMiss(rule: Rule, s: string, i: nat)
    requires WellFormed(rule) && i < |s| && MatchAt(rule, s, i).None?
    requires '<' !in s
    requires Untag(rule, SubFrom(rule, s, i + 1)) == s[i + 1..]
    ensures Untag(rule, SubFrom(rule, s, i)) == s[i..]
  {
    SubFromMiss(rule, s, i);
    assert s[i] != '<';
    UntagPlain(rule, [s[i]], SubFrom(rule, s, i + 1));
    assert [s[i]] + s[i + 1..] == s[i..];
  }

  // ---------------------------------------------------------------------------
  // Characterisations used by the inline formatter's patterns

  /** A run of class `k` reaches at least as far as any stretch of class-`k` characters. */
  lemma {:induction false} RunCovers(k: CharClass, s: string, p: nat, g: nat)
    requires p <= g <= |s|
    requires forall j :: p <= j < g ==> InClass(k, s[j])
    ensures g <= p + Run(k, s, p)
    decreases g - p
  {
    if p < g {
      RunCovers(k, s, p + 1, g);
    }
  }

  /** Starting `j` characters into a run leaves the rest of the same run. */
  lemma {:induction false} RunSuffix(k: CharClass, s: string, p: nat, j: nat)
    requires p <= |s| && j <= Run(k, s, p)
    ensures Run(k, s, p + j) == Run(k, s, p) - j
    decreases j
  {
    if j > 0 {
      RunSuffix(k, s, p + 1, j - 1);
    }
  }

  lemma {:induction false} LazyAnyFrom(s: string, p: nat, trail: string, k: nat, g: nat)
    requires p <= |s| && k <= Run(AnyButNewline, s, p)
    ensures TryUp([LazyAny], s, p, trail, k) == Some(g) <==>
      && p + k <= g <= p + Run(AnyButNewline, s, p)
      && StartsWithAt(s, g, trail)
      && forall j :: p + k <= j < g ==> !StartsWithAt(s, j, trail)
    decreases Run(AnyButNewline, s, p) - k
  {
    assert [LazyAny][1..] == [];
    if !StartsWithAt(s, p + k, trail) && k < Run(AnyButNewline, s, p) {
      LazyAnyFrom(s, p, trail, k + 1, g);
    }
  }

  /** `.*?` followed by `trail` ends at the nearest `trail` with no line break before it. */
  lemma LazyAnyMatch(s: string, p: nat, trail: string, g: nat)
    requires p <= |s|
    ensures MatchSeq([LazyAny], s, p, trail) == Some(g) <==>
      && p <= g
      && StartsWithAt(s, g, trail)
      && forall j :: p <= j < g ==> s[j] != '\n' && !StartsWithAt(s, j, trail)
  {
    LazyAnyFrom(s, p, trail, 0, g);
    var n := Run(AnyButNewline, s, p);
    if p <= g && StartsWithAt(s, g, trail) && forall j :: p <= j < g ==> s[j] != '\n' {
      RunCovers(AnyButNewline, s, p, g);
    }
  }

  /** Some greedy choice from the minimum up to `k` lets the rest of the items match. */
  ghost predicate SomeChoiceUpTo(items: seq<Item>, s: string, p: nat, trail: string, k: nat)
    requires items != [] && p + k <= |s|
  {
    exists q :: p + items[0].min <= q <= p + k && MatchSeq(items[1..], s, q, trail).Some?
  }

  /** Every greedy choice from the minimum up to `k` leads to no match or to a match ending at `e`. */
  ghost predicate UniformUpTo(items: seq<Item>, s: string, p: nat, trail: string, k: nat, e: nat)
    requires items != [] && p + k <= |s|
  {
    forall q :: p + items[0].min <= q <= p + k ==>
      MatchSeq(items[1..], s, q, trail) == None || MatchSeq(items[1..], s, q, trail) == Some(e)
  }

  /**
   * Greedy backtracking when every choice for `items[0]` leads either to no
   * match or to the same end `e`: the result is `e` if any choice works.
   */
  lemma {:induction false} TryDownUniform(items: seq<Item>, s: string, p: nat, trail: string, k: nat, e: nat)
    requires items != [] && p <= |s|
    requires items[0].min <= k <= Avail(items[0], s, p)
    requires UniformUpTo(items, s, p, trail, k, e)
    ensures TryDown(items, s, p, trail, k) == if SomeChoiceUpTo(items, s, p, trail, k) then Some(e) else None
    decreases k
  {
    var r := MatchSeq(items[1..], s, p + k, trail);
    if r.Some? {
      UniformHit(items, s, p, trail, k, e);
    } else if k > items[0].min {
      UniformShrink(items, s, p, trail, k, e);
      TryDownUniform(items, s, p, trail, k - 1, e);
    } else {
      UniformLast(items, s, p, trail, k);
    }
  }

  lemma UniformHit(items: seq<Item>, s: string, p: nat, trail: string, k: nat, e: nat)
    requires items != [] && p <= |s|
    requires items[0].min <= k <= Avail(items[0], s, p)
    requires UniformUpTo(items, s, p, trail, k, e)
    requires MatchSeq(items[1..], s, p + k, trail).Some?
    ensures TryDown(items, s, p, trail, k) == Some(e) && SomeChoiceUpTo(items, s, p, trail, k)
  {
  }

  lemma UniformShrink(items: seq<Item>, s: string, p: nat, trail: string, k: nat, e: nat)
    requires items != [] && p <= |s|
    requires items[0].min < k <= Avail(items[0], s, p)
    requires UniformUpTo(items, s, p, trail, k, e)
    requires MatchSeq(items[1..], s, p + k, trail).None?
    ensures UniformUpTo(items, s, p, trail, k - 1, e)
    ensures TryDown(items, s, p, trail, k) == TryDown(items, s, p, trail, k - 1)
    ensures SomeChoiceUpTo(items, s, p, trail, k) == SomeChoiceUpTo(items, s, p, trail, k - 1)
  {
    if SomeChoiceUpTo(items, s, p, trail, k) {
      var q :| p + items[0].min <= q <= p + k && MatchSeq(items[1..], s, q, trail).Some?;
      assert q <= p + (k - 1);
    }
  }

  lemma UniformLast(items: seq<Item>, s: string, p: nat, trail: string, k: nat)
    requires items != [] && p <= |s|
    requires items[0].min == k <= Avail(items[0], s, p)
    requires MatchSeq(items[1..], s, p + k, trail).None?
    ensures TryDown(items, s, p, trail, k) == None && !SomeChoiceUpTo(items, s, p, trail, k)
  {
  }

  /** The digits a pattern's items require at least. */
  function MinDigits(items: seq<Item>): nat {
    if items == [] then 0 else (if items[0].cls == Digit then items[0].min else 0) + MinDigits(items[1..])
  }

  /** Any text the items match holds at least the digits they require. */
  lemma {:induction false} SpansDigits(items: seq<Item>, s: string, p: nat, g: nat)
    requires Spans(items, s, p, g)
    ensures DigitsIn(s, p, g) >= MinDigits(items)
    decreases |items|
  {
    if items != [] {
      var q: nat :| p + items[0].min <= q <= p + Avail(items[0], s, p) && Spans(items[1..], s, q, g);
      SpansDigits(items[1..], s, q, g);
      DigitsSplit(s, p, q, g);
      if items[0].cls == Digit {
        DigitsAll(s, p, q);
      }
    }
  }

  // ---------------------------------------------------------------------------
  // Locality: a match at a position depends only on the text from there on

  function ShiftBy(r: Option<nat>, d: nat): Option<nat> {
    match r
    case None => None
    case Some(v) => Some(v + d)
  }

  // Matching at `d + p` in `s` is matching at `p` in the suffix `y == s[d..]`,
  // with positions shifted by `d`: the patterns look at no text before the
  // position they start from.

  lemma StartsWithAtOff(s: string, d: nat, y: string, p: nat, t: string)
    requires d <= |s| && s[d..] == y && p <= |y|
    ensures StartsWithAt(s, d + p, t) == StartsWithAt(y, p, t)
  {
    if p + |t| <= |y| {
      forall m | p <= m < p + |t| ensures s[d + m] == y[m] {
        assert y[m] == s[d..][m];
      }
    }
  }

  lemma {:induction false} RunOff(k: CharClass, s: string, d: nat, y: string, p: nat)
    requires d <= |s| && s[d..] == y && p <= |y|
    ensures Run(k, s, d + p) == Run(k, y, p)
    decreases |y| - p
  {
    if p < |y| {
      assert s[d + p] == s[d..][p];
      RunOff(k, s, d, y, p + 1);
    }
  }

  lemma AvailOff(it: Item, s: string, d: nat, y: string, p: nat)
    requires d <= |s| && s[d..] == y && p <= |y|
    ensures Avail(it, s, d + p) == Avail(it, y, p)
  {
    RunOff(it.cls, s, d, y, p);
  }

  lemma {:induction false} MatchSeqOff(items: seq<Item>, s: string, d: nat, y: string, p: nat, trail: string)
    requires d <= |s| && s[d..] == y && p <= |y|
    ensures MatchSeq(items, s, d + p, trail) == ShiftBy(MatchSeq(items, y, p, trail), d)
    decreases |items|, 1, 0
  {
    if items == [] {
      StartsWithAtOff(s, d, y, p, trail);
    } else {
      AvailOff(items[0], s, d, y, p);
      var n := Avail(items[0], y, p);
      if n >= items[0].min {
        if items[0].greedy {
          TryDownOff(items, s, d, y, p, trail, n);
        } else {
          TryUpOff(items, s, d, y, p, trail, items[0].min);
        }
      }
    }
  }

  lemma {:induction false} TryDownOff(items: seq<Item>, s: string, d: nat, y: string, p: nat, trail: string, k: nat)
    requires items != [] && d <= |s| && s[d..] == y && p <= |y|
    requires items[0].min <= k <= Avail(items[0], y, p)
    ensures Avail(items[0], s, d + p) == Avail(items[0], y, p)
    ensures TryDown(items, s, d + p, trail, k) == ShiftBy(TryDown(items, y, p, trail, k), d)
    decreases |items|, 0, k
  {
    assert |y| == |s| - d;
    AvailOff(items[0], s, d, y, p);
    MatchSeqOff(items[1..], s, d, y, p + k, trail);
    if k > items[0].min {
      TryDownOff(items, s, d, y, p, trail, k - 1);
    }
    TryDownStep(items, s, d, y, p, trail, k);
  }

  lemma TryDownStep(items: seq<Item>, s: string, d: nat, y: string, p: nat, trail: string, k: nat)
    requires items != [] && p <= |y| && d + |y| <= |s|
    requires items[0].min <= k <= Avail(items[0], y, p)
    requires Avail(items[0], s, d + p) == Avail(items[0], y, p)
    requires MatchSeq(items[1..], s, d + (p + k), trail) == ShiftBy(MatchSeq(items[1..], y, p + k, trail), d)
    requires k > items[0].min ==>
      TryDown(items, s, d + p, trail, k - 1) == ShiftBy(TryDown(items, y, p, trail, k - 1), d)
    ensures TryDown(items, s, d + p, trail, k) == ShiftBy(TryDown(items, y, p, trail, k), d)
  {
  }

  lemma {:induction false} TryUpOff(items: seq<Item>, s: string, d: nat, y: string, p: nat, trail: string, k: nat)
    requires items != [] && d <= |s| && s[d..] == y && p <= |y|
    requires items[0].min <= k <= Avail(items[0], y, p)
    ensures Avail(items[0], s, d + p) == Avail(items[0], y, p)
    ensures TryUp(items, s, d + p, trail, k) == ShiftBy(TryUp(items, y, p, trail, k), d)
    decreases |items|, 0, Avail(items[0], y, p) - k
  {
    assert |y| == |s| - d;
    AvailOff(items[0], s, d, y, p);
    MatchSeqOff(items[1..], s, d, y, p + k, trail);
    if k < Avail(items[0], y, p) {
      TryUpOff(items, s, d, y, p, trail, k + 1);
    }
    TryUpStep(items, s, d, y, p, trail, k);
  }

  lemma TryUpStep(items: seq<Item>, s: string, d: nat, y: string, p: nat, trail: string, k: nat)
    requires items != [] && p <= |y| && d + |y| <= |s|
    requires items[0].min <= k <= Avail(items[0], y, p)
    requires Avail(items[0], s, d + p) == Avail(items[0], y, p)
    requires MatchSeq(items[1..], s, d + (p + k), trail) == ShiftBy(MatchSeq(items[1..], y, p + k, trail), d)
    requires k < Avail(items[0], y, p) ==>
      TryUp(items, s, d + p, trail, k + 1) == ShiftBy(TryUp(items, y, p, trail, k + 1), d)
    ensures TryUp(items, s, d + p, trail, k) == ShiftBy(TryUp(items, y, p, trail, k), d)
  {
  }

  /** Text in front of a position does not change what matches there. */
  lemma MatchSeqShift(items: seq<Item>, x: string, y: string, p: nat, trail: string)
    requires p <= |y|
    ensures MatchSeq(items, x + y, |x| + p, trail) == ShiftBy(MatchSeq(items, y, p, trail), |x|)
  {
    assert (x + y)[|x|..] == y;
    MatchSeqOff(items, x + y, |x|, y, p, trail);
  }

  lemma MatchAtOff(rule: Rule, s: string, d: nat, y: string, i: nat)
    requires d <= |s| && s[d..] == y && i <= |y|
    ensures MatchAt(rule, s, d + i) == ShiftBy(MatchAt(rule, y, i), d)
  {
    StartsWithAtOff(s, d, y, i, rule.lead);
    if StartsWithAt(y, i, rule.lead) {
      MatchSeqOff(rule.body, s, d, y, i + |rule.lead|, rule.trail);
    }
  }

  /** The scan from a position depends only on the text from there on. */
  lemma SubFromShift(rule: Rule, x: string, y: string, i: nat)
    requires WellFormed(rule) && i <= |y|
    ensures SubFrom(rule, x + y, |x| + i) == SubFrom(rule, y, i)
  {
    assert (x + y)[|x|..] == y;
    SubFromSuffix(rule, x + y, |x|, y, i);
  }

  /** The scan of `s` from `d + i` is the scan of its suffix `y == s[d..]` from `i`. */
  lemma {:induction false} SubFromSuffix(rule: Rule, s: string, d: nat, y: string, i: nat)
    requires WellFormed(rule) && d <= |s| && s[d..] == y && i <= |y|
    ensures SubFrom(rule, s, d + i) == SubFrom(rule, y, i)
    decreases |y| - i
  {
    if i == |y| {
      assert d + i == |s|;
    } else {
      MatchAtOff(rule, s, d, y, i);
      var r := MatchAt(rule, y, i);
      if r.Some? {
        var h := r.value + |rule.trail|;
        SubFromSuffix(rule, s, d, y, h);
        ShiftHitStep(rule, s, d, y, i, r.value, h);
      } else {
        SubFromSuffix(rule, s, d, y, i + 1);
        ShiftMissStep(rule, s, d, y, i);
      }
    }
  }

  /** A hit at `i` in `y` is the same hit at `d + i` in a text whose part from `d` on is `y`. */
  lemma ShiftHitStep(rule: Rule, s: string, d: nat, y: string, i: nat, g: nat, h: nat)
    requires WellFormed(rule) && d <= |s| && s[d..] == y && i < |y| && h == g + |rule.trail|
    requires MatchAt(rule, y, i) == Some(g) && MatchAt(rule, s, d + i) == Some(d + g)
    requires SubFrom(rule, s, d + h) == SubFrom(rule, y, h)
    ensures SubFrom(rule, s, d + i) == SubFrom(rule, y, i)
  {
    assert i + |rule.lead| <= g <= |y| by { assert StartsWithAt(y, g, rule.trail); }
    DropSlice(s, d, y, i + |rule.lead|, g);
    HitStepsAgree(rule, s, d + i, d + g, d + h, y, i, g, h);
  }

  lemma DropSlice(s: string, d: nat, y: string, lo: nat, hi: nat)
    requires d <= |s| && s[d..] == y && lo <= hi <= |y|
    ensures s[d + lo..d + hi] == y[lo..hi]
  {
    assert forall k :: lo <= k < hi ==> s[d + k] == s[d..][k];
  }

  /** A miss at `i` in `y` is a miss at `d + i` in `s`, and both copy the same character. */
  lemma ShiftMissStep(rule: Rule, s: string, d: nat, y: string, i: nat)
    requires WellFormed(rule) && d <= |s| && s[d..] == y && i < |y|
    requires MatchAt(rule, y, i).None? && MatchAt(rule, s, d + i).None?
    requires SubFrom(rule, s, d + i + 1) == SubFrom(rule, y, i + 1)
    ensures SubFrom(rule, s, d + i) == SubFrom(rule, y, i)
  {
    assert s[d + i] == s[d..][i];
    MissStepsAgree(rule, s, d + i, y, i);
  }

  /** Two scans that replace the same text at their current match and agree afterwards agree. */
  lemma HitStepsAgree(rule: Rule, s: string, i: nat, g: nat, gh: nat, t: string, j: nat, h: nat, hh: nat)
    requires WellFormed(rule) && i < |s| && j < |t|
    requires MatchAt(rule, s, i) == Some(g) && MatchAt(rule, t, j) == Some(h)
    requires gh == g + |rule.trail| && hh == h + |rule.trail|
    requires s[i + |rule.lead|..g] == t[j + |rule.lead|..h]
    requires SubFrom(rule, s, gh) == SubFrom(rule, t, hh)
    ensures SubFrom(rule, s, i) == SubFrom(rule, t, j)
  {
    SubFromHit(rule, s, i, g, gh);
    SubFromHit(rule, t, j, h, hh);
  }

  /** Two scans that copy the same character at their current position and agree afterwards agree. */
  lemma MissStepsAgree(rule: Rule, s: string, i: nat, t: string, j: nat)
    requires WellFormed(rule) && i < |s| && j < |t|
    requires MatchAt(rule, s, i).None? && MatchAt(rule, t, j).None? && s[i] == t[j]
    requires SubFrom(rule, s, i + 1) == SubFrom(rule, t, j + 1)
    ensures SubFrom(rule, s, i) == SubFrom(rule, t, j)
  {
    SubFromMiss(rule, s, i);
    SubFromMiss(rule, t, j);
  }

  /** A prefix where no match starts is copied through, and the scan goes on with the rest. */
  lemma SubConcatPlain(rule: Rule, x: string, y: string)
    requires WellFormed(rule)
    requires forall k :: 0 <= k < |x| ==> MatchAt(rule, x + y, k).None?
    ensures Sub(rule, x + y) == x + Sub(rule, y)
  {
    SubSkip(rule, x + y, 0, |x|);
    assert (x + y)[0..|x|] == x;
    SubFromShift(rule, x, y, 0);
  }

  /** A match covering exactly `m` is replaced, and the scan goes on with the rest. */
  lemma SubConcatHit(rule: Rule, m: string, y: string)
    requires WellFormed(rule) && |rule.lead| + |rule.trail| <= |m|
    requires MatchAt(rule, m + y, 0) == Some(|m| - |rule.trail|)
    ensures Sub(rule, m + y) ==
      Open(rule.tag) + m[|rule.lead|..|m| - |rule.trail|] + Close(rule.tag) + Sub(rule, y)
  {
    var g := |m| - |rule.trail|;
    var s := m + y;
    var inner := m[|rule.lead|..g];
    SubAtFront(rule, s, g, |m|);
    assert s[|rule.lead|..g] == inner;
    SubAfterPrefix(rule, m, y);
  }

  lemma SubAtFront(rule: Rule, s: string, g: nat, h: nat)
    requires WellFormed(rule) && MatchAt(rule, s, 0) == Some(g) && h == g + |rule.trail|
    ensures |rule.lead| <= g <= h <= |s|
    ensures Sub(rule, s) == Open(rule.tag) + s[|rule.lead|..g] + Close(rule.tag) + SubFrom(rule, s, h)
  {
    assert |s| > 0;
    SubFromHit(rule, s, 0, g, h);
  }

  /** Once the scan is past a prefix it goes on as a scan of the rest. */
  lemma SubAfterPrefix(rule: Rule, x: string, y: string)
    requires WellFormed(rule)
    ensures SubFrom(rule, x + y, |x|) == Sub(rule, y)
  {
    SubFromShift(rule, x, y, 0);
  }

  // ---------------------------------------------------------------------------
  // Greedy items on a given text: the first choice that lets the rest match wins

  lemma {:induction false} TryDownReach(items: seq<Item>, s: string, p: nat, trail: string, j: nat, k: nat)
    requires items != [] && p <= |s|
    requires items[0].min <= k <= j <= Avail(items[0], s, p)
    requires forall q :: p + k < q <= p + j ==> MatchSeq(items[1..], s, q, trail).None?
    ensures TryDown(items, s, p, trail, j) == TryDown(items, s, p, trail, k)
    decreases j
  {
    if k < j {
      assert MatchSeq(items[1..], s, p + j, trail).None?;
      TryDownReach(items, s, p, trail, j - 1, k);
    }
  }

  /**
   * A greedy first item takes the most characters `k` after which the rest of
   * the items still match.
   */
  lemma GreedyTake(items: seq<Item>, s: string, p: nat, trail: string, k: nat, e: nat)
    requires items != [] && items[0].greedy && p <= |s|
    requires items[0].min <= k <= Avail(items[0], s, p)
    requires forall q :: p + k < q <= p + Avail(items[0], s, p) ==> MatchSeq(items[1..], s, q, trail).None?
    requires MatchSeq(items[1..], s, p + k, trail) == Some(e)
    ensures MatchSeq(items, s, p, trail) == Some(e)
  {
    TryDownReach(items, s, p, trail, Avail(items[0], s, p), k);
  }

  /** A greedy first item that cannot give way to the rest makes the whole sequence fail. */
  lemma GreedyFail(items: seq<Item>, s: string, p: nat, trail: string)
    requires items != [] && items[0].greedy && p <= |s|
    requires items[0].min <= Avail(items[0], s, p)
    requires forall q :: p + items[0].min <= q <= p + Avail(items[0], s, p) ==>
      MatchSeq(items[1..], s, q, trail).None?
    ensures MatchSeq(items, s, p, trail).None?
  {
    TryDownReach(items, s, p, trail, Avail(items[0], s, p), items[0].min);
  }

  /** `lead + w + trail` matched as a whole at the front becomes `<tag>w</tag>`. */
  lemma SubConcatWrap(rule: Rule, w: string, y: string)
    requires WellFormed(rule)
    requires MatchAt(rule, rule.lead + w + rule.trail + y, 0) == Some(|rule.lead| + |w|)
    ensures Sub(rule, rule.lead + w + rule.trail + y) == Open(rule.tag) + w + Close(rule.tag) + Sub(rule, y)
  {
    var m := rule.lead + w + rule.trail;
    assert m + y == rule.lead + w + rule.trail + y;
    assert m[|rule.lead|..|m| - |rule.trail|] == w;
    SubConcatHit(rule, m, y);
  }

  /** A pattern without delimiters that matches the whole text wraps it. */
  lemma WholeMatch(rule: Rule, m: string)
    requires WellFormed(rule) && rule.lead == [] && rule.trail == [] && MatchAt(rule, m, 0) == Some(|m|)
    ensures Sub(rule, m) == Open(rule.tag) + m + Close(rule.tag)
  {
    assert |m| > 0;
    SubFromHit(rule, m, 0, |m|, |m|);
    assert m[0..|m|] == m;
  }

  /** A text made only of characters of class `k` is one run. */
  lemma RunWhole(k: CharClass, s: string)
    requires forall c :: c in s ==> InClass(k, c)
    ensures Run(k, s, 0) == |s|
  {
    forall j | 0 <= j < |s| ensures InClass(k, s[j]) {
      assert s[j] in s;
    }
    RunCovers(k, s, 0, |s|);
  }

  /** A run of class `k` that stops at `p + n` has length `n`. */
  lemma RunExact(k: CharClass, s: string, p: nat, n: nat)
    requires p + n <= |s|
    requires forall j :: p <= j < p + n ==> InClass(k, s[j])
    requires p + n == |s| || !InClass(k, s[p + n])
    ensures Run(k, s, p) == n
  {
    RunCovers(k, s, p, p + n);
  }

  /** What an item can take at the front of `c + t` when `c` is of its class and `t` stops it. */
  lemma AvailGroup(it: Item, c: string, t: string)
    requires forall ch :: ch in c ==> InClass(it.cls, ch)
    requires it.max.AtMost? ==> |c| <= it.max.n
    requires t == [] || !InClass(it.cls, t[0]) || it.max == AtMost(|c|)
    ensures Avail(it, c + t, 0) == |c|
  {
    var s := c + t;
    forall j | 0 <= j < |c| ensures InClass(it.cls, s[j]) {
      assert s[j] == c[j] && c[j] in c;
    }
    RunCovers(it.cls, s, 0, |c|);
    if t != [] && !InClass(it.cls, t[0]) {
      assert s[|c|] == t[0];
      RunExact(it.cls, s, 0, |c|);
    }
  }

  /**
   * A greedy first item takes all of `c` when `c` is made of its class and
   * `t` stops the run (or its maximum is reached), and the rest match `t`.
   */
  lemma TakeGroup(items: seq<Item>, c: string, t: string)
    requires items != [] && items[0].greedy && items[0].min <= |c|
    requires forall ch :: ch in c ==> InClass(items[0].cls, ch)
    requires items[0].max.AtMost? ==> |c| <= items[0].max.n
    requires t == [] || !InClass(items[0].cls, t[0]) || items[0].max == AtMost(|c|)
    requires MatchSeq(items[1..], t, 0, "") == Some(|t|)
    ensures MatchSeq(items, c + t, 0, "") == Some(|c + t|)
  {
    AvailGroup(items[0], c, t);
    TakeGroupRest(items[1..], c, t);
    GreedyAll(items, c + t, 0, "", |c|, |c + t|);
  }

  lemma TakeGroupRest(rest: seq<Item>, c: string, t: string)
    requires MatchSeq(rest, t, 0, "") == Some(|t|)
    ensures MatchSeq(rest, c + t, |c|, "") == Some(|c + t|)
  {
    MatchSeqShift(rest, c, t, 0, "");
  }

  /** A greedy first item that takes all it can, with the rest matching after it, settles there. */
  lemma GreedyAll(items: seq<Item>, s: string, p: nat, trail: string, n: nat, e: nat)
    requires items != [] && items[0].greedy && p <= |s|
    requires n == Avail(items[0], s, p) && items[0].min <= n
    requires MatchSeq(items[1..], s, p + n, trail) == Some(e)
    ensures MatchSeq(items, s, p, trail) == Some(e)
  {
  }

  /** Matching at `p` is matching at the start of `s[p..]`, shifted by `p`. */
  lemma MatchSeqAtSuffix(items: seq<Item>, s: string, p: nat, trail: string)
    requires p <= |s|
    ensures MatchSeq(items, s, p, trail) == ShiftBy(MatchSeq(items, s[p..], 0, trail), p)
  {
    MatchSeqOff(items, s, p, s[p..], 0, trail);
  }
}
