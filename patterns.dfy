/**
 * The regular expressions the action applies to fetched text, as deterministic scanners.
 *
 * Each pattern is a literal followed by greedy digit runs separated by literals that are not
 * digits, so a greedy run never has to give characters back: matching at a position is a
 * function of the text from that position on, and a search is the first position that matches.
 */
module Patterns {
  import opened Wrappers
  import opened Decimal

  /** Greedy `\d*` at the start of `s`: its longest prefix made of digits. */
  function DigitRun(s: string): (d: string)
    ensures d <= s && AllDigits(d)
    ensures |d| == |s| || !IsDigit(s[|d|])
  {
    if s != [] && IsDigit(s[0]) then [s[0]] + DigitRun(s[1..]) else []
  }

  lemma {:induction false} DigitRunOf(d: string, rest: string)
    requires AllDigits(d)
    requires rest == [] || !IsDigit(rest[0])
    ensures DigitRun(d + rest) == d
  {
    if d != [] {
      DigitRunOf(d[1..], rest);
      assert (d + rest)[1..] == d[1..] + rest;
    }
  }

  // ---------------------------------------------------------------------------------------
  // `text.match(/PHP_VERSION_ID < (\d+)/)` and `text.match(/PHP_VERSION_ID >= (\d+)/)`

  /** `key(\d+)` tried at the start of `t`: the captured digits, or none. */
  function MatchKeyDigits(t: string, key: string): (m: Option<string>)
    ensures m.Some? ==> m.value != [] && AllDigits(m.value) && key + m.value <= t
    ensures m.Some? ==> |key| + |m.value| == |t| || !IsDigit(t[|key| + |m.value|])
    ensures m.None? ==> !(key <= t) || |t| == |key| || !IsDigit(t[|key|])
  {
    if key <= t then
      var d := DigitRun(t[|key|..]);
      assert t == key + t[|key|..];
      if d == [] then None else Some(d)
    else None
  }

  /** The capture group of `t.match(key(\d+))`, searching from the left; none where it gives null. */
  function FirstMatch(t: string, key: string): (m: Option<string>)
    ensures m.Some? ==> m.value != [] && AllDigits(m.value)
    decreases |t|
  {
    match MatchKeyDigits(t, key)
    case Some(d) => Some(d)
    case None => if t == [] then None else FirstMatch(t[1..], key)
  }

  /**
   * The search finds nothing exactly when the pattern matches at no position, and otherwise
   * returns the capture at the leftmost position where it matches.
   */
  lemma {:induction false} FirstMatchLeftmost(t: string, key: string)
    ensures FirstMatch(t, key).None? <==> forall p :: 0 <= p <= |t| ==> MatchKeyDigits(t[p..], key).None?
    ensures FirstMatch(t, key).Some? ==>
              exists p :: 0 <= p <= |t| && MatchKeyDigits(t[p..], key) == FirstMatch(t, key)
                          && forall q :: 0 <= q < p ==> MatchKeyDigits(t[q..], key).None?
    decreases |t|
  {
    assert t[0..] == t;
    if MatchKeyDigits(t, key).None? && t != [] {
      var u := t[1..];
      FirstMatchLeftmost(u, key);
      assert forall p :: 1 <= p <= |t| ==> t[p..] == u[p - 1..];
      if FirstMatch(t, key).Some? {
        var p :| 0 <= p <= |u| && MatchKeyDigits(u[p..], key) == FirstMatch(u, key)
                 && forall q :: 0 <= q < p ==> MatchKeyDigits(u[q..], key).None?;
        assert t[p + 1..] == u[p..];
        forall q | 0 <= q < p + 1 ensures MatchKeyDigits(t[q..], key).None? {
          if q > 0 {
            assert t[q..] == u[q - 1..];
          }
        }
      } else {
        forall p | 0 <= p <= |t| ensures MatchKeyDigits(t[p..], key).None? {
          if p > 0 {
            assert t[p..] == u[p - 1..];
          }
        }
      }
    }
  }

  /** A prefix where the key starts at no position is skipped by the search. */
  lemma {:induction false} FirstMatchAfter(pre: string, t: string, key: string)
    requires forall p :: 0 <= p < |pre| ==> !(key <= (pre + t)[p..])
    ensures FirstMatch(pre + t, key) == FirstMatch(t, key)
    decreases |pre|
  {
    if pre == [] {
      assert pre + t == t;
    } else {
      var u := pre + t;
      assert u[0..] == u;
      assert u[1..] == pre[1..] + t;
      forall p | 0 <= p < |pre| - 1 ensures !(key <= (pre[1..] + t)[p..]) {
        assert (pre[1..] + t)[p..] == u[p + 1..];
      }
      FirstMatchAfter(pre[1..], t, key);
    }
  }

  // ---------------------------------------------------------------------------------------
  // `[...html.matchAll(/<h2>(\d+\.\d+\.\d+)<\/h2>/g)].map(m => m[1])`

  const Open: string := "<h2>"
  const Close: string := "</h2>"

  /** Greedy `\d+\.` at the start of `u`: the length of the digits, when a dot follows them. */
  function DottedRun(u: string): (n: Option<nat>)
    ensures n.Some? ==> n.value < |u|
  {
    var x := DigitRun(u);
    if x != [] && |x| < |u| && u[|x|] == '.' then Some(|x|) else None
  }

  /** Greedy `\d+\.\d+\.\d+` at the start of `u`: its length, or 0 when `u` does not start with one. */
  function TripleLength(u: string): (n: nat)
    ensures n <= |u|
  {
    match DottedRun(u)
    case None => 0
    case Some(a) =>
      var u2 := u[a + 1..];
      match DottedRun(u2)
      case None => 0
      case Some(b) =>
        var z := DigitRun(u2[b + 1..]);
        if z == [] then 0 else a + 1 + b + 1 + |z|
  }

  lemma DottedRunOf(x: string, rest: string)
    requires x != [] && AllDigits(x)
    ensures DottedRun(x + ['.'] + rest) == Some(|x|)
    ensures (x + ['.'] + rest)[|x| + 1..] == rest
  {
    var u := x + ['.'] + rest;
    assert u == x + (['.'] + rest);
    DigitRunOf(x, ['.'] + rest);
  }

  /**
   * The heading pattern tried at the start of `t`: the capture and the length of the match. A
   * match starts with `<h2>`, captures the text of a release, and goes on to the `</h2>` that
   * directly follows it.
   */
  function MatchHeading(t: string): (m: Option<(string, nat)>)
    ensures m.Some? ==> Open <= t && m.value.1 == |Open| + |m.value.0| + |Close| <= |t|
    ensures m.Some? ==> IsReleaseText(m.value.0) && t[|Open|..|Open| + |m.value.0|] == m.value.0
    ensures m.Some? ==> Close <= t[|Open| + |m.value.0|..]
  {
    if Open <= t then
      var n := TripleLength(t[|Open|..]);
      if n > 0 && Close <= t[|Open| + n..] then
        HeadingCapture(t, n);
        Some((t[|Open|..|Open| + n], |Open| + n + |Close|))
      else None
    else None
  }

  /** Text of the form `\d+\.\d+\.\d+`: the version text of some release. */
  ghost predicate IsReleaseText(g: string) {
    exists r :: ValidRelease(r) && ReleaseText(r) == g
  }

  lemma HeadingCapture(t: string, n: nat)
    requires Open <= t && n == TripleLength(t[|Open|..]) && n > 0
    ensures IsReleaseText(t[|Open|..|Open| + n])
  {
    TripleShape(t[|Open|..]);
    assert t[|Open|..][..n] == t[|Open|..|Open| + n];
  }

  lemma SplitAtPrefix(u: string, x: string)
    requires x <= u
    ensures u == x + u[|x|..]
  {
  }

  lemma SplitAtDot(u: string, x: string)
    requires x <= u && |x| < |u| && u[|x|] == '.'
    ensures u == x + ['.'] + u[|x| + 1..]
  {
    assert u == u[..|x|] + [u[|x|]] + u[|x| + 1..];
  }

  lemma TriplePrefix(u: string, x: string, y: string, z: string, rest: string, n: nat)
    requires u == x + ['.'] + (y + ['.'] + (z + rest))
    requires n == |x| + 1 + |y| + 1 + |z|
    ensures u[..n] == ReleaseText(Release(x, y, z))
  {
    assert u == ReleaseText(Release(x, y, z)) + rest;
  }

  /** A dotted run splits its text into digits, a dot, and the rest. */
  lemma DottedRunSplit(u: string)
    requires DottedRun(u).Some?
    ensures DottedRun(u).value == |DigitRun(u)| && DigitRun(u) != []
    ensures u == DigitRun(u) + ['.'] + u[|DigitRun(u)| + 1..]
  {
    SplitAtDot(u, DigitRun(u));
  }

  /** What a successful triple scan covers is a release's version text. */
  lemma TripleShape(u: string)
    requires TripleLength(u) > 0
    ensures IsReleaseText(u[..TripleLength(u)])
  {
    DottedRunSplit(u);
    var x := DigitRun(u);
    var u2 := u[|x| + 1..];
    DottedRunSplit(u2);
    var y := DigitRun(u2);
    var u3 := u2[|y| + 1..];
    var z := DigitRun(u3);
    var n := TripleLength(u);
    assert n == |x| + 1 + |y| + 1 + |z| && z != [];
    var rest := u3[|z|..];
    SplitAtPrefix(u3, z);
    assert u == x + ['.'] + (y + ['.'] + (z + rest));
    TriplePrefix(u, x, y, z, rest, n);
    assert ValidRelease(Release(x, y, z));
  }

  /** Every heading capture of `t`, in order; each search resumes where the last match ended. */
  function Headings(t: string): seq<string>
    decreases |t|
  {
    if t == [] then []
    else
      match MatchHeading(t)
      case Some((g, n)) => [g] + Headings(t[n..])
      case None => Headings(t[1..])
  }

  /** A release's version text `major.minor.patch` as it appears in a heading. */
  datatype Release = Release(major: string, minor: string, patch: string)

  predicate ValidRelease(r: Release) {
    && r.major != [] && AllDigits(r.major)
    && r.minor != [] && AllDigits(r.minor)
    && r.patch != [] && AllDigits(r.patch)
  }

  function ReleaseText(r: Release): string {
    r.major + ['.'] + r.minor + ['.'] + r.patch
  }

  lemma TripleLengthOf(x: string, y: string, z: string, rest: string)
    requires x != [] && AllDigits(x) && y != [] && AllDigits(y) && z != [] && AllDigits(z)
    requires rest == [] || !IsDigit(rest[0])
    ensures TripleLength(x + ['.'] + (y + ['.'] + (z + rest))) == |x| + 1 + |y| + 1 + |z|
  {
    var u3 := z + rest;
    var u2 := y + ['.'] + u3;
    DottedRunOf(x, u2);
    DottedRunOf(y, u3);
    DigitRunOf(z, rest);
  }

  lemma TripleLengthOfRelease(r: Release, rest: string)
    requires ValidRelease(r)
    requires rest == [] || !IsDigit(rest[0])
    ensures TripleLength(ReleaseText(r) + rest) == |ReleaseText(r)|
  {
    assert ReleaseText(r) + rest == r.major + ['.'] + (r.minor + ['.'] + (r.patch + rest));
    TripleLengthOf(r.major, r.minor, r.patch, rest);
  }

  /** A release text stops the triple before a closing tag. */
  lemma TripleLengthBeforeClose(r: Release, rest: string)
    requires ValidRelease(r)
    ensures |ReleaseText(r)| > 0
    ensures TripleLength(ReleaseText(r) + (Close + rest)) == |ReleaseText(r)|
  {
    var tail := Close + rest;
    assert tail[0] == Close[0];
    TripleLengthOfRelease(r, tail);
  }

  lemma MatchHeadingOf(v: string, rest: string)
    requires |v| > 0 && TripleLength(v + (Close + rest)) == |v|
    ensures MatchHeading(Open + (v + (Close + rest))) == Some((v, |Open| + |v| + |Close|))
  {
    var tail := Close + rest;
    var t := Open + (v + tail);
    assert Open <= t;
    assert t[|Open|..] == v + tail;
    assert t[|Open| + |v|..] == tail;
    assert Close <= tail;
    assert t[|Open|..|Open| + |v|] == v;
  }

  /** A heading whose text is a whole version triple is captured, and the scan resumes after it. */
  lemma HeadingOfText(v: string, rest: string)
    requires |v| > 0 && TripleLength(v + (Close + rest)) == |v|
    ensures Headings(Open + (v + (Close + rest))) == [v] + Headings(rest)
  {
    var t := Open + (v + (Close + rest));
    var n := |Open| + |v| + |Close|;
    assert MatchHeading(t) == Some((v, n)) by {
      MatchHeadingOf(v, rest);
    }
    assert t[n..] == rest by {
      SuffixAfter(Open, v, Close, rest);
    }
    HeadingsOfMatch(t, v, n, rest);
  }

  lemma SuffixAfter(a: string, b: string, c: string, rest: string)
    ensures (a + (b + (c + rest)))[|a| + |b| + |c|..] == rest
  {
    assert a + (b + (c + rest)) == (a + b + c) + rest;
  }

  lemma HeadingsOfMatch(t: string, g: string, n: nat, rest: string)
    requires MatchHeading(t) == Some((g, n)) && n <= |t| && t[n..] == rest
    ensures Headings(t) == [g] + Headings(rest)
  {
  }

  /** A heading holding a release is captured, and the scan goes on right after it. */
  lemma HeadingAtStart(r: Release, rest: string)
    requires ValidRelease(r)
    ensures Headings(Open + (ReleaseText(r) + (Close + rest))) == [ReleaseText(r)] + Headings(rest)
  {
    TripleLengthBeforeClose(r, rest);
    HeadingOfText(ReleaseText(r), rest);
  }

  /** Every capture of the heading scan is the version text of some release. */
  lemma {:induction false} HeadingsAreReleases(t: string)
    ensures forall g :: g in Headings(t) ==> IsReleaseText(g)
    decreases |t|
  {
    if t != [] {
      match MatchHeading(t)
      case Some((g, n)) =>
        HeadingsAreReleases(t[n..]);
      case None =>
        HeadingsAreReleases(t[1..]);
    }
  }

  /** Text where no heading match starts is skipped by the scan. */
  lemma {:induction false} HeadingsSkip(junk: string, rest: string)
    requires forall p :: 0 <= p < |junk| ==> MatchHeading((junk + rest)[p..]).None?
    ensures Headings(junk + rest) == Headings(rest)
    decreases |junk|
  {
    if junk == [] {
      assert junk + rest == rest;
    } else {
      var t := junk + rest;
      assert t[0..] == t;
      assert t[1..] == junk[1..] + rest;
      forall p | 0 <= p < |junk| - 1 ensures MatchHeading((junk[1..] + rest)[p..]).None? {
        assert (junk[1..] + rest)[p..] == t[p + 1..];
      }
      HeadingsSkip(junk[1..], rest);
    }
  }

  /** Markup in which no `<h2>` occurs. */
  predicate PlainMarkup(m: string) {
    forall p :: 0 <= p < |m| ==> !(Open <= m[p..])
  }

  /**
   * No heading match starts inside plain markup that is followed by the end of the page or by
   * a tag: an `<h2>` would have to straddle the boundary, where the `<` of the next tag
   * is in the way.
   */
  lemma NoHeadingInMarkup(m: string, rest: string)
    requires PlainMarkup(m)
    requires rest == [] || rest[0] == '<'
    ensures forall p :: 0 <= p < |m| ==> MatchHeading((m + rest)[p..]).None?
  {
    forall p | 0 <= p < |m| ensures !(Open <= (m + rest)[p..]) {
      var u := (m + rest)[p..];
      if p + |Open| <= |m| {
        assert m[p..][..|Open|] == u[..|Open|];
      } else if rest == [] {
        assert |u| < |Open|;
      } else if |u| >= |Open| {
        var k := |m| - p;
        assert u[k] == rest[0] == '<' != Open[k];
      }
    }
  }

  /** Markup, then the heading of a release: one section of the releases page. */
  datatype Section = Section(markup: string, release: Release)

  /** Sections whose markup is plain and whose releases are well formed, and plain closing markup. */
  predicate WellFormedPage(ss: seq<Section>, tail: string) {
    && (forall i :: 0 <= i < |ss| ==> ValidRelease(ss[i].release) && PlainMarkup(ss[i].markup))
    && PlainMarkup(tail)
  }

  /** A releases page: each section's markup and heading in turn, then closing markup. */
  function ReleasesPage(ss: seq<Section>, tail: string): string {
    if ss == [] then tail
    else ss[0].markup + (Open + (ReleaseText(ss[0].release) + (Close + ReleasesPage(ss[1..], tail))))
  }

  /** The version texts of the sections' releases, in order. */
  function ReleaseTexts(ss: seq<Section>): (r: seq<string>)
    ensures |r| == |ss| && forall i :: 0 <= i < |ss| ==> r[i] == ReleaseText(ss[i].release)
  {
    if ss == [] then [] else [ReleaseText(ss[0].release)] + ReleaseTexts(ss[1..])
  }

  lemma PlainTail(tail: string)
    requires PlainMarkup(tail)
    ensures Headings(tail) == []
  {
    NoHeadingInMarkup(tail, []);
    assert tail + [] == tail;
    HeadingsSkip(tail, []);
  }

  lemma HeadingAfterMarkup(m: string, r: Release, rest: string)
    requires PlainMarkup(m) && ValidRelease(r)
    ensures Headings(m + (Open + (ReleaseText(r) + (Close + rest)))) == [ReleaseText(r)] + Headings(rest)
  {
    var h := Open + (ReleaseText(r) + (Close + rest));
    assert h[0] == '<';
    NoHeadingInMarkup(m, h);
    HeadingsSkip(m, h);
    HeadingAtStart(r, rest);
  }

  /** Scanning a releases page gives back each section's release text, in page order. */
  lemma {:induction false} HeadingsOfReleasesPage(ss: seq<Section>, tail: string)
    requires WellFormedPage(ss, tail)
    ensures Headings(ReleasesPage(ss, tail)) == ReleaseTexts(ss)
  {
    if ss == [] {
      PlainTail(tail);
    } else {
      assert WellFormedPage(ss[1..], tail) by {
        forall i | 0 <= i < |ss[1..]|
          ensures ValidRelease(ss[1..][i].release) && PlainMarkup(ss[1..][i].markup)
        {
          assert ss[1..][i] == ss[i + 1];
        }
      }
      HeadingsOfReleasesPage(ss[1..], tail);
      HeadingAfterMarkup(ss[0].markup, ss[0].release, ReleasesPage(ss[1..], tail));
    }
  }

  // ---------------------------------------------------------------------------------------
  // `parseFloat`

  function Pow10(k: nat): (p: nat)
    ensures p >= 1
  {
    if k == 0 then 1 else 10 * Pow10(k - 1)
  }

  /**
   * `parseFloat(s)` for text that starts with a digit: the exact decimal value of its longest
   * prefix of the form `\d+(\.\d*)?`; whatever follows (a second dot and a patch number) is ignored.
   */
  function ParseFloat(s: string): real {
    var whole := DigitRun(s);
    DecimalValue(whole, Fraction(s[|whole|..]))
  }

  /** The digits after a leading dot, as `\.\d*` reads them; none without the dot. */
  function Fraction(rest: string): (f: string)
    ensures AllDigits(f)
  {
    if rest != [] && rest[0] == '.' then DigitRun(rest[1..]) else []
  }

  function DecimalValue(whole: string, frac: string): real
    requires AllDigits(whole) && AllDigits(frac)
  {
    DigitsValue(whole) as real + DigitsValue(frac) as real / Pow10(|frac|) as real
  }

  /** `parseFloat("X.Y.Z")` is X.Y: the patch number is dropped. */
  lemma ParseFloatOfRelease(r: Release)
    requires ValidRelease(r)
    ensures ParseFloat(ReleaseText(r)) == DecimalValue(r.major, r.minor)
  {
    var s := ReleaseText(r);
    var tail := ['.'] + (r.minor + (['.'] + r.patch));
    assert s == r.major + tail;
    DigitRunOf(r.major, tail);
    assert s[|r.major|..] == tail;
    assert tail[1..] == r.minor + (['.'] + r.patch);
    DigitRunOf(r.minor, ['.'] + r.patch);
    assert Fraction(tail) == r.minor;
  }
}
