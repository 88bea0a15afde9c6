/** `last_page_from_link_header` (src/github_events/mod.rs): the page number
    that a GitHub `Link` response header announces as the last one.

    The source matches the header against the regular expression
    `.*&page=(\d+)>; rel="last".*` and parses the captured digits as a u32.
    Regex semantics written out: `.` does not match a newline, so a match lies
    within one line; the leftmost match therefore starts at the beginning of
    the first line holding an occurrence of `&page=<digits>>; rel="last"`, and
    because the leading `.*` is greedy the capture is the rightmost occurrence
    on that line. `\d+` is followed by `>`, so it captures the whole run of
    digits after `&page=`. */
module LinkHeader {
  import opened Prelude
  import opened Decimal

  const PageParam: string := "&page="
  const RelLast: string := ">; rel=\"last\""
  const ParseOverflow: string := "called `Result::unwrap()` on an `Err` value: ParseIntError { kind: Overflow }"

  /** Length of the run of digits that starts at index j: the longest one. */
  function DigitRunLength(h: string, j: nat): (n: nat)
    requires j <= |h|
    ensures j + n <= |h|
    ensures forall k :: j <= k < j + n ==> IsDigit(h[k])
    ensures j + n == |h| || !IsDigit(h[j + n])
    decreases |h| - j
  {
    if j < |h| && IsDigit(h[j]) then 1 + DigitRunLength(h, j + 1) else 0
  }

  /** The literal lit is written in h from index j on. */
  predicate LiteralAt(h: string, j: nat, lit: string) {
    j + |lit| <= |h| && forall k :: 0 <= k < |lit| ==> h[j + k] == lit[k]
  }

  /** An occurrence of `&page=(\d+)>; rel="last"` starts at index i. */
  predicate OccursAt(h: string, i: nat) {
    && LiteralAt(h, i, PageParam)
    && i + |PageParam| <= |h|
    && var n := DigitRunLength(h, i + |PageParam|);
    && n > 0
    && LiteralAt(h, i + |PageParam| + n, RelLast)
  }

  /** The text between `&page=` and `>; rel="last"` in the occurrence at i. */
  function DigitsAt(h: string, i: nat): (d: string)
    requires OccursAt(h, i)
    ensures |d| > 0 && AllDigits(d)
  {
    h[i + |PageParam|..i + |PageParam| + DigitRunLength(h, i + |PageParam|)]
  }

  /** The sub-pattern read literally: `&page=`, one or more digits (m of
      them), `>; rel="last"`. */
  ghost predicate PatternAt(h: string, i: nat, m: nat) {
    && 0 < m
    && LiteralAt(h, i, PageParam)
    && (forall k :: i + |PageParam| <= k < i + |PageParam| + m ==> k < |h| && IsDigit(h[k]))
    && LiteralAt(h, i + |PageParam| + m, RelLast)
  }

  /** A run of m digits followed by a non-digit is the longest run. */
  lemma DigitRunIsMaximal(h: string, j: nat, m: nat)
    requires j + m < |h|
    requires forall k :: j <= k < j + m ==> IsDigit(h[k])
    requires !IsDigit(h[j + m])
    ensures DigitRunLength(h, j) == m
  {
  }

  /** The sub-pattern read literally matches exactly where OccursAt holds,
      and captures the same digits: the digit run it captures is the only one
      that can be followed by `>; rel="last"`. */
  lemma PatternIsOccurrence(h: string, i: nat, m: nat)
    requires PatternAt(h, i, m)
    ensures OccursAt(h, i) && DigitsAt(h, i) == h[i + |PageParam|..i + |PageParam| + m]
  {
    var j := i + |PageParam|;
    assert LiteralAt(h, j + m, RelLast);
    assert h[j + m + 0] == RelLast[0];
    DigitRunIsMaximal(h, j, m);
  }

  lemma OccurrenceIsPattern(h: string, i: nat)
    requires OccursAt(h, i)
    ensures PatternAt(h, i, DigitRunLength(h, i + |PageParam|))
  {
  }

  predicate NoNewlineBetween(h: string, a: nat, b: nat) {
    forall k :: a <= k < b && k < |h| ==> h[k] != '\n'
  }

  lemma OccurrenceStartsWithAmpersand(h: string, i: nat)
    requires OccursAt(h, i)
    ensures h[i] == '&'
  {
    assert h[i] == PageParam[0];
  }

  /** Index of the first newline at or after s, or |h|. */
  function LineEnd(h: string, s: nat): (e: nat)
    requires s <= |h|
    ensures s <= e <= |h|
    ensures e == |h| || h[e] == '\n'
    ensures NoNewlineBetween(h, s, e)
    decreases |h| - s
  {
    if s == |h| || h[s] == '\n' then s else LineEnd(h, s + 1)
  }

  /* The search below is stated for any set of candidate positions `occ`
     (OccursAt, for the regex) that never starts at a newline. */

  /** The largest index in [s, e) that is a candidate. */
  function RightmostIn(occ: nat -> bool, s: nat, e: nat): (r: Option<nat>)
    requires s <= e
    ensures r.Some? ==> s <= r.value < e && occ(r.value)
    ensures r.Some? ==> forall j: nat :: r.value < j < e ==> !occ(j)
    ensures r.None? ==> forall j: nat :: s <= j < e ==> !occ(j)
    decreases e - s
  {
    if e == s then None
    else if occ(e - 1) then Some(e - 1)
    else RightmostIn(occ, s, e - 1)
  }

  /** The rightmost candidate on the first line, from index s on, that
      holds one. */
  function MatchFrom(h: string, occ: nat -> bool, s: nat): (r: Option<nat>)
    requires s <= |h|
    ensures r.Some? ==> s <= r.value && occ(r.value)
    decreases |h| - s
  {
    var e := LineEnd(h, s);
    match RightmostIn(occ, s, e)
    case Some(i) => Some(i)
    case None => if e == |h| then None else MatchFrom(h, occ, e + 1)
  }

  /** Candidates lie inside h and never start at a newline. */
  ghost predicate InLines(h: string, occ: nat -> bool) {
    forall j: nat :: occ(j) ==> j < |h| && h[j] != '\n'
  }

  /** What MatchFrom finds: a candidate with no earlier candidate on an
      earlier line and no later candidate on the same line; None only when
      there is no candidate at all from s on. */
  lemma {:induction false} MatchFromSpec(h: string, occ: nat -> bool, s: nat)
    requires s <= |h|
    requires InLines(h, occ)
    ensures var r := MatchFrom(h, occ, s);
      && (r.Some? ==> forall j: nat :: s <= j < r.value && occ(j) ==> NoNewlineBetween(h, j, r.value))
      && (r.Some? ==> forall j: nat :: r.value < j && occ(j) ==> !NoNewlineBetween(h, r.value, j))
      && (r.None? ==> forall j: nat :: s <= j ==> !occ(j))
    decreases |h| - s
  {
    var e := LineEnd(h, s);
    match RightmostIn(occ, s, e)
    case Some(i) =>
      RightmostEndsLine(h, occ, s, i);
    case None =>
      if e < |h| {
        MatchFromSpec(h, occ, e + 1);
        NoneBeforeNextLine(h, occ, s);
      }
  }

  /** A candidate after the rightmost one on its line lies on a later line. */
  lemma RightmostEndsLine(h: string, occ: nat -> bool, s: nat, i: nat)
    requires s <= |h|
    requires InLines(h, occ)
    requires RightmostIn(occ, s, LineEnd(h, s)) == Some(i)
    ensures forall j: nat :: i < j && occ(j) ==> !NoNewlineBetween(h, i, j)
  {
    var e := LineEnd(h, s);
    forall j: nat | i < j && occ(j)
      ensures !NoNewlineBetween(h, i, j)
    {
      assert e < j && h[e] == '\n';
    }
  }

  /** A first line without a candidate holds none up to its newline. */
  lemma NoneBeforeNextLine(h: string, occ: nat -> bool, s: nat)
    requires s <= |h|
    requires InLines(h, occ)
    requires RightmostIn(occ, s, LineEnd(h, s)).None?
    requires LineEnd(h, s) < |h|
    ensures forall j: nat :: s <= j <= LineEnd(h, s) ==> !occ(j)
    ensures MatchFrom(h, occ, s) == MatchFrom(h, occ, LineEnd(h, s) + 1)
  {
  }

  /** The regex's candidate positions. */
  function Occurrences(h: string): (occ: nat -> bool)
    ensures forall j: nat :: occ(j) == OccursAt(h, j)
  {
    (j: nat) => OccursAt(h, j)
  }

  lemma OccurrencesInLines(h: string)
    ensures InLines(h, Occurrences(h))
  {
    forall j: nat | OccursAt(h, j)
      ensures j < |h| && h[j] != '\n'
    {
      OccurrenceStartsWithAmpersand(h, j);
    }
  }

  /** The occurrence the regex captures: every earlier occurrence is on the
      same line (so the match starts on this line), and every later one is on
      a later line (so the greedy `.*` cannot reach it). */
  ghost predicate IsCaptureAt(h: string, i: nat) {
    && OccursAt(h, i)
    && (forall j: nat :: j < i && OccursAt(h, j) ==> NoNewlineBetween(h, j, i))
    && (forall j: nat :: i < j && OccursAt(h, j) ==> !NoNewlineBetween(h, i, j))
  }

  /** At most one occurrence is the captured one. */
  lemma CaptureIsUnique(h: string, i: nat, i': nat)
    requires IsCaptureAt(h, i) && IsCaptureAt(h, i')
    ensures i == i'
  {
  }

  /** The digits the regex captures, if it matches at all. */
  function CaptureLastPage(h: string): Option<string> {
    match MatchFrom(h, Occurrences(h), 0)
    case None => None
    case Some(i) => Some(DigitsAt(h, i))
  }

  /** The regex matches exactly when the header holds an occurrence, and then
      it captures the digits of the occurrence characterised by IsCaptureAt. */
  lemma CaptureLastPageSpec(h: string)
    ensures CaptureLastPage(h).None? <==> forall i: nat :: !OccursAt(h, i)
    ensures forall i: nat :: IsCaptureAt(h, i) ==> CaptureLastPage(h) == Some(DigitsAt(h, i))
    ensures (exists i: nat :: OccursAt(h, i)) ==> exists i: nat :: IsCaptureAt(h, i)
  {
    OccurrencesInLines(h);
    MatchFromSpec(h, Occurrences(h), 0);
    match MatchFrom(h, Occurrences(h), 0)
    case None =>
    case Some(i0) =>
      assert IsCaptureAt(h, i0);
      forall i: nat | IsCaptureAt(h, i)
        ensures CaptureLastPage(h) == Some(DigitsAt(h, i))
      {
        CaptureIsUnique(h, i, i0);
      }
  }

  /** For a one-line header, as GitHub sends it, the rightmost occurrence wins:
      entries with `rel="next"`, `"prev"` or `"first"` never match, and an
      earlier `rel="last"` entry is overridden by a later one. */
  lemma RightmostOccurrenceWins(h: string, i: nat)
    requires NoNewlineBetween(h, 0, |h|)
    requires OccursAt(h, i)
    requires forall j: nat :: i < j ==> !OccursAt(h, j)
    ensures CaptureLastPage(h) == Some(DigitsAt(h, i))
  {
    assert IsCaptureAt(h, i);
    CaptureLastPageSpec(h);
  }

  /** `last_page_from_link_header`; `parse::<u32>().unwrap()` panics when the
      captured number does not fit in 32 bits. */
  function LastPageFromLinkHeader(h: string): Panicking<Option<u32>> {
    match CaptureLastPage(h)
    case None => Returns(None)
    case Some(digits) =>
      var v := DecimalValue(digits);
      if v <= U32_MAX then Returns(Some(v as u32)) else Panics(ParseOverflow)
  }

  /** No occurrence gives None; otherwise the value of the captured digits,
      or a panic when it exceeds u32. */
  lemma LastPageFromLinkHeaderSpec(h: string, i: nat)
    ensures (forall j: nat :: !OccursAt(h, j)) ==> LastPageFromLinkHeader(h) == Returns(None)
    ensures IsCaptureAt(h, i) ==>
      LastPageFromLinkHeader(h) ==
        if DecimalValue(DigitsAt(h, i)) <= U32_MAX
        then Returns(Some(DecimalValue(DigitsAt(h, i)) as u32))
        else Panics(ParseOverflow)
    ensures (exists j: nat :: OccursAt(h, j)) ==> exists j: nat :: IsCaptureAt(h, j)
  {
    CaptureLastPageSpec(h);
  }

  /** Occurrences only look rightwards: text in front does not change them. */
  lemma {:induction false} DigitRunShift(x: string, s: string, k: nat)
    requires k <= |s|
    ensures DigitRunLength(x + s, |x| + k) == DigitRunLength(s, k)
    decreases |s| - k
  {
    if k < |s| {
      assert (x + s)[|x| + k] == s[k];
      DigitRunShift(x, s, k + 1);
    }
  }

  lemma OccursAtShift(x: string, s: string, j: nat)
    ensures OccursAt(x + s, |x| + j) == OccursAt(s, j)
  {
    if j + |PageParam| <= |s| {
      DigitRunShift(x, s, j + |PageParam|);
    }
  }

  lemma SliceShift(x: string, s: string, a: nat, b: nat)
    requires a <= b <= |s|
    ensures (x + s)[|x| + a..|x| + b] == s[a..b]
  {
    assert forall t :: 0 <= t < b - a ==> (x + s)[|x| + a..|x| + b][t] == s[a..b][t];
  }

  /** One entry of a `Link` header: a URL ending in the page parameter,
      and the relation of that page to the requested one. */
  function Entry(url: string, page: string, rel: string): string {
    "<" + url + PageLink(page, rel)
  }

  /** The end of an entry, from the page parameter on. */
  function PageLink(page: string, rel: string): string {
    PageParam + page + Relation(rel)
  }

  function Relation(rel: string): string {
    ">; rel=\"" + rel + "\""
  }

  /** The text the sub-pattern matches for the digits d. */
  function LastEntry(d: string): string {
    PageParam + d + RelLast
  }

  lemma LastEntryIsPageLink(d: string)
    ensures LastEntry(d) == PageLink(d, "last")
  {
    assert RelLast == Relation("last");
  }

  lemma LastEntryOccurs(d: string, t: string)
    requires |d| > 0 && AllDigits(d)
    ensures OccursAt(LastEntry(d) + t, 0) && DigitsAt(LastEntry(d) + t, 0) == d
  {
    LastEntryDigits(d, t);
    LastEntryLiterals(d, t);
  }

  /** After `&page=` comes the digit run d, and nothing longer. */
  lemma LastEntryDigits(d: string, t: string)
    requires |d| > 0 && AllDigits(d)
    ensures var h := LastEntry(d) + t;
      && |PageParam| + |d| < |h|
      && DigitRunLength(h, |PageParam|) == |d|
      && h[|PageParam|..|PageParam| + |d|] == d
  {
    var h := LastEntry(d) + t;
    forall k | |PageParam| <= k < |PageParam| + |d|
      ensures IsDigit(h[k])
    {
      assert h[k] == d[k - |PageParam|];
    }
    assert h[|PageParam| + |d|] == RelLast[0];
    DigitRunIsMaximal(h, |PageParam|, |d|);
  }

  /** `&page=` starts the entry and `>; rel="last"` follows the digits. */
  lemma LastEntryLiterals(d: string, t: string)
    ensures var h := LastEntry(d) + t;
      LiteralAt(h, 0, PageParam) && LiteralAt(h, |PageParam| + |d|, RelLast)
  {
    var h := LastEntry(d) + t;
    forall k | 0 <= k < |PageParam|
      ensures h[k] == PageParam[k]
    {
    }
    forall k | 0 <= k < |RelLast|
      ensures h[|PageParam| + |d| + k] == RelLast[k]
    {
    }
  }

  /** The layout of a page link: `&page=`, the digits, then `>; rel="` and
      the relation; its only `&` is the first character. */
  lemma PageLinkLayout(d: string, rel: string)
    requires AllDigits(d) && '&' !in rel
    ensures var l := PageLink(d, rel);
      && |l| == |PageParam| + |d| + 9 + |rel|
      && l[0] == '&'
      && (forall k :: 0 <= k < |d| ==> l[|PageParam| + k] == d[k])
      && l[|PageParam| + |d|] == '>'
      && (|rel| > 0 ==> l[|PageParam| + |d| + 8] == rel[0])
      && (forall k :: 0 < k < |l| ==> l[k] != '&')
  {
    var l := PageLink(d, rel);
    var r := Relation(rel);
    assert l == PageParam + d + r;
    forall k | 0 < k < |l|
      ensures l[k] != '&'
    {
      if k < |PageParam| {
        assert l[k] == PageParam[k];
      } else if k < |PageParam| + |d| {
        assert l[k] == d[k - |PageParam|];
      } else {
        var m := k - |PageParam| - |d|;
        assert l[k] == r[m];
        if 8 <= m < 8 + |rel| {
          assert r[m] == rel[m - 8];
          assert rel[m - 8] in rel;
        }
      }
    }
    if |rel| > 0 {
      assert r[8] == rel[0];
    }
  }

  lemma LastEntryHasOneAmpersand(d: string)
    requires AllDigits(d)
    ensures forall k :: 0 < k < |LastEntry(d)| ==> LastEntry(d)[k] != '&'
  {
    LastEntryIsPageLink(d);
    PageLinkLayout(d, "last");
  }

  lemma DigitsAtShift(x: string, s: string, j: nat)
    requires OccursAt(s, j)
    ensures OccursAt(x + s, |x| + j) && DigitsAt(x + s, |x| + j) == DigitsAt(s, j)
  {
    OccursAtShift(x, s, j);
    var i := j + |PageParam|;
    DigitRunShift(x, s, i);
    SliceShift(x, s, i, i + DigitRunLength(s, i));
  }

  /** Digits are neither a line break nor the `&` that starts an occurrence. */
  lemma DigitsAreNotSeparators(d: string)
    requires AllDigits(d)
    ensures '\n' !in d && '&' !in d
  {
  }

  /** A one-line header whose rightmost `&page=` is followed by digits d and
      `>; rel="last"`, with no occurrence in the text s after it, yields d. */
  lemma LastEntryIsCaptured(p: string, d: string, s: string)
    requires |d| > 0 && AllDigits(d)
    requires '\n' !in p && '\n' !in s
    requires forall j: nat :: !OccursAt(s, j)
    ensures CaptureLastPage(p + LastEntry(d) + s) == Some(d)
  {
    var h := p + LastEntry(d) + s;
    LastEntryOccursAfter(p, d, s);
    NothingAfterLastEntry(p, d, s);
    LastEntryHeaderIsOneLine(p, d, s);
    OneLine(h);
    RightmostOccurrenceWins(h, |p|);
  }

  lemma LastEntryOccursAfter(p: string, d: string, s: string)
    requires |d| > 0 && AllDigits(d)
    ensures OccursAt(p + LastEntry(d) + s, |p|) && DigitsAt(p + LastEntry(d) + s, |p|) == d
  {
    var e := LastEntry(d);
    Regroup(p, e, s);
    LastEntryOccurs(d, s);
    DigitsAtShift(p, e + s, 0);
  }

  lemma Regroup(a: string, b: string, c: string)
    ensures a + b + c == a + (b + c)
  {
  }

  lemma LastEntryHeaderIsOneLine(p: string, d: string, s: string)
    requires AllDigits(d) && '\n' !in p && '\n' !in s
    ensures '\n' !in p + LastEntry(d) + s
  {
    DigitsAreNotSeparators(d);
    assert '\n' !in PageParam && '\n' !in RelLast;
  }

  lemma OneLine(h: string)
    requires '\n' !in h
    ensures NoNewlineBetween(h, 0, |h|)
  {
    forall k | 0 <= k < |h|
      ensures h[k] != '\n'
    {
      assert h[k] in h;
    }
  }

  lemma NothingAfterLastEntry(p: string, d: string, s: string)
    requires AllDigits(d)
    requires forall j: nat :: !OccursAt(s, j)
    ensures forall j: nat :: |p| < j ==> !OccursAt(p + LastEntry(d) + s, j)
  {
    var e := LastEntry(d);
    var h := p + e + s;
    forall j: nat | |p| < j
      ensures !OccursAt(h, j)
    {
      if j < |p| + |e| {
        if OccursAt(h, j) {
          OccurrenceStartsWithAmpersand(h, j);
          LastEntryHasOneAmpersand(d);
        }
      } else {
        OccursAtShift(p + e, s, j - |p + e|);
      }
    }
  }

  /** A page link whose relation is not "last" (its first letter differs),
      preceded by text a without `&`, holds no occurrence. */
  lemma OtherPageLinkIsIgnored(a: string, d: string, rel: string)
    requires '&' !in a && '&' !in rel
    requires |d| > 0 && AllDigits(d)
    requires |rel| > 0 && rel[0] != 'l'
    ensures forall j: nat :: !OccursAt(a + PageLink(d, rel), j)
  {
    forall j: nat
      ensures !OccursAt(a + PageLink(d, rel), j)
    {
      if j == |a| {
        OtherPageLinkStart(a, d, rel);
      } else {
        NoAmpersandOffLinkStart(a, d, rel, j);
      }
    }
  }

  /** The link's own `&page=` is followed by digits and then a relation
      other than "last". */
  lemma OtherPageLinkStart(a: string, d: string, rel: string)
    requires '&' !in rel
    requires |d| > 0 && AllDigits(d)
    requires |rel| > 0 && rel[0] != 'l'
    ensures !OccursAt(a + PageLink(d, rel), |a|)
  {
    var l := PageLink(d, rel);
    PageLinkLayout(d, rel);
    NotLastAfterDigits(l, |PageParam|, d, rel);
    OccursAtShift(a, l, 0);
  }

  /** Everywhere else in a + PageLink(d, rel) there is no `&`. */
  lemma NoAmpersandOffLinkStart(a: string, d: string, rel: string, j: nat)
    requires '&' !in a && '&' !in rel
    requires AllDigits(d)
    requires j != |a|
    ensures !OccursAt(a + PageLink(d, rel), j)
  {
    var l := PageLink(d, rel);
    var h := a + l;
    if j < |a| {
      assert h[j] == a[j];
    } else if j < |h| {
      PageLinkLayout(d, rel);
      assert h[j] == l[j - |a|];
    }
    NoOccurrenceWithoutAmpersand(h, j);
  }

  lemma NoOccurrenceWithoutAmpersand(h: string, j: nat)
    requires j < |h| ==> h[j] != '&'
    ensures !OccursAt(h, j)
  {
    if j < |h| {
      assert h[j + 0] != PageParam[0];
    }
  }

  /** An entry whose relation is not "last", preceded by text q without
      `&`, holds no occurrence. */
  lemma OtherRelationIsIgnored(q: string, url: string, d: string, rel: string)
    requires '&' !in q && '&' !in url && '&' !in rel
    requires |d| > 0 && AllDigits(d)
    requires |rel| > 0 && rel[0] != 'l'
    ensures forall j: nat :: !OccursAt(q + Entry(url, d, rel), j)
  {
    assert q + Entry(url, d, rel) == (q + "<" + url) + PageLink(d, rel);
    OtherPageLinkIsIgnored(q + "<" + url, d, rel);
  }

  /** Digits d, then `>; rel="` and a relation not starting with `l`: the
      digit run is d and `>; rel="last"` does not follow it. */
  lemma NotLastAfterDigits(h: string, j: nat, d: string, rel: string)
    requires |d| > 0 && AllDigits(d) && |rel| > 0 && rel[0] != 'l'
    requires j + |d| + 8 < |h|
    requires forall k :: 0 <= k < |d| ==> h[j + k] == d[k]
    requires h[j + |d|] == '>' && h[j + |d| + 8] == rel[0]
    ensures !LiteralAt(h, j + DigitRunLength(h, j), RelLast)
  {
    forall k | j <= k < j + |d|
      ensures IsDigit(h[k])
    {
      assert h[j + (k - j)] == d[k - j];
    }
    DigitRunIsMaximal(h, j, |d|);
    assert h[j + |d| + 8] != RelLast[8];
  }

  /* The source's tests. */

  const ApiRoot: string := "https://api.github.com/"
  const RepositoryPath: string := "repositories/128516862/"
  const EventsQuery: string := "events?access_token=xxx"
  const EventsUrl: string := ApiRoot + RepositoryPath + EventsQuery

  lemma EventsUrlIsPlain()
    ensures '\n' !in EventsUrl && '&' !in EventsUrl
  {
    ApiRootIsPlain();
    RepositoryPathIsPlain();
    assert '\n' !in EventsQuery && '&' !in EventsQuery;
  }

  lemma ApiRootIsPlain()
    ensures '\n' !in ApiRoot && '&' !in ApiRoot
  {
  }

  lemma RepositoryPathIsPlain()
    ensures '\n' !in RepositoryPath && '&' !in RepositoryPath
  {
  }

  /** An entry is one line when its URL and relation are. */
  lemma EntryIsOneLine(url: string, d: string, rel: string)
    requires AllDigits(d) && '\n' !in url && '\n' !in rel
    ensures '\n' !in Entry(url, d, rel)
  {
    DigitsAreNotSeparators(d);
    assert '\n' !in PageParam && '\n' !in ">; rel=\"" && '\n' !in "\"";
  }

  /** A `last` entry between the one-line texts p and s, where s holds no
      occurrence, is the one captured. */
  lemma LastRelationIsCaptured(p: string, url: string, d: string, s: string)
    requires |d| > 0 && AllDigits(d)
    requires '\n' !in p && '\n' !in url && '\n' !in s
    requires forall j: nat :: !OccursAt(s, j)
    ensures CaptureLastPage(p + Entry(url, d, "last") + s) == Some(d)
  {
    LastEntryIsPageLink(d);
    assert p + Entry(url, d, "last") + s == (p + "<" + url) + LastEntry(d) + s;
    LastEntryIsCaptured(p + "<" + url, d, s);
  }

  lemma DecimalFive()
    ensures DecimalValue("5") == 5
  {
    assert "5"[..0] == [];
  }

  /** Test parse_github_link_header_for_page_1: `next` is ignored, `last` gives 5. */
  lemma LinkHeaderForPage1()
    ensures LastPageFromLinkHeader(Entry(EventsUrl, "2", "next") + ", " + Entry(EventsUrl, "5", "last"))
         == Returns(Some(5))
  {
    var p := Entry(EventsUrl, "2", "next") + ", ";
    EventsUrlIsPlain();
    EntryIsOneLine(EventsUrl, "2", "next");
    assert p + Entry(EventsUrl, "5", "last") == p + Entry(EventsUrl, "5", "last") + "";
    LastRelationIsCaptured(p, EventsUrl, "5", "");
    DecimalFive();
  }

  /** The URL of the `prev` entry in the source's second test. */
  const PrevUrl: string := ApiRoot + RepositoryPath + "events?access_tokenxxx="

  lemma PrevUrlIsOneLine()
    ensures '\n' !in PrevUrl
  {
    ApiRootIsPlain();
    RepositoryPathIsPlain();
    assert '\n' !in "events?access_tokenxxx=";
  }

  /** Test parse_github_link_header_for_other_pages: `prev`, `next` and
      `first` are ignored, `last` gives 5. */
  lemma LinkHeaderForOtherPages()
    ensures LastPageFromLinkHeader(
              Entry(PrevUrl, "1", "prev") + ", " + Entry(EventsUrl, "3", "next") + ", "
              + Entry(EventsUrl, "5", "last") + ", " + Entry(EventsUrl, "1", "first"))
         == Returns(Some(5))
  {
    var p := Entry(PrevUrl, "1", "prev") + ", " + Entry(EventsUrl, "3", "next") + ", ";
    var s := ", " + Entry(EventsUrl, "1", "first");
    EventsUrlIsPlain();
    PrevUrlIsOneLine();
    EntryIsOneLine(PrevUrl, "1", "prev");
    EntryIsOneLine(EventsUrl, "3", "next");
    EntryIsOneLine(EventsUrl, "1", "first");
    OtherRelationIsIgnored(", ", EventsUrl, "1", "first");
    assert p + Entry(EventsUrl, "5", "last") + ", " + Entry(EventsUrl, "1", "first")
        == p + Entry(EventsUrl, "5", "last") + s;
    LastRelationIsCaptured(p, EventsUrl, "5", s);
    DecimalFive();
  }

  /** Test parse_github_link_header_can_fail_because_of_unknown_header_value. */
  lemma UnknownHeaderValue()
    ensures LastPageFromLinkHeader("moo") == Returns(None)
  {
    LastPageFromLinkHeaderSpec("moo", 0);
  }
}
