/**
 * The four filename strategies of AnimeParser (core/parser.py:25-48), each a
 * hand-written matcher that reports the groups Python's `re` reports for the
 * pattern, or None when the pattern does not match.
 *
 * Where the backtracking order decides which match is reported (the lazy
 * `.*?` / `.+?` titles, the positions `re.search` tries, a greedy `\s*` in
 * front of a title that may itself start with whitespace, the season digits of
 * the dash pattern) the matchers try the candidates in that order. Where a
 * greedy run is followed by an item that cannot accept another character of
 * the run (`\s*` before a dash or a digit, `\d{1,3}` before `\]`), the
 * shorter choices all fail, and the matcher takes the longest run directly.
 */
module Patterns {
  import opened Chars
  import opened Text
  import opened Wrappers

  /** A matched group: the characters s[start..end]. */
  datatype Span = Span(start: nat, end: nat)

  /** The groups of a strategy match, as `match.groupdict()` holds them
      (the brackets strategy's `group` is never read, so it is not kept). */
  datatype Groups = Groups(title: Span, season: Option<Span>, seasonRaw: Option<Span>, episode: Span)

  predicate InBounds(s: string, sp: Span) {
    sp.start <= sp.end <= |s|
  }

  function Slice(s: string, sp: Span): string
    requires InBounds(s, sp)
  {
    s[sp.start..sp.end]
  }

  /** s[i..j] holds no newline, so `.` can cover it. */
  predicate NoNewlineIn(s: string, i: nat, j: nat) {
    forall k :: i <= k < j && k < |s| ==> s[k] != '\n'
  }

  /** `$` without MULTILINE: the end of the string, or just before a final newline. */
  predicate AtEnd(s: string, t: nat) {
    t == |s| || (t + 1 == |s| && s[t] == '\n')
  }

  /** The lower-case literal w at position i, compared case-insensitively. */
  predicate WordAt(s: string, i: nat, w: string) {
    i + |w| <= |s| && forall k :: 0 <= k < |w| ==> Lower(s[i + k]) == w[k]
  }

  /** Two literals with different first letters cannot both be read at i. */
  lemma WordsClash(t: string, i: nat, w: string, w': string)
    requires 0 < |w| && 0 < |w'| && w[0] != w'[0] && WordAt(t, i, w)
    ensures !WordAt(t, i, w')
  {
    assert Lower(t[i + 0]) == w[0];
  }

  /** An episode capture `\d{1,width}`, followed by `\.\d` when `decimal` allows it. */
  predicate EpisodeText(d: string, width: nat, decimal: bool) {
    var n := SkipDigits(d, 0);
    && 1 <= n <= width
    && (n == |d| || (decimal && n + 2 == |d| && d[n] == '.' && IsDigit(d[n + 1])))
  }

  /** An episode group of the dash pattern, with the version tag and stop after it. */
  predicate DashEpisodeAt(s: string, ep: Span) {
    InBounds(s, ep) && EpisodeText(Slice(s, ep), 4, true) && VersionThenStop(s, ep.end)
  }

  predicate SeasonDigits(s: string, sp: Span) {
    InBounds(s, sp) && 1 <= sp.end - sp.start <= 2 && AllDigits(Slice(s, sp))
  }

  // ---------------------------------------------------------------------------
  // Strategy 1, dash:
  // ^.*?\]\s*(?P<title>.+?)\s*(?:-|–)\s*(?:S(?P<season>\d{1,2})\s*(?:-|–)?\s*)?
  //   (?P<episode>\d{1,4}(?:\.\d)?)(?:v\d)?(?:\s|\[|\(|$)
  // ---------------------------------------------------------------------------

  /** `(?:\s|\[|\(|$)` at t. */
  predicate DashStop(s: string, t: nat) {
    t <= |s| && ((t < |s| && (IsSpace(s[t]) || s[t] == '[' || s[t] == '(')) || AtEnd(s, t))
  }

  /** `(?:v\d)?` and then the stop, trying the version tag first. */
  predicate VersionThenStop(s: string, y: nat) {
    || (y + 1 < |s| && Lower(s[y]) == 'v' && IsDigit(s[y + 1]) && DashStop(s, y + 2))
    || DashStop(s, y)
  }

  /** A digit at y is neither the version tag nor a stop. */
  lemma DigitBlocksStop(s: string, y: nat)
    requires y < |s| && IsDigit(s[y])
    ensures !VersionThenStop(s, y)
  {
  }

  /** An episode capture begins with a digit. */
  lemma EpisodeTextStartsWithDigit(d: string, width: nat, decimal: bool)
    requires EpisodeText(d, width, decimal)
    ensures 0 < |d| && IsDigit(d[0])
  {
  }

  /** Where a dash episode from p can end: after the greedy digits (at most four),
      or two characters later when `.d` follows them. */
  lemma DashEpisodeEnds(s: string, p: nat, y: nat)
    requires p <= |s| && DashEpisodeAt(s, Span(p, y))
    ensures var x := p + Min(4, SkipDigits(s, p) - p);
      p < x && (y == x || (y == x + 2 && s[x] == '.' && IsDigit(s[x + 1])))
  {
    if y < |s| && IsDigit(s[y]) {
      DigitBlocksStop(s, y);
    }
    EpisodeTextEnds(s, p, y);
  }

  /** The same for any episode text that no digit follows. */
  lemma EpisodeTextEnds(s: string, p: nat, y: nat)
    requires p <= y <= |s| && EpisodeText(s[p..y], 4, true) && (y < |s| ==> !IsDigit(s[y]))
    ensures var x := p + Min(4, SkipDigits(s, p) - p);
      p < x && (y == x || (y == x + 2 && s[x] == '.' && IsDigit(s[x + 1])))
  {
    var d := s[p..y];
    var n := SkipDigits(d, 0);
    SliceDigitRun(s, p, y);
    if n < |d| {
      assert s[p + n] == d[n] && s[p + n + 1] == d[n + 1];
    }
    DigitRunIs(s, p, n);
  }

  /** A run of one to four digits from p is what `\d{1,4}` takes. */
  lemma DigitRunIs(s: string, p: nat, n: nat)
    requires 1 <= n <= 4 && p + n <= |s|
    requires forall k :: p <= k < p + n ==> IsDigit(s[k])
    requires p + n < |s| ==> !IsDigit(s[p + n])
    ensures p + Min(4, SkipDigits(s, p) - p) == p + n
  {
    SkipDigitsUntil(s, p, p + n);
  }

  /** A dash episode group runs from p to y. */
  predicate DashEpisodeTo(s: string, p: nat, y: nat) {
    DashEpisodeAt(s, Span(p, y))
  }

  /** The episode group and everything after it, from p; the result is where the
      group ends. With a decimal part tried first, then without it. */
  function DashEpisode(s: string, p: nat): (r: Option<nat>)
    requires p <= |s|
    ensures r.Some? ==> p < r.value <= |s| && EpisodeText(s[p..r.value], 4, true)
    ensures r.Some? ==> VersionThenStop(s, r.value)
    ensures r.Some? ==> DashEpisodeAt(s, Span(p, r.value))
  {
    var x := p + Min(4, SkipDigits(s, p) - p);
    if x == p then None
    else if x + 1 < |s| && s[x] == '.' && IsDigit(s[x + 1]) && VersionThenStop(s, x + 2) then
      SkipDigitsSlice(s, p, x, x + 2);
      assert s[p..x + 2][x - p] == s[x] && s[p..x + 2][x - p + 1] == s[x + 1];
      Some(x + 2)
    else if VersionThenStop(s, x) then
      SkipDigitsSlice(s, p, x, x);
      Some(x)
    else None
  }

  /** The end DashEpisode finds is the only one: every episode group from p,
      with the version tag and the stop after it, ends there. */
  lemma DashEpisodeOnly(s: string, p: nat, y: nat)
    requires p <= |s| && DashEpisodeTo(s, p, y)
    ensures DashEpisode(s, p) == Some(y)
  {
    DashEpisodeEnds(s, p, y);
  }

  /** `S(?P<season>\d{1,2})` in front of the episode, with the `S` after position lo. */
  predicate SeasonClause(s: string, lo: nat, season: Span, episode: Span) {
    && lo < season.start && season.end <= episode.start
    && SeasonDigits(s, season) && Lower(s[season.start - 1]) == 's'
  }

  lemma SeasonClauseFrom(s: string, lo: nat, lo': nat, season: Span, episode: Span)
    requires lo <= lo' && SeasonClause(s, lo', season, episode)
    ensures SeasonClause(s, lo, season, episode)
  {
  }

  /** Only whitespace in s[i..j]. */
  predicate SpacesIn(s: string, i: nat, j: nat) {
    i <= j <= |s| && forall k :: i <= k < j ==> IsSpace(s[k])
  }

  /** `\s*(?:-|–)\s*` covers s[e..q], with the dash at d. */
  predicate DashRun(s: string, e: nat, d: nat, q: nat) {
    e <= d < q <= |s| && IsDash(s[d]) && SpacesIn(s, e, d) && SpacesIn(s, d + 1, q)
  }

  /** `\s*(?:-|–)?\s*` covers s[r..e]. */
  ghost predicate SeparatorRun(s: string, r: nat, e: nat) {
    SpacesIn(s, r, e) || exists d :: DashRun(s, r, d, e)
  }

  /** Where `\s*(?:-|–)?\s*` after the season digits leaves the episode to start: the
      greedy choice, the only one that can stop in front of a digit. */
  function EpisodeStart(s: string, r: nat): (e: nat)
    requires r <= |s|
    ensures SeparatorRun(s, r, e)
  {
    var r1 := SkipSpaces(s, r);
    if r1 < |s| && IsDash(s[r1]) then
      var e := SkipSpaces(s, r1 + 1);
      assert DashRun(s, r, r1, e);
      e
    else r1
  }

  /** Every other way of covering whitespace and a dash from r stops on whitespace
      or on the dash, where the episode's first digit cannot be. */
  lemma EpisodeStartOnly(s: string, r: nat)
    requires r <= |s|
    ensures forall e': nat :: SpacesIn(s, r, e') && e' < |s| && IsDigit(s[e']) ==> e' == EpisodeStart(s, r)
    ensures forall d: nat, e': nat :: DashRun(s, r, d, e') && e' < |s| && IsDigit(s[e']) ==> e' == EpisodeStart(s, r)
  {
  }

  /** No separator run from r lets the episode follow it. */
  ghost predicate NoSeparatorEpisode(s: string, r: nat) {
    && (forall e': nat :: SpacesIn(s, r, e') ==> DashEpisode(s, e').None?)
    && (forall d: nat, e': nat :: DashRun(s, r, d, e') ==> DashEpisode(s, e').None?)
  }

  /** The greedy run from r is not followed by the episode. */
  predicate NoEpisodeAfter(s: string, r: nat) {
    r <= |s| && DashEpisode(s, EpisodeStart(s, r)).None?
  }

  /** The greedy run decides: it is the only one that can lead to the episode. */
  lemma NoEpisodeAfterStart(s: string, r: nat)
    requires r <= |s|
    ensures NoEpisodeAfter(s, r) <==> NoSeparatorEpisode(s, r)
  {
    if NoEpisodeAfter(s, r) {
      EpisodeStartOnly(s, r);
      forall e': nat | SpacesIn(s, r, e')
        ensures DashEpisode(s, e').None?
      {
      }
      forall d: nat, e': nat | DashRun(s, r, d, e')
        ensures DashEpisode(s, e').None?
      {
      }
    } else {
      var e := EpisodeStart(s, r);
      if !SpacesIn(s, r, e) {
        var d :| DashRun(s, r, d, e);
      }
    }
  }

  /** No episode follows the season digits s[q+1..q+1+n]. */
  predicate NoEpisodeAfterSeason(s: string, q: nat, n: nat) {
    NoEpisodeAfter(s, q + 1 + n)
  }

  /** The season clauses of lo+1 .. hi digits at q are all followed by no episode. */
  ghost predicate SeasonTried(s: string, q: nat, lo: int, hi: nat) {
    forall n: nat :: lo < n <= hi ==> NoEpisodeAfterSeason(s, q, n)
  }

  lemma SeasonTriedStep(s: string, q: nat, lo: int, hi: nat)
    requires 0 < hi && SeasonTried(s, q, lo, hi - 1) && NoEpisodeAfterSeason(s, q, hi)
    ensures SeasonTried(s, q, lo, hi)
  {
  }

  /** `S` has matched at q; `(?P<season>\d{1,2})` is tried with d digits, then fewer.
      One digit can succeed where two failed: the second digit then starts the episode. */
  function DashSeasonEpisode(s: string, q: nat, d: nat): (r: Option<(Span, Span)>)
    requires d <= 2 && q + 1 + d <= |s|
    requires forall k :: q + 1 <= k < q + 1 + d ==> IsDigit(s[k])
    ensures r.Some? ==> var (season, episode) := r.value;
      && season.start == q + 1 && season.end <= q + 1 + d
      && SeasonDigits(s, season)
      && season.end <= episode.start < episode.end
      && SeparatorRun(s, season.end, episode.start)
      && DashEpisodeAt(s, episode)
    decreases d
  {
    if d == 0 then None
    else
      var r := q + 1 + d;
      var e := EpisodeStart(s, r);
      match DashEpisode(s, e)
      case Some(end) => Some((Span(q + 1, r), Span(e, end)))
      case None =>
        DashSeasonEpisode(s, q, d - 1)
  }

  /** No episode after d season digits: the result is the one for d - 1 digits. */
  lemma DashSeasonShorter(s: string, q: nat, d: nat)
    requires 0 < d <= 2 && q + 1 + d <= |s|
    requires forall k :: q + 1 <= k < q + 1 + d ==> IsDigit(s[k])
    requires DashEpisode(s, EpisodeStart(s, q + 1 + d)).None?
    ensures DashSeasonEpisode(s, q, d) == DashSeasonEpisode(s, q, d - 1)
  {
  }

  /** An episode after d season digits: those d digits are the season. */
  lemma DashSeasonHere(s: string, q: nat, d: nat)
    requires 0 < d <= 2 && q + 1 + d <= |s|
    requires forall k :: q + 1 <= k < q + 1 + d ==> IsDigit(s[k])
    requires DashEpisode(s, EpisodeStart(s, q + 1 + d)).Some?
    ensures DashSeasonEpisode(s, q, d).Some? && DashSeasonEpisode(s, q, d).value.0.end == q + 1 + d
  {
  }

  /** Every season clause longer than the one r reports (every one, when r is
      None), up to d digits, is followed by no episode. */
  ghost predicate SeasonTriedFor(s: string, q: nat, d: nat, r: Option<(Span, Span)>) {
    && (r.Some? ==> SeasonTried(s, q, r.value.0.end - (q + 1), d))
    && (r.None? ==> SeasonTried(s, q, 0, d))
  }

  lemma SeasonTriedForStep(s: string, q: nat, d: nat, r: Option<(Span, Span)>)
    requires 0 < d && SeasonTriedFor(s, q, d - 1, r) && NoEpisodeAfterSeason(s, q, d)
    ensures SeasonTriedFor(s, q, d, r)
  {
    if r.Some? {
      SeasonTriedStep(s, q, r.value.0.end - (q + 1), d);
    } else {
      SeasonTriedStep(s, q, 0, d);
    }
  }

  /** The season digits are tried longest first: every longer season clause than
      the one reported (every one, when None is reported) is followed by no episode. */
  lemma {:induction false} DashSeasonTried(s: string, q: nat, d: nat)
    requires d <= 2 && q + 1 + d <= |s|
    requires forall k :: q + 1 <= k < q + 1 + d ==> IsDigit(s[k])
    ensures SeasonTriedFor(s, q, d, DashSeasonEpisode(s, q, d))
    decreases d, 1
  {
    if d > 0 {
      if DashEpisode(s, EpisodeStart(s, q + 1 + d)).None? {
        DashSeasonTriedNone(s, q, d);
      } else {
        DashSeasonHere(s, q, d);
      }
    }
  }

  lemma {:induction false} DashSeasonTriedNone(s: string, q: nat, d: nat)
    requires 0 < d <= 2 && q + 1 + d <= |s|
    requires forall k :: q + 1 <= k < q + 1 + d ==> IsDigit(s[k])
    requires DashEpisode(s, EpisodeStart(s, q + 1 + d)).None?
    ensures SeasonTriedFor(s, q, d, DashSeasonEpisode(s, q, d))
    decreases d, 0
  {
    var r := DashSeasonEpisode(s, q, d - 1);
    DashSeasonTried(s, q, d - 1);
    DashSeasonShorter(s, q, d);
    SeasonTriedForStep(s, q, d, r);
  }

  /** `S\d{n}` at q. */
  predicate SeasonPrefix(s: string, q: nat, n: nat) {
    q + 1 + n <= |s| && Lower(s[q]) == 's' && forall k :: q + 1 <= k < q + 1 + n ==> IsDigit(s[k])
  }

  /** No season clause of more than lo digits at q is followed by the episode. */
  ghost predicate NoSeasonAt(s: string, q: nat, lo: nat) {
    forall n :: lo < n <= 2 && SeasonPrefix(s, q, n) ==> NoEpisodeAfterSeason(s, q, n)
  }

  /** How many season digits the clause at q tries first: up to two, and none
      when there is no `S` at q. */
  function SeasonDigitsTried(s: string, q: nat): (d: nat)
    requires q <= |s|
    ensures d <= 2 && (d > 0 ==> SeasonPrefix(s, q, d))
  {
    if q < |s| && Lower(s[q]) == 's' then Min(2, SkipDigits(s, q + 1) - (q + 1)) else 0
  }

  /** No season clause has more digits than those tried first. */
  lemma SeasonPrefixTried(s: string, q: nat, n: nat)
    requires q <= |s| && n <= 2 && SeasonPrefix(s, q, n)
    ensures n <= SeasonDigitsTried(s, q)
  {
  }

  lemma NoSeasonAtTried(s: string, q: nat, lo: nat)
    requires q <= |s| && SeasonTried(s, q, lo, SeasonDigitsTried(s, q))
    ensures NoSeasonAt(s, q, lo)
  {
    forall n | lo < n <= 2 && SeasonPrefix(s, q, n)
      ensures NoEpisodeAfterSeason(s, q, n)
    {
      SeasonPrefixTried(s, q, n);
    }
  }

  /** After the separator and its whitespace (at q): the optional season clause,
      tried first (two digits, then one), then the episode alone. */
  function DashAfterSeparator(s: string, q: nat): (r: Option<(Option<Span>, Span)>)
    requires q <= |s|
    ensures r.Some? ==> q < |s| && (Lower(s[q]) == 's' || IsDigit(s[q]))
    ensures r.Some? ==> q <= r.value.1.start < r.value.1.end && DashEpisodeAt(s, r.value.1)
    ensures r.Some? && r.value.0.Some? ==> var season := r.value.0.value;
      && SeasonClause(s, q, season, r.value.1) && season.start == q + 1
      && SeparatorRun(s, season.end, r.value.1.start)
    ensures r.Some? && r.value.0.None? ==> r.value.1.start == q
    ensures r.None? ==> DashEpisode(s, q).None?
  {
    var withSeason := if SeasonDigitsTried(s, q) > 0 then DashSeasonEpisode(s, q, SeasonDigitsTried(s, q)) else None;
    match withSeason
    case Some((season, episode)) => Some((Some(season), episode))
    case None =>
      match DashEpisode(s, q)
      case Some(end) =>
        EpisodeTextStartsWithDigit(s[q..end], 4, true);
        assert s[q..end][0] == s[q];
        Some((None, Span(q, end)))
      case None => None
  }

  /** The season clause is tried before the episode alone, and with its longest
      digit run first: no longer season clause than the one reported (none at
      all, when the episode stands alone or nothing matches) leads to the episode. */
  lemma DashAfterSeparatorOrder(s: string, q: nat)
    requires q <= |s|
    ensures var r := DashAfterSeparator(s, q);
      && (r.Some? && r.value.0.Some? ==> NoSeasonAt(s, q, r.value.0.value.end - (q + 1)))
      && (r.Some? && r.value.0.None? ==> NoSeasonAt(s, q, 0))
      && (r.None? ==> NoSeasonAt(s, q, 0))
  {
    var d := SeasonDigitsTried(s, q);
    var withSeason := if d > 0 then DashSeasonEpisode(s, q, d) else None;
    if d > 0 {
      DashSeasonTried(s, q, d);
    }
    match withSeason
    case Some((season, episode)) =>
      NoSeasonAtTried(s, q, season.end - (q + 1));
    case None =>
      NoSeasonAtTried(s, q, 0);
  }

  /** Whitespace in front of the separator belongs to it. */
  lemma DashRunSpace(s: string, e: nat, d: nat, q: nat)
    requires e < |s| && IsSpace(s[e])
    ensures DashRun(s, e, d, q) <==> DashRun(s, e + 1, d, q)
  {
  }

  /** After a dash at e, the separator can only stop after all the whitespace. */
  lemma DashRunAfterDash(s: string, e: nat, d: nat, q: nat)
    requires e < |s| && IsDash(s[e]) && DashRun(s, e, d, q) && q < |s| && !IsSpace(s[q])
    ensures d == e && q == SkipSpaces(s, e + 1)
  {
    SkipSpacesUntil(s, e + 1, q);
  }

  /** What `DashTail` reports from e: the groups after a separator `\s*(?:-|–)\s*`
      that some choice of it leads to, or None when no choice does. */
  ghost predicate DashTailFrom(s: string, e: nat, r: Option<(Option<Span>, Span)>) {
    && (r.Some? ==> exists d: nat, q: nat :: DashRun(s, e, d, q) && DashAfterSeparator(s, q) == r)
    && (r.None? ==> forall d: nat, q: nat :: DashRun(s, e, d, q) ==> DashAfterSeparator(s, q).None?)
  }

  lemma DashTailSpace(s: string, e: nat, r: Option<(Option<Span>, Span)>)
    requires e < |s| && IsSpace(s[e]) && DashTailFrom(s, e + 1, r)
    ensures DashTailFrom(s, e, r)
  {
    if r.Some? {
      var d: nat, q: nat :| DashRun(s, e + 1, d, q) && DashAfterSeparator(s, q) == r;
      DashRunSpace(s, e, d, q);
    } else {
      forall d: nat, q: nat | DashRun(s, e, d, q)
        ensures DashAfterSeparator(s, q).None?
      {
        DashRunSpace(s, e, d, q);
      }
    }
  }

  lemma DashTailDash(s: string, e: nat)
    requires e < |s| && IsDash(s[e])
    ensures DashTailFrom(s, e, DashAfterSeparator(s, SkipSpaces(s, e + 1)))
  {
    var q := SkipSpaces(s, e + 1);
    assert DashRun(s, e, e, q);
    if DashAfterSeparator(s, q).None? {
      forall d: nat, q': nat | DashRun(s, e, d, q') && DashAfterSeparator(s, q').Some?
        ensures false
      {
        DashRunAfterDash(s, e, d, q');
      }
    }
  }

  /** A season clause found from lo' is one from any lo <= lo'. */
  lemma TailSeasonFrom(s: string, lo: nat, lo': nat, r: Option<(Option<Span>, Span)>)
    requires lo <= lo'
    requires r.Some? && r.value.0.Some? ==> SeasonClause(s, lo', r.value.0.value, r.value.1)
    ensures r.Some? && r.value.0.Some? ==> SeasonClause(s, lo, r.value.0.value, r.value.1)
  {
    if r.Some? && r.value.0.Some? {
      SeasonClauseFrom(s, lo, lo', r.value.0.value, r.value.1);
    }
  }

  /** Without whitespace or a dash at e, no separator starts there. */
  lemma DashTailNone(s: string, e: nat)
    requires e <= |s| && !(e < |s| && (IsSpace(s[e]) || IsDash(s[e])))
    ensures DashTailFrom(s, e, None)
  {
    NoDashRun(s, e);
  }

  lemma NoDashRun(s: string, e: nat)
    requires e <= |s| && !(e < |s| && (IsSpace(s[e]) || IsDash(s[e])))
    ensures forall d: nat, q: nat :: !DashRun(s, e, d, q)
  {
  }

  /** Everything after the title: `\s*(?:-|–)\s*`, then the optional season clause
      and the episode. Gives the season and episode groups. Only the greedy runs
      around the dash can leave the next character to the season or the episode. */
  function DashTail(s: string, e: nat): (r: Option<(Option<Span>, Span)>)
    requires e <= |s|
    ensures r.Some? ==> e < r.value.1.start < r.value.1.end && DashEpisodeAt(s, r.value.1)
    ensures r.Some? && r.value.0.Some? ==> SeasonClause(s, e, r.value.0.value, r.value.1)
    ensures DashTailFrom(s, e, r)
    decreases |s| - e
  {
    if e < |s| && IsSpace(s[e]) then
      var r := DashTail(s, e + 1);
      TailSeasonFrom(s, e, e + 1, r);
      DashTailSpace(s, e, r);
      r
    else if e < |s| && IsDash(s[e]) then
      var q := SkipSpaces(s, e + 1);
      var r := DashAfterSeparator(s, q);
      TailSeasonFrom(s, e, q, r);
      DashTailDash(s, e);
      r
    else
      DashTailNone(s, e);
      None
  }

  /** No title from a ending at e or later, as far as the next newline, is
      followed by the tail. */
  ghost predicate NoDashEnd(s: string, a: nat, e: nat) {
    forall e' :: e <= e' <= |s| && NoNewlineIn(s, a, e') ==> DashTail(s, e').None?
  }

  /** What `DashTitle` reports: the shortest title from a, ending at e or later,
      with a tail after it, or None when there is none. */
  ghost predicate DashTitleFrom(s: string, a: nat, e: nat, r: Option<Groups>) {
    && (r.Some? ==> r.value.title.start == a && e <= r.value.title.end <= |s|)
    && (r.Some? ==> NoNewlineIn(s, a, r.value.title.end) && r.value.seasonRaw.None?)
    && (r.Some? ==> DashTail(s, r.value.title.end) == Some((r.value.season, r.value.episode)))
    && (r.Some? ==> forall e' :: e <= e' < r.value.title.end ==> DashTail(s, e').None?)
    && (r.None? ==> NoDashEnd(s, a, e))
  }

  /** No tail at e: the title found from e + 1 is the one from e. */
  lemma DashTitleStep(s: string, a: nat, e: nat, r: Option<Groups>)
    requires e < |s| && DashTail(s, e).None? && DashTitleFrom(s, a, e + 1, r)
    ensures DashTitleFrom(s, a, e, r)
  {
  }

  /** The lazy title `.+?` starting at a: title ends e, e+1, ... are tried in turn,
      and the title never takes in a newline. */
  function DashTitle(s: string, a: nat, e: nat): (r: Option<Groups>)
    requires a < e <= |s|
    requires NoNewlineIn(s, a, e - 1)
    ensures r.Some? ==> r.value.title.start == a && e <= r.value.title.end <= |s|
    ensures r.Some? ==> NoNewlineIn(s, a, r.value.title.end) && r.value.seasonRaw.None?
    ensures r.Some? ==> DashTail(s, r.value.title.end) == Some((r.value.season, r.value.episode))
    ensures r.Some? ==> forall e' :: e <= e' < r.value.title.end ==> DashTail(s, e').None?
    ensures r.None? ==> NoDashEnd(s, a, e)
    decreases |s| - e
  {
    if s[e - 1] == '\n' then
      NoDashEndAfterNewline(s, a, e);
      None
    else
      var tail := DashTail(s, e);
      NoNewlineExtend(s, a, e);
      if tail.Some? then Some(Groups(Span(a, e), tail.value.0, None, tail.value.1))
      else if e < |s| then
        var r := DashTitle(s, a, e + 1);
        DashTitleStep(s, a, e, r);
        r
      else
        NoDashEndLast(s, a);
        None
  }

  /** A title cannot take in the newline at e - 1. */
  lemma NoDashEndAfterNewline(s: string, a: nat, e: nat)
    requires a < e <= |s| && s[e - 1] == '\n'
    ensures NoDashEnd(s, a, e)
  {
  }

  lemma NoNewlineExtend(s: string, a: nat, e: nat)
    requires a < e <= |s| && NoNewlineIn(s, a, e - 1) && s[e - 1] != '\n'
    ensures NoNewlineIn(s, a, e)
  {
  }

  /** With no tail at the very end, no title ends there. */
  lemma NoDashEndLast(s: string, a: nat)
    requires DashTail(s, |s|).None?
    ensures NoDashEnd(s, a, |s|)
  {
  }

  /** No title `.+?` starting at c is followed by the tail. */
  ghost predicate NoDashTitle(s: string, c: nat) {
    NoDashEnd(s, c, c + 1)
  }

  /** What `DashTitleStart` reports: the shortest title with a tail after it,
      starting as late as possible between lo and hi; None when no start there has one. */
  ghost predicate DashTitleIn(s: string, lo: nat, hi: nat, r: Option<Groups>) {
    && (r.Some? ==> lo <= r.value.title.start <= hi && r.value.title.start < r.value.title.end <= |s|)
    && (r.Some? ==> NoNewlineIn(s, r.value.title.start, r.value.title.end) && r.value.seasonRaw.None?)
    && (r.Some? ==> DashTail(s, r.value.title.end) == Some((r.value.season, r.value.episode)))
    && (r.Some? ==> forall e' :: r.value.title.start < e' < r.value.title.end ==> DashTail(s, e').None?)
    && (r.Some? ==> forall c :: r.value.title.start < c <= hi ==> NoDashTitle(s, c))
    && (r.None? ==> forall c :: lo <= c <= hi ==> NoDashTitle(s, c))
  }

  /** A title found at a is the shortest one from a. */
  lemma DashTitleHere(s: string, b: nat, a: nat)
    requires b <= a < |s| && DashTitle(s, a, a + 1).Some?
    ensures DashTitleIn(s, b, a, DashTitle(s, a, a + 1))
  {
  }

  /** `\s*(?P<title>.+?)` after the `]` at b - 1: the greedy `\s*` first leaves the title
      to start after all the whitespace (at a), then gives whitespace back one character
      at a time: the title start moves left from a down to b. */
  function DashTitleStart(s: string, b: nat, a: nat): (r: Option<Groups>)
    requires b <= a <= |s|
    ensures r.Some? ==> b <= r.value.title.start <= a && r.value.title.start < r.value.title.end <= |s|
    ensures r.Some? ==> NoNewlineIn(s, r.value.title.start, r.value.title.end) && r.value.seasonRaw.None?
    ensures r.Some? ==> DashTail(s, r.value.title.end) == Some((r.value.season, r.value.episode))
    ensures r.Some? ==> forall e' :: r.value.title.start < e' < r.value.title.end ==> DashTail(s, e').None?
    ensures r.Some? ==> forall c :: r.value.title.start < c <= a ==> NoDashTitle(s, c)
    ensures r.None? ==> forall c :: b <= c <= a ==> NoDashTitle(s, c)
    decreases a
  {
    if a < |s| && DashTitle(s, a, a + 1).Some? then
      DashTitleHere(s, b, a);
      DashTitle(s, a, a + 1)
    else
      assert NoDashTitle(s, a);
      if a > b then
        var r := DashTitleStart(s, b, a - 1);
        assert DashTitleIn(s, b, a - 1, r);
        r
      else None
  }

  /** No title follows the `]` at j: wherever the `\s*` after it stops. */
  ghost predicate NoDashAfterBracket(s: string, j: nat) {
    j < |s| && forall c :: j < c <= SkipSpaces(s, j + 1) ==> NoDashTitle(s, c)
  }

  /** What `DashFrom` reports from k: the `]` at j is the first one (before a newline)
      with a title after it, and the title starts where `DashTitleStart` tries first. */
  ghost predicate DashBracket(s: string, k: nat, j: nat, g: Groups) {
    && k <= j < |s| && s[j] == ']' && NoNewlineIn(s, k, j)
    && j < g.title.start <= SkipSpaces(s, j + 1)
    && (forall j' :: k <= j' < j && s[j'] == ']' ==> NoDashAfterBracket(s, j'))
    && (forall c :: g.title.start < c <= SkipSpaces(s, j + 1) ==> NoDashTitle(s, c))
  }

  /** No `]` from k on is tried past the end or a newline at k. */
  lemma DashFromStop(s: string, k: nat)
    requires k <= |s| && (k == |s| || s[k] == '\n')
    ensures forall j :: k <= j < |s| && s[j] == ']' && NoNewlineIn(s, k, j) ==> NoDashAfterBracket(s, j)
  {
  }

  /** A title after the `]` at k is the one reported from k. */
  lemma DashFromHere(s: string, k: nat, g: Groups)
    requires k < |s| && s[k] == ']' && DashTitleStart(s, k + 1, SkipSpaces(s, k + 1)) == Some(g)
    ensures DashBracket(s, k, k, g)
  {
  }

  /** Past a character at k that is no newline and no `]` with a title after it,
      no `]` from k has a title after it when none from k + 1 has. */
  lemma DashNonePast(s: string, k: nat)
    requires k < |s| && s[k] != '\n' && (s[k] == ']' ==> NoDashAfterBracket(s, k))
    requires forall j :: k + 1 <= j < |s| && s[j] == ']' && NoNewlineIn(s, k + 1, j) ==> NoDashAfterBracket(s, j)
    ensures forall j :: k <= j < |s| && s[j] == ']' && NoNewlineIn(s, k, j) ==> NoDashAfterBracket(s, j)
  {
    forall j | k < j < |s| && s[j] == ']' && NoNewlineIn(s, k, j)
      ensures NoDashAfterBracket(s, j)
    {
      NoNewlinePast(s, k, j);
    }
  }

  /** A `]` at k with no title after it. */
  lemma DashFromPastBracket(s: string, k: nat)
    requires k < |s| && s[k] == ']' ==> DashTitleStart(s, k + 1, SkipSpaces(s, k + 1)).None?
    ensures k < |s| && s[k] == ']' ==> NoDashAfterBracket(s, k)
  {
  }

  lemma NoNewlinePast(s: string, k: nat, j: nat)
    requires k < j && NoNewlineIn(s, k, j)
    ensures NoNewlineIn(s, k + 1, j)
  {
  }

  lemma DashBracketPast(s: string, k: nat, j: nat, g: Groups)
    requires k < |s| && s[k] != '\n' && (s[k] == ']' ==> NoDashAfterBracket(s, k))
    requires DashBracket(s, k + 1, j, g)
    ensures DashBracket(s, k, j, g)
  {
    NoNewlineBefore(s, k, j);
    NoDashBracketsBefore(s, k, j);
  }

  lemma NoNewlineBefore(s: string, k: nat, j: nat)
    requires k < |s| && s[k] != '\n' && NoNewlineIn(s, k + 1, j)
    ensures NoNewlineIn(s, k, j)
  {
  }

  lemma NoDashBracketsBefore(s: string, k: nat, j: nat)
    requires k < |s| && j <= |s| && (s[k] == ']' ==> NoDashAfterBracket(s, k))
    requires forall j' :: k + 1 <= j' < j && s[j'] == ']' ==> NoDashAfterBracket(s, j')
    ensures forall j' :: k <= j' < j && s[j'] == ']' ==> NoDashAfterBracket(s, j')
  {
  }

  /** `^.*?\]`: each `]` is tried from the left, as far as the first newline. */
  function DashFrom(s: string, k: nat): (r: Option<Groups>)
    requires k <= |s|
    ensures r.Some? ==> var g := r.value;
      && k < g.title.start < g.title.end <= |s|
      && NoNewlineIn(s, g.title.start, g.title.end) && DashTail(s, g.title.end) == Some((g.season, g.episode))
      && g.seasonRaw.None?
      && forall e' :: g.title.start < e' < g.title.end ==> DashTail(s, e').None?
    ensures r.Some? ==> exists j :: DashBracket(s, k, j, r.value)
    ensures r.None? ==> forall j :: k <= j < |s| && s[j] == ']' && NoNewlineIn(s, k, j) ==> NoDashAfterBracket(s, j)
    decreases |s| - k
  {
    if k == |s| || s[k] == '\n' then
      DashFromStop(s, k);
      None
    else
      var here := if s[k] == ']' then DashTitleStart(s, k + 1, SkipSpaces(s, k + 1)) else None;
      if here.Some? then
        DashFromHere(s, k, here.value);
        here
      else
        var r := DashFrom(s, k + 1);
        DashFromPastBracket(s, k);
        if r.Some? then
          assert exists j :: DashBracket(s, k, j, r.value) by {
            var j :| DashBracket(s, k + 1, j, r.value);
            DashBracketPast(s, k, j, r.value);
          }
          r
        else
          DashNonePast(s, k);
          None
  }

  /** Strategy 1 on a whole filename. */
  function DashMatch(s: string): (r: Option<Groups>)
    ensures r.Some? ==> var g := r.value;
      && g.title.start < g.title.end <= |s|
      && NoNewlineIn(s, g.title.start, g.title.end) && DashTail(s, g.title.end) == Some((g.season, g.episode))
      && g.seasonRaw.None?
      && forall e' :: g.title.start < e' < g.title.end ==> DashTail(s, e').None?
    ensures r.Some? ==> exists j :: DashBracket(s, 0, j, r.value)
    ensures r.None? ==> forall j :: 0 <= j < |s| && s[j] == ']' && NoNewlineIn(s, 0, j) ==> NoDashAfterBracket(s, j)
  {
    DashFrom(s, 0)
  }

  /** The dash pattern needs a `]` before the title. */
  lemma NoBracketNoDash(s: string)
    requires forall j :: 0 <= j < |s| ==> s[j] != ']'
    ensures DashMatch(s).None?
  {
  }

  /** The dash pattern needs a dash. */
  lemma NoDashNoDashMatch(s: string)
    requires forall j :: 0 <= j < |s| ==> !IsDash(s[j])
    ensures DashMatch(s).None?
  {
  }

  /** A title from a ends at the first e with a tail, so no title starts at a. */
  lemma DashTitleFound(s: string, a: nat, e: nat)
    requires a < e <= |s| && NoNewlineIn(s, a, e) && DashTail(s, e).Some?
    ensures !NoDashTitle(s, a)
  {
  }

  /** A `]` at j with a title after it: the dash pattern matches. */
  lemma DashMatchFound(s: string, j: nat)
    requires j < |s| && s[j] == ']' && NoNewlineIn(s, 0, j) && !NoDashAfterBracket(s, j)
    ensures DashMatch(s).Some?
  {
  }

  /** When the `]` at j is the first and has a title after it, the match is taken at j. */
  lemma DashBracketFirst(s: string, j: nat, j': nat, g: Groups)
    requires j < |s| && s[j] == ']' && (forall i :: 0 <= i < j ==> s[i] != ']') && !NoDashAfterBracket(s, j)
    requires DashBracket(s, 0, j', g)
    ensures j' == j
  {
  }

  /** Taken at j, the title starts where the whitespace stops when a title starts there. */
  lemma DashBracketStart(s: string, j: nat, g: Groups)
    requires DashBracket(s, 0, j, g) && !NoDashTitle(s, SkipSpaces(s, j + 1))
    ensures g.title.start == SkipSpaces(s, j + 1)
  {
  }

  /** Two title ends from a, each the first with a tail, are the same. */
  lemma DashTitleEndOnly(s: string, a: nat, e: nat, e2: nat)
    requires a < e <= |s| && a < e2 <= |s| && DashTail(s, e).Some? && DashTail(s, e2).Some?
    requires forall e' :: a < e' < e ==> DashTail(s, e').None?
    requires forall e' :: a < e' < e2 ==> DashTail(s, e').None?
    ensures e == e2
  {
  }

  /** When the first `]` is at j, with no newline before it, and the title tried first
      after it (from a, where the whitespace stops) first has a tail at e, that title
      is the match. */
  lemma DashMatchAt(s: string, j: nat, a: nat, e: nat)
    requires j < |s| && s[j] == ']' && forall i :: 0 <= i < j ==> s[i] != ']' && s[i] != '\n'
    requires a == SkipSpaces(s, j + 1) && a < e <= |s| && NoNewlineIn(s, a, e)
    requires forall e' :: a < e' < e ==> DashTail(s, e').None?
    requires DashTail(s, e).Some?
    ensures DashMatch(s) == Some(Groups(Span(a, e), DashTail(s, e).value.0, None, DashTail(s, e).value.1))
  {
    DashTitleFound(s, a, e);
    assert !NoDashAfterBracket(s, j);
    DashMatchFound(s, j);
    var g := DashMatch(s).value;
    var j' :| DashBracket(s, 0, j', g);
    DashBracketFirst(s, j, j', g);
    DashBracketStart(s, j, g);
    DashTitleEndOnly(s, a, e, g.title.end);
  }

  // ---------------------------------------------------------------------------
  // Strategy 2, SxxExx:
  // (?P<title>.*?)[\s\.]S(?P<season>\d{1,2})E(?P<episode>\d{1,3})
  // ---------------------------------------------------------------------------

  /** `[\s\.]S(\d{1,2})E\d` with the separator at e and the season digits ending at x. */
  predicate SeShape(s: string, e: nat, x: nat) {
    && e + 2 < x <= e + 4 && x + 1 < |s|
    && (IsSpace(s[e]) || s[e] == '.') && Lower(s[e + 1]) == 's'
    && (forall k :: e + 2 <= k < x ==> IsDigit(s[k]))
    && Lower(s[x]) == 'e' && IsDigit(s[x + 1])
  }

  /** Only the greedy season run can be followed by `E`. */
  lemma SeShapeGreedy(s: string, e: nat)
    requires e + 2 <= |s|
    ensures forall x :: SeShape(s, e, x) ==> x == e + 2 + Min(2, SkipDigits(s, e + 2) - (e + 2))
  {
    forall x | SeShape(s, e, x)
      ensures x == e + 2 + Min(2, SkipDigits(s, e + 2) - (e + 2))
    {
      SkipDigitsUntil(s, e + 2, x);
    }
  }

  /** The greedy season and episode runs, when `E` and a digit sit between them. */
  lemma SeFixedFound(s: string, e: nat, x: nat, y: nat)
    requires e + 1 < |s| && (IsSpace(s[e]) || s[e] == '.') && Lower(s[e + 1]) == 's'
    requires x == e + 2 + Min(2, SkipDigits(s, e + 2) - (e + 2))
    requires e + 2 < x && x + 1 < |s| && Lower(s[x]) == 'e' && IsDigit(s[x + 1])
    requires y == x + 1 + Min(3, SkipDigits(s, x + 1) - (x + 1))
    ensures SeGroups(s, e, Span(e + 2, x), Span(x + 1, y))
  {
    SkipDigitsSlice(s, x + 1, y, y);
    var d := s[e + 2..x];
    assert forall k :: 0 <= k < |d| ==> d[k] == s[e + 2 + k];
  }

  /** The season and episode groups of `[\s\.]S(\d{1,2})E(\d{1,3})` with the
      separator at e; the episode run stops at a non-digit or after three digits. */
  predicate SeGroups(s: string, e: nat, season: Span, episode: Span) {
    && season.start == e + 2 && SeShape(s, e, season.end) && SeasonDigits(s, season)
    && episode.start == season.end + 1 && InBounds(s, episode) && EpisodeText(Slice(s, episode), 3, false)
    && (episode.end == |s| || !IsDigit(s[episode.end]) || episode.end - episode.start == 3)
  }

  /** `[\s\.]S(?P<season>\d{1,2})E(?P<episode>\d{1,3})` with the separator at e. A
      shorter season would leave a digit where `E` is required; `\d{1,3}` ends the
      pattern, so its first (longest) choice is the match. */
  function SeFixed(s: string, e: nat): (r: Option<(Span, Span)>)
    requires e <= |s|
    ensures r.Some? ==> SeGroups(s, e, r.value.0, r.value.1)
    ensures r.None? ==> forall x :: !SeShape(s, e, x)
  {
    if e + 1 < |s| && (IsSpace(s[e]) || s[e] == '.') && Lower(s[e + 1]) == 's' then
      var b := e + 2;
      var x := b + Min(2, SkipDigits(s, b) - b);
      if b < x && x + 1 < |s| && Lower(s[x]) == 'e' && IsDigit(s[x + 1]) then
        var y := x + 1 + Min(3, SkipDigits(s, x + 1) - (x + 1));
        SeFixedFound(s, e, x, y);
        Some((Span(b, x), Span(x + 1, y)))
      else
        SeShapeGreedy(s, e);
        None
    else None
  }

  /** No title end from e on, as far as the next newline, is followed by the
      separator and `SxxExx`. */
  predicate NoSeEnd(s: string, e: nat) {
    forall e' :: e <= e' <= |s| && NoNewlineIn(s, e, e') ==> SeFixed(s, e').None?
  }

  lemma NoSeEndStep(s: string, e: nat)
    requires e < |s| && SeFixed(s, e).None? && NoSeEnd(s, e + 1)
    ensures NoSeEnd(s, e)
  {
  }

  /** The lazy title `.*?` from st: title ends e, e+1, ... until a newline. */
  function SeTitle(s: string, st: nat, e: nat): (r: Option<Groups>)
    requires st <= e <= |s|
    requires NoNewlineIn(s, st, e)
    ensures r.Some? ==> var g := r.value;
      && g.title.start == st && e <= g.title.end <= |s| && NoNewlineIn(s, g.title.start, g.title.end)
      && g.season.Some? && SeFixed(s, g.title.end) == Some((g.season.value, g.episode))
      && g.seasonRaw.None?
    ensures r.Some? ==> forall e' :: e <= e' < r.value.title.end ==> SeFixed(s, e').None?
    ensures r.None? ==> NoSeEnd(s, e)
    decreases |s| - e
  {
    match SeFixed(s, e)
    case Some((season, episode)) => Some(Groups(Span(st, e), Some(season), None, episode))
    case None =>
      if e < |s| && s[e] != '\n' then
        NoNewlineExtend(s, st, e + 1);
        var r := SeTitle(s, st, e + 1);
        if r.None? then
          NoSeEndStep(s, e);
          r
        else
          NoSeEndsBefore(s, e, r.value.title.end);
          r
      else
        NoSeEndHere(s, e);
        None
  }

  /** A title end e with no `SxxExx` after it, before the ends already passed over. */
  lemma NoSeEndsBefore(s: string, e: nat, end: nat)
    requires e <= |s| && end <= |s| && SeFixed(s, e).None?
    requires forall e' :: e + 1 <= e' < end ==> SeFixed(s, e').None?
    ensures forall e' :: e <= e' < end ==> SeFixed(s, e').None?
  {
  }

  /** At the end or at a newline, only e itself is left to try. */
  lemma NoSeEndHere(s: string, e: nat)
    requires e <= |s| && SeFixed(s, e).None? && (e == |s| || s[e] == '\n')
    ensures NoSeEnd(s, e)
  {
  }

  /** `re.search`: the start positions st, st+1, ..., |s| in turn. */
  function SeSearch(s: string, st: nat): (r: Option<Groups>)
    requires st <= |s|
    ensures r.Some? ==> var g := r.value;
      && st <= g.title.start <= g.title.end <= |s| && NoNewlineIn(s, g.title.start, g.title.end)
      && g.season.Some? && SeFixed(s, g.title.end) == Some((g.season.value, g.episode))
      && g.seasonRaw.None?
      && forall e' :: g.title.start <= e' < g.title.end ==> SeFixed(s, e').None?
    ensures r.Some? ==> forall a :: st <= a < r.value.title.start ==> NoSeEnd(s, a)
    ensures r.None? ==> forall a :: st <= a <= |s| ==> NoSeEnd(s, a)
    decreases |s| - st
  {
    var here := SeTitle(s, st, st);
    if here.Some? then here
    else if st < |s| then SeSearch(s, st + 1)
    else None
  }

  /** Strategy 2 on a whole filename. */
  function SeMatch(s: string): (r: Option<Groups>)
    ensures r.Some? ==> var g := r.value;
      && g.title.start <= g.title.end <= |s| && NoNewlineIn(s, g.title.start, g.title.end)
      && g.season.Some? && SeFixed(s, g.title.end) == Some((g.season.value, g.episode))
      && g.seasonRaw.None?
      && forall e' :: g.title.start <= e' < g.title.end ==> SeFixed(s, e').None?
    ensures r.Some? ==> forall a :: 0 <= a < r.value.title.start ==> NoSeEnd(s, a)
    ensures r.None? ==> forall a :: 0 <= a <= |s| ==> NoSeEnd(s, a)
  {
    SeSearch(s, 0)
  }

  /** The SxxExx pattern needs `S` after whitespace or a dot. */
  lemma NoSeNoSeMatch(s: string)
    requires forall e :: 0 <= e && e + 1 < |s| && (IsSpace(s[e]) || s[e] == '.') ==> Lower(s[e + 1]) != 's'
    ensures SeMatch(s).None?
  {
  }

  /** The first end e where `[\s.]SxxEyy` follows, with no newline before it, gives
      the title s[0..e]. */
  lemma SeMatchFirst(s: string, e: nat)
    requires e <= |s| && SeFixed(s, e).Some? && NoNewlineIn(s, 0, e)
    requires forall e' :: 0 <= e' < e ==> SeFixed(s, e').None?
    ensures SeMatch(s) == Some(Groups(Span(0, e), Some(SeFixed(s, e).value.0), None, SeFixed(s, e).value.1))
  {
    assert !NoSeEnd(s, 0);
  }


  // ---------------------------------------------------------------------------
  // Strategy 3, brackets:
  // ^\[(?P<group>[^\]]+)\]\[(?P<title>[^\]]+)\]
  //   (?:\[(?P<season_raw>S\d+|Season\s*\d+|part\s*\d+|[^\]]*?Season)\])?
  //   \[(?P<episode>\d{1,3})\]
  // ---------------------------------------------------------------------------

  /** The first `]` at or after i (or |s|): where `[^\]]+\]` must stop. */
  function FindClose(s: string, i: nat): (j: nat)
    requires i <= |s|
    ensures i <= j <= |s|
    ensures forall k :: i <= k < j ==> s[k] != ']'
    ensures j < |s| ==> s[j] == ']'
    decreases |s| - i
  {
    if i == |s| || s[i] == ']' then i else FindClose(s, i + 1)
  }

  /** The first `]` from i. */
  lemma FindCloseAt(s: string, i: nat, j: nat)
    requires i <= j < |s| && s[j] == ']'
    requires forall k :: i <= k < j ==> s[k] != ']'
    ensures FindClose(s, i) == j
  {
  }

  /** `\s*\d+` filling c from i to its end. */
  predicate SpacesThenDigits(c: string, i: nat)
    requires i <= |c|
  {
    var j := SkipSpaces(c, i);
    j < |c| && SkipDigits(c, j) == |c|
  }

  /** The content of a bracketed season field, one of
      `S\d+`, `Season\s*\d+`, `part\s*\d+` or `[^\]]*?Season`. The alternatives all
      end at the same `]`, so the field matches when its whole content fits one. */
  predicate IsSeasonMarker(c: string) {
    || (2 <= |c| && Lower(c[0]) == 's' && AllDigits(c[1..]))
    || (WordAt(c, 0, "season") && SpacesThenDigits(c, 6))
    || (WordAt(c, 0, "part") && SpacesThenDigits(c, 4))
    || (6 <= |c| && WordAt(c, |c| - 6, "season"))
  }

  /** `\[(\d{1,3})\]` at p with the digits ending at x. */
  predicate EpisodeField(s: string, p: nat, x: nat) {
    && p + 1 < x <= p + 4 && x < |s| && s[p] == '[' && s[x] == ']'
    && forall k :: p + 1 <= k < x ==> IsDigit(s[k])
  }

  /** `\[(?P<episode>\d{1,3})\]` at p; a shorter run would leave a digit where `\]` is required. */
  function BracketEpisode(s: string, p: nat): (r: Option<Span>)
    requires p <= |s|
    ensures r.Some? ==> var ep := r.value;
      && p < |s| && s[p] == '[' && ep.start == p + 1 && InBounds(s, ep) && EpisodeField(s, p, ep.end)
      && EpisodeText(Slice(s, ep), 3, false) && ep.end < |s| && s[ep.end] == ']'
    ensures r.None? ==> forall x :: !EpisodeField(s, p, x)
  {
    if p < |s| && s[p] == '[' then
      var x := SkipDigits(s, p + 1);
      if p + 1 < x <= p + 4 && x < |s| && s[x] == ']' then
        SkipDigitsSlice(s, p + 1, x, x);
        Some(Span(p + 1, x))
      else
        assert forall x' :: !EpisodeField(s, p, x') by {
          forall x' | EpisodeField(s, p, x')
            ensures false
          {
            SkipDigitsUntil(s, p + 1, x');
          }
        }
        None
    else None
  }

  /** `\[(?P<season_raw>...)\]` at p, closed by the `]` at k3: none of the alternatives
      can take in a `]`, and the content between the brackets is a season marker. */
  predicate MarkerField(s: string, p: nat, k3: nat) {
    && p < k3 < |s| && s[p] == '[' && s[k3] == ']'
    && (forall k :: p < k < k3 ==> s[k] != ']')
    && IsSeasonMarker(s[p + 1..k3])
  }

  /** A season field closes at the first `]` after its `[`. */
  lemma MarkerFieldFirst(s: string, p: nat, k3: nat)
    requires MarkerField(s, p, k3)
    ensures k3 == FindClose(s, p + 1)
  {
    FindCloseAt(s, p + 1, k3);
  }

  /** When the first `]` does not close a season field followed by the episode
      field, no `]` does. */
  lemma MarkerFieldNone(s: string, p: nat)
    requires p <= |s|
    requires p < |s| && s[p] == '[' && FindClose(s, p + 1) < |s| && IsSeasonMarker(s[p + 1..FindClose(s, p + 1)])
      ==> BracketEpisode(s, FindClose(s, p + 1) + 1).None?
    ensures forall k3: nat :: MarkerField(s, p, k3) ==> BracketEpisode(s, k3 + 1).None?
  {
    forall k3: nat | MarkerField(s, p, k3)
      ensures BracketEpisode(s, k3 + 1).None?
    {
      MarkerFieldFirst(s, p, k3);
    }
  }

  /** `\[(?P<season_raw>...)\]` followed by the episode field, from p. */
  function MarkerThenEpisode(s: string, p: nat): (r: Option<(Span, Span)>)
    requires p <= |s|
    ensures r.Some? ==> InBounds(s, r.value.0) && IsSeasonMarker(Slice(s, r.value.0))
    ensures r.Some? ==> p < r.value.1.start && InBounds(s, r.value.1) && EpisodeText(Slice(s, r.value.1), 3, false)
    ensures r.Some? ==>
      && r.value.0.start == p + 1 && MarkerField(s, p, r.value.0.end)
      && BracketEpisode(s, r.value.0.end + 1) == Some(r.value.1)
    ensures r.None? ==> forall k3: nat :: MarkerField(s, p, k3) ==> BracketEpisode(s, k3 + 1).None?
  {
    if p < |s| && s[p] == '[' then
      var k3 := FindClose(s, p + 1);
      var raw := Span(p + 1, k3);
      if k3 < |s| && IsSeasonMarker(s[p + 1..k3]) then
        var ep := BracketEpisode(s, k3 + 1);
        if ep.Some? then
          MarkerFieldFound(s, p, k3, ep.value);
          Some((raw, ep.value))
        else
          MarkerFieldNone(s, p);
          None
      else
        MarkerFieldNone(s, p);
        None
    else
      MarkerFieldNone(s, p);
      None
  }

  lemma MarkerFieldFound(s: string, p: nat, k3: nat, ep: Span)
    requires p < |s| && s[p] == '[' && k3 == FindClose(s, p + 1) && k3 < |s| && IsSeasonMarker(s[p + 1..k3])
    requires BracketEpisode(s, k3 + 1) == Some(ep)
    ensures InBounds(s, Span(p + 1, k3)) && IsSeasonMarker(Slice(s, Span(p + 1, k3))) && MarkerField(s, p, k3)
    ensures p < ep.start && InBounds(s, ep) && EpisodeText(Slice(s, ep), 3, false)
  {
  }

  /** What follows the title field whose `]` is at k2: the optional season field,
      tried first, then the episode field. */
  function BracketFields(s: string, k2: nat): (r: Option<(Option<Span>, Span)>)
    requires k2 < |s|
    ensures r.Some? ==> k2 < r.value.1.start && InBounds(s, r.value.1) && EpisodeText(Slice(s, r.value.1), 3, false)
    ensures r.Some? && r.value.0.Some? ==> InBounds(s, r.value.0.value) && IsSeasonMarker(Slice(s, r.value.0.value))
    ensures r.Some? && r.value.0.Some? ==> MarkerThenEpisode(s, k2 + 1) == Some((r.value.0.value, r.value.1))
    ensures r.Some? && r.value.0.None? ==> MarkerThenEpisode(s, k2 + 1).None? && BracketEpisode(s, k2 + 1) == Some(r.value.1)
    ensures r.None? ==> MarkerThenEpisode(s, k2 + 1).None? && BracketEpisode(s, k2 + 1).None?
  {
    var withMarker := MarkerThenEpisode(s, k2 + 1);
    if withMarker.Some? then Some((Some(withMarker.value.0), withMarker.value.1))
    else
      var ep := BracketEpisode(s, k2 + 1);
      if ep.Some? then Some((None, ep.value)) else None
  }

  /** `^\[[^\]]+\]\[[^\]]+\]`: the group field closed at k1 and the title field closed at k2. */
  predicate BracketLayout(s: string, k1: nat, k2: nat) {
    && 1 < k1 && k1 + 2 < k2 < |s| && s[0] == '[' && s[k1] == ']' && s[k1 + 1] == '[' && s[k2] == ']'
    && (forall k :: 1 <= k < k1 ==> s[k] != ']')
    && (forall k :: k1 + 2 <= k < k2 ==> s[k] != ']')
  }

  /** A layout can only close its fields at the first `]` of each. */
  lemma BracketLayoutFirst(s: string, k1: nat, k2: nat)
    requires BracketLayout(s, k1, k2)
    ensures k1 == FindClose(s, 1) && k2 == FindClose(s, k1 + 2)
  {
  }

  /** The title field of a layout, as the brackets strategy reports it. */
  lemma BracketLayoutTitle(s: string, k1: nat, k2: nat)
    requires BracketLayout(s, k1, k2)
    ensures s[k1 + 1] == '[' && ']' !in s[k1 + 2..k2] && ']' in s[..k1 + 2]
  {
    assert s[..k1 + 2][k1] == ']';
    var t := s[k1 + 2..k2];
    forall k | 0 <= k < |t|
      ensures t[k] != ']'
    {
      assert t[k] == s[k1 + 2 + k];
    }
  }

  /** `\[(?P<title>[^\]]+)\]` after the group field closed at k1, and the fields after it. */
  function BracketTitle(s: string, k1: nat): (r: Option<Groups>)
    requires 1 < k1 && k1 + 1 < |s| && s[0] == '[' && s[k1] == ']' && s[k1 + 1] == '['
    requires forall k :: 1 <= k < k1 ==> s[k] != ']'
    ensures r.Some? ==> var t := r.value.title;
      && t.start == k1 + 2 && BracketLayout(s, k1, t.end) && r.value.season.None?
      && BracketFields(s, t.end) == Some((r.value.seasonRaw, r.value.episode))
    ensures r.None? ==> forall k2: nat :: BracketLayout(s, k1, k2) ==> BracketFields(s, k2).None?
  {
    var k2 := FindClose(s, k1 + 2);
    if k1 + 2 < k2 < |s| then
      var fields := BracketFields(s, k2);
      if fields.Some? then Some(Groups(Span(k1 + 2, k2), None, fields.value.0, fields.value.1))
      else None
    else None
  }

  /** What `BracketsMatch` reports: the title field is the one after the first `][`,
      with the fields that follow it; None when no layout has those fields. */
  ghost predicate BracketsFound(s: string, r: Option<Groups>) {
    && (r.Some? ==> var t := r.value.title;
         && 0 < |s| && 2 <= t.start == FindClose(s, 1) + 2 && BracketLayout(s, t.start - 2, t.end)
         && BracketFields(s, t.end) == Some((r.value.seasonRaw, r.value.episode)))
    && (r.None? ==> forall k1: nat, k2: nat :: BracketLayout(s, k1, k2) ==> BracketFields(s, k2).None?)
  }

  /** Strategy 3 on a whole filename (anchored at its start). */
  function BracketsMatch(s: string): (r: Option<Groups>)
    ensures r.Some? ==> 0 < |s| && s[0] == '['
    ensures r.Some? ==> var t := r.value.title;
      && 0 < t.start < t.end < |s| && s[t.start - 1] == '[' && s[t.end] == ']'
      && ']' !in s[t.start..t.end] && ']' in s[..t.start]
    ensures r.Some? ==> r.value.season.None?
    ensures r.Some? && r.value.seasonRaw.Some? ==>
      InBounds(s, r.value.seasonRaw.value) && IsSeasonMarker(Slice(s, r.value.seasonRaw.value))
    ensures r.Some? ==> r.value.title.end < r.value.episode.start && InBounds(s, r.value.episode)
    ensures r.Some? ==> EpisodeText(Slice(s, r.value.episode), 3, false)
    ensures BracketsFound(s, r)
  {
    if |s| > 0 && s[0] == '[' then
      var k1 := FindClose(s, 1);
      if 1 < k1 && k1 + 1 < |s| && s[k1 + 1] == '[' then
        var r := BracketTitle(s, k1);
        if r.Some? then
          BracketsTitleFound(s, k1, r.value);
          r
        else
          NoBracketFields(s, k1);
          r
      else
        NoBracketLayout(s);
        None
    else
      NoBracketLayout(s);
      None
  }

  /** The title field after the first `][`, with its fields, is the match. */
  lemma BracketsTitleFound(s: string, k1: nat, g: Groups)
    requires 0 < |s| && s[0] == '[' && k1 == FindClose(s, 1) && 1 < k1 && k1 + 1 < |s| && s[k1 + 1] == '['
    requires BracketTitle(s, k1) == Some(g)
    ensures var t := g.title;
      && 0 < t.start < t.end < |s| && s[t.start - 1] == '[' && s[t.end] == ']'
      && ']' !in s[t.start..t.end] && ']' in s[..t.start]
    ensures g.season.None?
    ensures g.seasonRaw.Some? ==> InBounds(s, g.seasonRaw.value) && IsSeasonMarker(Slice(s, g.seasonRaw.value))
    ensures g.title.end < g.episode.start && InBounds(s, g.episode) && EpisodeText(Slice(s, g.episode), 3, false)
    ensures BracketsFound(s, Some(g))
  {
    BracketLayoutTitle(s, k1, g.title.end);
  }

  /** When the title field after the first `][` has no fields after it, no layout has. */
  lemma NoBracketFields(s: string, k1: nat)
    requires 0 < |s| && s[0] == '[' && k1 == FindClose(s, 1) && 1 < k1 && k1 + 1 < |s| && s[k1 + 1] == '['
    requires BracketTitle(s, k1).None?
    ensures forall k1': nat, k2: nat :: BracketLayout(s, k1', k2) ==> BracketFields(s, k2).None?
  {
    forall k1': nat, k2: nat | BracketLayout(s, k1', k2)
      ensures BracketFields(s, k2).None?
    {
      BracketLayoutFirst(s, k1', k2);
    }
  }

  /** Without a `[` first and a `[` right after the first `]`, there is no layout. */
  lemma NoBracketLayout(s: string)
    requires 0 < |s| && s[0] == '[' ==> var k1 := FindClose(s, 1); !(1 < k1 && k1 + 1 < |s| && s[k1 + 1] == '[')
    ensures forall k1: nat, k2: nat :: !BracketLayout(s, k1, k2)
  {
    forall k1: nat, k2: nat | BracketLayout(s, k1, k2)
      ensures false
    {
      BracketLayoutFirst(s, k1, k2);
    }
  }

  /** Fields closed at k1 and k2 with the season and episode fields after them give
      the match, with the title between k1 + 2 and k2. */
  lemma BracketsMatchAt(s: string, k1: nat, k2: nat)
    requires BracketLayout(s, k1, k2) && BracketFields(s, k2).Some?
    ensures BracketsMatch(s) == Some(Groups(Span(k1 + 2, k2), None, BracketFields(s, k2).value.0, BracketFields(s, k2).value.1))
  {
    BracketLayoutFirst(s, k1, k2);
    var t := BracketsMatch(s).value.title;
    BracketLayoutFirst(s, t.start - 2, t.end);
  }



  // ---------------------------------------------------------------------------
  // Strategy 4, simple:
  // (?P<title>.+?)\s+(?P<episode>\d{1,3})(?:v\d)?(?:\.mp4|\.mkv)$
  // ---------------------------------------------------------------------------

  /** `(?:\.mp4|\.mkv)$` at y. */
  predicate ExtensionAtEnd(s: string, y: nat) {
    (WordAt(s, y, ".mp4") || WordAt(s, y, ".mkv")) && AtEnd(s, y + 4)
  }

  /** The filename ends in `.mp4` or `.mkv`, in any letter case, possibly followed by one newline. */
  predicate EndsWithVideoExtension(s: string) {
    || (4 <= |s| && (WordAt(s, |s| - 4, ".mp4") || WordAt(s, |s| - 4, ".mkv")))
    || (5 <= |s| && s[|s| - 1] == '\n' && (WordAt(s, |s| - 5, ".mp4") || WordAt(s, |s| - 5, ".mkv")))
  }

  /** `(?:v\d)?(?:\.mp4|\.mkv)$` at x, trying the version tag first. */
  predicate VersionThenExtension(s: string, x: nat) {
    || (x + 1 < |s| && Lower(s[x]) == 'v' && IsDigit(s[x + 1]) && ExtensionAtEnd(s, x + 2))
    || ExtensionAtEnd(s, x)
  }

  lemma ExtensionEndsFilename(s: string, x: nat)
    requires VersionThenExtension(s, x)
    ensures EndsWithVideoExtension(s)
  {
    var y := if x + 1 < |s| && Lower(s[x]) == 'v' && IsDigit(s[x + 1]) && ExtensionAtEnd(s, x + 2) then x + 2 else x;
    assert ExtensionAtEnd(s, y);
    if y + 4 == |s| {
      assert y == |s| - 4;
    } else {
      assert y == |s| - 5;
    }
  }

  /** A literal that does not start with a digit cannot be read where a digit is. */
  lemma DigitBlocksWord(s: string, x: nat, w: string)
    requires x < |s| && IsDigit(s[x]) && 0 < |w| && !IsDigit(w[0])
    ensures !WordAt(s, x, w)
  {
  }

  /** A digit at x leaves no room for the version tag or the extension. */
  lemma DigitBlocksExtension(s: string, x: nat)
    requires x < |s| && IsDigit(s[x])
    ensures !VersionThenExtension(s, x)
  {
    DigitBlocksWord(s, x, ".mp4");
    DigitBlocksWord(s, x, ".mkv");
  }

  /** `\s+(\d{1,3})` from e with the digits at a..x, then the version tag and the extension. */
  predicate SimpleShape(s: string, e: nat, a: nat, x: nat) {
    && e < a < x <= a + 3 && x <= |s|
    && (forall k :: e <= k < a ==> IsSpace(s[k]))
    && (forall k :: a <= k < x ==> IsDigit(s[k]))
    && VersionThenExtension(s, x)
  }

  /** Only the greedy whitespace and digit runs can be followed by the rest. */
  lemma SimpleShapeGreedy(s: string, e: nat, a: nat, x: nat)
    requires SimpleShape(s, e, a, x)
    ensures a == SkipSpaces(s, e) && x == a + Min(3, SkipDigits(s, a) - a)
  {
    SkipSpacesUntil(s, e, a);
    if x < |s| && IsDigit(s[x]) {
      DigitBlocksExtension(s, x);
    }
    SkipDigitsUntil(s, a, x);
  }

  /** The greedy runs from e, when the rest follows them, are the tail. */
  lemma SimpleTailFound(s: string, e: nat, a: nat, x: nat)
    requires e <= |s| && a == SkipSpaces(s, e) && x == a + Min(3, SkipDigits(s, a) - a)
    requires e < a < x && VersionThenExtension(s, x)
    ensures SimpleShape(s, e, a, x) && InBounds(s, Span(a, x)) && AllSpaces(s[e..a])
    ensures EpisodeText(Slice(s, Span(a, x)), 3, false) && EndsWithVideoExtension(s)
  {
    SkipDigitsSlice(s, a, x, x);
    assert forall k :: 0 <= k < a - e ==> s[e..a][k] == s[e + k];
    ExtensionEndsFilename(s, x);
  }

  /** When the rest does not follow the greedy runs from e, there is no tail. */
  lemma SimpleTailNone(s: string, e: nat)
    requires e <= |s|
    requires var a := SkipSpaces(s, e); var x := a + Min(3, SkipDigits(s, a) - a);
      !(e < a < x && VersionThenExtension(s, x))
    ensures forall a, x :: !SimpleShape(s, e, a, x)
  {
    forall a, x | SimpleShape(s, e, a, x)
      ensures false
    {
      SimpleShapeGreedy(s, e, a, x);
    }
  }

  /** `\s+(?P<episode>\d{1,3})(?:v\d)?(?:\.mp4|\.mkv)$` from the title end e. Shorter
      whitespace or digit runs leave a character of the run where a digit, `v` or `.`
      is required. */
  function SimpleTail(s: string, e: nat): (r: Option<Span>)
    requires e <= |s|
    ensures r.Some? ==> var ep := r.value;
      && SimpleShape(s, e, ep.start, ep.end) && InBounds(s, ep) && AllSpaces(s[e..ep.start])
      && EpisodeText(Slice(s, ep), 3, false)
      && EndsWithVideoExtension(s)
    ensures r.None? ==> forall a, x :: !SimpleShape(s, e, a, x)
  {
    var a := SkipSpaces(s, e);
    var x := a + Min(3, SkipDigits(s, a) - a);
    if e < a < x && VersionThenExtension(s, x) then
      SimpleTailFound(s, e, a, x);
      Some(Span(a, x))
    else
      SimpleTailNone(s, e);
      None
  }

  /** No title from st ending at e or later, as far as the next newline, is
      followed by the tail. */
  predicate NoSimpleEnd(s: string, st: nat, e: nat) {
    forall e' :: e <= e' <= |s| && NoNewlineIn(s, st, e') ==> SimpleTail(s, e').None?
  }

  /** No title `.+?` starting at a is followed by the tail. */
  predicate NoSimpleTitle(s: string, a: nat) {
    NoSimpleEnd(s, a, a + 1)
  }

  /** What `SimpleTitle` reports: the shortest title from st, ending at e or later,
      with a tail after it, or None when there is none. */
  predicate SimpleTitleFrom(s: string, st: nat, e: nat, r: Option<Groups>) {
    && (r.Some? ==> r.value.title.start == st && e <= r.value.title.end <= |s|)
    && (r.Some? ==> NoNewlineIn(s, st, r.value.title.end))
    && (r.Some? ==> SimpleTail(s, r.value.title.end) == Some(r.value.episode))
    && (r.Some? ==> r.value.season.None? && r.value.seasonRaw.None?)
    && (r.Some? ==> forall e' :: e <= e' < r.value.title.end ==> SimpleTail(s, e').None?)
    && (r.None? ==> NoSimpleEnd(s, st, e))
  }

  /** No tail at e: the title found from e + 1 is the one from e. */
  lemma SimpleTitleStep(s: string, st: nat, e: nat, r: Option<Groups>)
    requires e < |s| && SimpleTail(s, e).None? && SimpleTitleFrom(s, st, e + 1, r)
    ensures SimpleTitleFrom(s, st, e, r)
  {
  }

  /** The lazy title `.+?` from st: title ends e, e+1, ... until a newline. */
  function SimpleTitle(s: string, st: nat, e: nat): (r: Option<Groups>)
    requires st < e <= |s|
    requires NoNewlineIn(s, st, e - 1)
    ensures r.Some? ==> r.value.title.start == st && e <= r.value.title.end <= |s|
    ensures r.Some? ==> NoNewlineIn(s, st, r.value.title.end)
    ensures r.Some? ==> SimpleTail(s, r.value.title.end) == Some(r.value.episode)
    ensures r.Some? ==> r.value.season.None? && r.value.seasonRaw.None?
    ensures r.Some? ==> forall e' :: e <= e' < r.value.title.end ==> SimpleTail(s, e').None?
    ensures r.None? ==> NoSimpleEnd(s, st, e)
    decreases |s| - e
  {
    if s[e - 1] == '\n' then None
    else
      var tail := SimpleTail(s, e);
      if tail.Some? then Some(Groups(Span(st, e), None, None, tail.value))
      else if e < |s| then
        var r := SimpleTitle(s, st, e + 1);
        SimpleTitleStep(s, st, e, r);
        r
      else None
  }

  /** `re.search`: the start positions st, st+1, ... in turn. */
  function SimpleSearch(s: string, st: nat): (r: Option<Groups>)
    requires st <= |s|
    ensures r.Some? ==> var g := r.value;
      && st <= g.title.start < g.title.end <= |s| && NoNewlineIn(s, g.title.start, g.title.end)
      && SimpleTail(s, g.title.end) == Some(g.episode)
      && g.season.None? && g.seasonRaw.None?
      && forall e' :: g.title.start < e' < g.title.end ==> SimpleTail(s, e').None?
    ensures r.Some? ==> forall a :: st <= a < r.value.title.start ==> NoSimpleTitle(s, a)
    ensures r.None? ==> forall a :: st <= a < |s| ==> NoSimpleTitle(s, a)
    decreases |s| - st
  {
    var here := if st < |s| then SimpleTitle(s, st, st + 1) else None;
    if here.Some? then here
    else if st < |s| then SimpleSearch(s, st + 1)
    else None
  }

  /** Strategy 4 on a whole filename. */
  function SimpleMatch(s: string): (r: Option<Groups>)
    ensures r.Some? ==> var g := r.value;
      && g.title.start < g.title.end <= |s| && NoNewlineIn(s, g.title.start, g.title.end)
      && SimpleTail(s, g.title.end) == Some(g.episode)
      && g.season.None? && g.seasonRaw.None?
      && forall e' :: g.title.start < e' < g.title.end ==> SimpleTail(s, e').None?
    ensures r.Some? ==> forall a :: 0 <= a < r.value.title.start ==> NoSimpleTitle(s, a)
    ensures r.None? ==> forall a :: 0 <= a < |s| ==> NoSimpleTitle(s, a)
  {
    SimpleSearch(s, 0)
  }
}
