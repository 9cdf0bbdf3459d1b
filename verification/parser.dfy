/**
 * `AnimeParser.parse` (core/parser.py:58-111): preprocess the filename, try
 * the four strategies in order, resolve the season, read the episode and clean
 * the title.
 */
module Parser {
  import opened Chars
  import opened Text
  import opened Wrappers
  import opened Patterns
  import opened SeasonText
  import opened TitleClean
  import opened Types

  // ---------------------------------------------------------------------------
  // Step 1: preprocessing
  // ---------------------------------------------------------------------------

  /** `re_replace_brackets.sub(...)`: every full-width bracket becomes its ASCII
      counterpart; nothing else changes. */
  function Preprocess(f: string): (r: string)
    ensures |r| == |f|
    ensures forall k :: 0 <= k < |f| ==>
      && (f[k] == '【' ==> r[k] == '[')
      && (f[k] == '】' ==> r[k] == ']')
      && (f[k] != '【' && f[k] != '】' ==> r[k] == f[k])
  {
    if f == [] then []
    else
      var c := if f[0] == '【' then '[' else if f[0] == '】' then ']' else f[0];
      [c] + Preprocess(f[1..])
  }

  /** A filename without full-width brackets is left as it is. */
  lemma PreprocessPlain(f: string)
    requires forall k :: 0 <= k < |f| ==> f[k] != '【' && f[k] != '】'
    ensures Preprocess(f) == f
  {
  }

  /** No full-width bracket survives, so preprocessing twice changes nothing more. */
  lemma PreprocessIdempotent(f: string)
    ensures '【' !in Preprocess(f) && '】' !in Preprocess(f)
    ensures Preprocess(Preprocess(f)) == Preprocess(f)
  {
    var r := Preprocess(f);
    forall k | 0 <= k < |r|
      ensures r[k] != '【' && r[k] != '】'
    {
    }
    assert Preprocess(r) == r;
  }

  // ---------------------------------------------------------------------------
  // Step 2: the strategy cascade
  // ---------------------------------------------------------------------------

  datatype Strategy = Dash | SxxExx | Brackets | Simple

  function Match(st: Strategy, s: string): (r: Option<Groups>)
    ensures r.Some? ==> Captured(st, s, r.value)
  {
    match st
    case Dash => DashCaptured(s); DashMatch(s)
    case SxxExx => SeCaptured(s); SeMatch(s)
    case Brackets => BracketsCaptured(s); BracketsMatch(s)
    case Simple => SimpleCaptured(s); SimpleMatch(s)
  }

  lemma DashCaptured(s: string)
    ensures DashMatch(s).Some? ==> Captured(Dash, s, DashMatch(s).value)
  {
    var r := DashMatch(s);
    if r.Some? {
      DashTailCaptured(s, r.value.title.end, r.value.season, r.value.episode);
    }
  }

  lemma DashTailCaptured(s: string, e: nat, season: Option<Span>, episode: Span)
    requires e <= |s| && DashTail(s, e) == Some((season, episode))
    ensures InBounds(s, episode) && EpisodeText(Slice(s, episode), 4, true)
    ensures season.Some? ==> SeasonDigits(s, season.value)
  {
    assert DashEpisodeAt(s, episode);
  }

  lemma SeCaptured(s: string)
    ensures SeMatch(s).Some? ==> Captured(SxxExx, s, SeMatch(s).value)
  {
  }

  lemma BracketsCaptured(s: string)
    ensures BracketsMatch(s).Some? ==> Captured(Brackets, s, BracketsMatch(s).value)
  {
  }

  lemma SimpleCaptured(s: string)
    ensures SimpleMatch(s).Some? ==> Captured(Simple, s, SimpleMatch(s).value)
  {
  }

  /** The number of digits the strategy's episode group allows. */
  function EpisodeWidth(st: Strategy): nat {
    if st == Dash then 4 else 3
  }

  /** What the groups of a match of st hold. */
  predicate Captured(st: Strategy, s: string, g: Groups) {
    && InBounds(s, g.title)
    && InBounds(s, g.episode) && EpisodeText(Slice(s, g.episode), EpisodeWidth(st), st == Dash)
    && (g.season.Some? ==> SeasonDigits(s, g.season.value))
    && (g.seasonRaw.Some? ==> InBounds(s, g.seasonRaw.value))
    && (st == SxxExx ==> g.season.Some?)
    && (st != Dash && st != SxxExx ==> g.season.None?)
    && (st != Brackets ==> g.seasonRaw.None?)
  }

  /** Lines 63-70: the strategies are tried in the order dash, SxxExx, brackets,
      simple; the first that matches gives the groups. */
  function Cascade(s: string): (r: Option<(Strategy, Groups)>)
    ensures r.None? <==> DashMatch(s).None? && SeMatch(s).None? && BracketsMatch(s).None? && SimpleMatch(s).None?
    ensures r.Some? ==> Match(r.value.0, s) == Some(r.value.1) && Captured(r.value.0, s, r.value.1)
    ensures r.Some? && r.value.0 != Dash ==> DashMatch(s).None?
    ensures r.Some? && r.value.0 != Dash && r.value.0 != SxxExx ==> SeMatch(s).None?
    ensures r.Some? && r.value.0 == Simple ==> BracketsMatch(s).None?
  {
    var st :=
      if DashMatch(s).Some? then Dash
      else if SeMatch(s).Some? then SxxExx
      else if BracketsMatch(s).Some? then Brackets
      else Simple;
    if Match(st, s).Some? then
      Some((st, Match(st, s).value))
    else None
  }

  // ---------------------------------------------------------------------------
  // Step 3: the season
  // ---------------------------------------------------------------------------

  /** Lines 77-89: a captured `season` group wins; otherwise the first digit run
      of a `season_raw` group; otherwise 1. */
  function CapturedSeason(season: Option<string>, seasonRaw: Option<string>): (n: nat)
    requires season.Some? ==> 1 <= |season.value| <= 2 && AllDigits(season.value)
    ensures season.Some? ==> n == Value(season.value) && n <= 99
    ensures season.None? && seasonRaw.Some? && FirstDigitRun(seasonRaw.value, 0).Some? ==>
      var raw := seasonRaw.value;
      var run := FirstDigitRun(raw, 0).value;
      n == Value(raw[run.start..run.end])
    ensures season.None? && (seasonRaw.None? || forall k :: 0 <= k < |seasonRaw.value| ==> !IsDigit(seasonRaw.value[k])) ==> n == 1
  {
    if season.Some? then
      assert Value(season.value) < Pow10(2);
      Value(season.value)
    else if seasonRaw.Some? then
      match FirstDigitRun(seasonRaw.value, 0)
      case Some(run) => Value(seasonRaw.value[run.start..run.end])
      case None => 1
    else 1
  }

  /** Lines 93-96: a season of exactly 1 is replaced by a non-zero season named in
      the title; any other season stands. */
  function ResolveSeason(captured: nat, rawTitle: string): (n: nat)
    ensures captured != 1 ==> n == captured
    ensures captured == 1 && (forall k :: 0 <= k <= |rawTitle| ==> SeasonMatchAt(rawTitle, k).None?) ==> n == 1
    ensures captured == 1 && ExtractSeasonFromText(rawTitle) == Some(0) ==> n == 1
    ensures captured == 1 && n != 1 ==> n != 0 && ExtractSeasonFromText(rawTitle) == Some(n)
    ensures captured == 1 && ExtractSeasonFromText(rawTitle).Some? && ExtractSeasonFromText(rawTitle).value != 0 ==>
      n == ExtractSeasonFromText(rawTitle).value
    ensures captured == 1 ==> n <= 99
  {
    if captured == 1 then
      match ExtractSeasonFromText(rawTitle)
      case Some(v) => if v != 0 then v else captured
      case None => captured
    else captured
  }

  // ---------------------------------------------------------------------------
  // Step 4: the episode
  // ---------------------------------------------------------------------------

  /** Lines 99-100, 109: `int(float(d))` for an episode capture `\d+(\.\d)?`, which is
      the value of the digits before the dot. */
  function EpisodeNumber(d: string): (n: nat)
    ensures n < Pow10(SkipDigits(d, 0))
    ensures AllDigits(d) ==> n == Value(d)
    ensures forall i :: 0 <= i < |d| && d[i] == '.' && AllDigits(d[..i]) ==> n == Value(d[..i])
  {
    var k := SkipDigits(d, 0);
    assert AllDigits(d) ==> k == |d| && d[..k] == d;
    assert forall i :: 0 <= i < |d| && d[i] == '.' && AllDigits(d[..i]) ==> i == k;
    Value(d[..k])
  }

  lemma {:induction false} Pow10Monotone(a: nat, b: nat)
    requires a <= b
    ensures Pow10(a) <= Pow10(b)
    decreases b
  {
    if a < b {
      Pow10Monotone(a, b - 1);
    }
  }

  /** The episode of a match of st has at most EpisodeWidth(st) digits before the dot. */
  lemma EpisodeBound(d: string, width: nat, decimal: bool)
    requires EpisodeText(d, width, decimal)
    ensures EpisodeNumber(d) < Pow10(width)
  {
    Pow10Monotone(SkipDigits(d, 0), width);
  }

  // ---------------------------------------------------------------------------
  // The whole parser
  // ---------------------------------------------------------------------------

  /** Lines 77-96 on the groups: the captured season, resolved against the title. */
  function SeasonOf(s: string, g: Groups, rawTitle: string): (n: nat)
    requires g.season.Some? ==> SeasonDigits(s, g.season.value)
    requires g.seasonRaw.Some? ==> InBounds(s, g.seasonRaw.value)
    ensures g.season.Some? && Value(Slice(s, g.season.value)) != 1 ==> n == Value(Slice(s, g.season.value))
    ensures g.season.None? && g.seasonRaw.Some? && FirstDigitRun(Slice(s, g.seasonRaw.value), 0).Some? ==>
      var raw := Slice(s, g.seasonRaw.value);
      var run := FirstDigitRun(raw, 0).value;
      Value(raw[run.start..run.end]) != 1 ==> n == Value(raw[run.start..run.end])
    ensures (g.season.Some? && Value(Slice(s, g.season.value)) == 1) || (g.season.None? && g.seasonRaw.None?) ==>
      n == match ExtractSeasonFromText(rawTitle)
        case Some(v) => if v == 0 then 1 else v
        case None => 1
    ensures g.season.None? && g.seasonRaw.Some? ==>
      var raw := Slice(s, g.seasonRaw.value);
      var run := FirstDigitRun(raw, 0);
      (run.None? || Value(raw[run.value.start..run.value.end]) == 1) ==>
      n == match ExtractSeasonFromText(rawTitle)
        case Some(v) => if v == 0 then 1 else v
        case None => 1
  {
    var season := if g.season.Some? then Some(Slice(s, g.season.value)) else None;
    var seasonRaw := if g.seasonRaw.Some? then Some(Slice(s, g.seasonRaw.value)) else None;
    ResolveSeason(CapturedSeason(season, seasonRaw), rawTitle)
  }

  /** Lines 72-111: the AnimeMeta built from the groups of the winning strategy st. */
  function Build(s: string, st: Strategy, g: Groups): (m: AnimeMeta)
    requires Captured(st, s, g)
    ensures m.rawFilename == s
    ensures NoOuterSpace(m.title)
    ensures m.title == CleanTitle(Strip(Slice(s, g.title)))
    ensures m.season == SeasonOf(s, g, Strip(Slice(s, g.title)))
    ensures m.episode == EpisodeNumber(Slice(s, g.episode))
  {
    var rawTitle := Strip(Slice(s, g.title));
    AnimeMeta(CleanTitle(rawTitle), SeasonOf(s, g, rawTitle), EpisodeNumber(Slice(s, g.episode)), s)
  }

  /** `parse(filename)` */
  function Parse(filename: string): (r: Option<AnimeMeta>)
    ensures var s := Preprocess(filename);
      r.None? <==> DashMatch(s).None? && SeMatch(s).None? && BracketsMatch(s).None? && SimpleMatch(s).None?
    ensures r.Some? ==> r.value.rawFilename == Preprocess(filename)
    ensures r.Some? ==> NoOuterSpace(r.value.title)
    ensures r.Some? ==>
      && Analysis(filename).Some?
      && r.value == Build(Preprocess(filename), Analysis(filename).value.0, Analysis(filename).value.1)
  {
    var s := Preprocess(filename);
    var c := Cascade(s);
    if c.None? then None else Some(Build(s, c.value.0, c.value.1))
  }

  /** A recognised filename's record is built from the groups of the first strategy
      that matches the preprocessed filename: its title is the cleaned, stripped title
      group, its season `SeasonOf` the groups and its episode the value of the
      episode group. */
  lemma ParseWinner(f: string)
    requires Analysis(f).Some?
    ensures var s := Preprocess(f);
      var (st, g) := Analysis(f).value;
      && Captured(st, s, g)
      && Parse(f) == Some(AnimeMeta(CleanTitle(Strip(Slice(s, g.title))), SeasonOf(s, g, Strip(Slice(s, g.title))),
                                    EpisodeNumber(Slice(s, g.episode)), s))
  {
  }

  // ---------------------------------------------------------------------------
  // Properties of the parser
  // ---------------------------------------------------------------------------

  /** The groups the winning strategy captured from the preprocessed filename. */
  function Analysis(filename: string): Option<(Strategy, Groups)> {
    Cascade(Preprocess(filename))
  }

  /** A season captured by the dash or SxxExx pattern has at most two digits, and a
      season mined from the title too; only a bracketed season field can give more. */
  lemma {:induction false} ParseSeasonBound(filename: string)
    requires Parse(filename).Some?
    ensures Analysis(filename).value.0 != Brackets ==> Parse(filename).value.season <= 99
  {
  }

  /** The episode has at most four digits for the dash pattern and three for the others. */
  lemma {:induction false} ParseEpisodeBound(filename: string)
    requires Parse(filename).Some?
    ensures Analysis(filename).value.0 == Dash ==> Parse(filename).value.episode <= 9999
    ensures Analysis(filename).value.0 != Dash ==> Parse(filename).value.episode <= 999
  {
    assert Pow10(3) == 1000 && Pow10(4) == 10000;
    var s := Preprocess(filename);
    var (st, g) := Cascade(s).value;
    var d := Slice(s, g.episode);
    assert Parse(filename).value.episode == EpisodeNumber(d);
    EpisodeBound(d, EpisodeWidth(st), st == Dash);
  }

  /** A captured season other than 1 is the result, so `S00` gives season 0; a
      captured `S01` gives way to a non-zero season named in the title. */
  lemma {:induction false} ParseCapturedSeason(filename: string)
    requires Analysis(filename).Some? && Analysis(filename).value.1.season.Some?
    ensures var s := Preprocess(filename);
      var g := Analysis(filename).value.1;
      var v := Value(Slice(s, g.season.value));
      && (v != 1 ==> Parse(filename).value.season == v)
      && (v == 1 ==> Parse(filename).value.season == ResolveSeason(1, Strip(Slice(s, g.title))))
  {
  }
}
