/**
 * Whole-filename examples of `parse`, proved on the model.
 */
module ParserExamples {
  import opened Chars
  import opened Text
  import opened Wrappers
  import opened Types
  import opened Patterns
  import opened SeasonText
  import opened TitleClean
  import opened Parser

  /** The AnimeMeta of a match whose title is left as it is. */
  lemma BuildFrom(s: string, st: Strategy, g: Groups, title: string, season: nat, episode: nat)
    requires Captured(st, s, g)
    requires Strip(Slice(s, g.title)) == title && CleanTitle(title) == title
    requires SeasonOf(s, g, title) == season
    requires EpisodeNumber(Slice(s, g.episode)) == episode
    ensures Build(s, st, g) == AnimeMeta(title, season, episode, s)
  {
  }

  /** The parse of an unbracketed filename whose cascade gives st and g. */
  lemma ParseFrom(f: string, st: Strategy, g: Groups, m: AnimeMeta)
    requires Preprocess(f) == f && Cascade(f) == Some((st, g))
    requires Captured(st, f, g) ==> Build(f, st, g) == m
    ensures Parse(f) == Some(m)
  {
  }

  /** A season field `[S..]` at p followed by an episode field. */
  lemma MarkerFound(s: string, p: nat, k3: nat, ep: Span)
    requires p < |s| && s[p] == '[' && FindClose(s, p + 1) == k3 && k3 < |s| && IsSeasonMarker(s[p + 1..k3])
    requires BracketEpisode(s, k3 + 1) == Some(ep)
    ensures MarkerThenEpisode(s, p) == Some((Span(p + 1, k3), ep))
  {
  }

  /** DashTail over whitespace and then a dash reads what follows the whitespace after it. */
  lemma TailSpaceDash(s: string, e: nat, q: nat, r: Option<(Option<Span>, Span)>)
    requires e + 1 < |s| && IsSpace(s[e]) && IsDash(s[e + 1]) && SkipSpaces(s, e + 2) == q
    requires DashAfterSeparator(s, q) == r
    ensures DashTail(s, e) == r
  {
  }

  /** The season clause with d digits, when the episode follows it. */
  lemma SeasonEpisodeFirst(s: string, q: nat, d: nat, e: nat, end: nat)
    requires 0 < d <= 2 && q + 1 + d <= |s| && forall k :: q + 1 <= k < q + 1 + d ==> IsDigit(s[k])
    requires EpisodeStart(s, q + 1 + d) == e && DashEpisode(s, e) == Some(end)
    ensures DashSeasonEpisode(s, q, d) == Some((Span(q + 1, q + 1 + d), Span(e, end)))
  {
  }

  /** The separator reads the season clause first. */
  lemma SeparatorWithSeason(s: string, q: nat, d: nat, season: Span, episode: Span)
    requires q <= |s| && SeasonDigitsTried(s, q) == d && 0 < d
    requires q + 1 + d <= |s| && forall k :: q + 1 <= k < q + 1 + d ==> IsDigit(s[k])
    requires DashSeasonEpisode(s, q, d) == Some((season, episode))
    ensures DashAfterSeparator(s, q) == Some((Some(season), episode))
  {
  }

  /** With no season group, the first digit run of the season field, when not 1, is the season. */
  lemma SeasonOfRaw(s: string, g: Groups, rawTitle: string, run: Span, v: nat)
    requires g.season.None? && g.seasonRaw.Some? && InBounds(s, g.seasonRaw.value)
    requires FirstDigitRun(Slice(s, g.seasonRaw.value), 0) == Some(run)
    requires run.start <= run.end <= |Slice(s, g.seasonRaw.value)|
    requires Value(Slice(s, g.seasonRaw.value)[run.start..run.end]) == v && v != 1
    ensures SeasonOf(s, g, rawTitle) == v
  {
  }

  /** A captured season of 1 stays 1 when the title names no season. */
  lemma SeasonOfOne(s: string, g: Groups, rawTitle: string)
    requires g.season.Some? && SeasonDigits(s, g.season.value)
    requires g.seasonRaw.Some? ==> InBounds(s, g.seasonRaw.value)
    requires Value(Slice(s, g.season.value)) == 1 && ExtractSeasonFromText(rawTitle).None?
    ensures SeasonOf(s, g, rawTitle) == 1
  {
  }

  /** A captured season other than 1 is the season. */
  lemma SeasonOfCaptured(s: string, g: Groups, rawTitle: string, v: nat)
    requires g.season.Some? && SeasonDigits(s, g.season.value)
    requires g.seasonRaw.Some? ==> InBounds(s, g.seasonRaw.value)
    requires Value(Slice(s, g.season.value)) == v && v != 1
    ensures SeasonOf(s, g, rawTitle) == v
  {
  }

  // ---------------------------------------------------------------------------
  // "Frieren.S01E28": the SxxExx pattern
  // ---------------------------------------------------------------------------

  lemma FrierenChars(e: nat)
    requires e < 14 && e != 7
    ensures IsWordChar("Frieren.S01E28"[e])
  {
  }

  lemma FrierenNoSe(e: nat)
    requires e < 14 && e != 7
    ensures SeFixed("Frieren.S01E28", e).None?
  {
    FrierenChars(e);
  }

  lemma FrierenSeFixed()
    ensures SeFixed("Frieren.S01E28", 7) == Some((Span(9, 11), Span(12, 14)))
  {
    assert SeShape("Frieren.S01E28", 7, 11);
  }

  lemma FrierenSe()
    ensures SeMatch("Frieren.S01E28") == Some(Groups(Span(0, 7), Some(Span(9, 11)), None, Span(12, 14)))
  {
    var s := "Frieren.S01E28";
    forall e | 0 <= e < 7
      ensures SeFixed(s, e).None?
    {
      FrierenNoSe(e);
    }
    FrierenSeFixed();
    assert NoNewlineIn(s, 0, 7);
    SeMatchFirst(s, 7);
  }

  lemma FrierenNoDash()
    ensures DashMatch("Frieren.S01E28").None?
  {
    var s := "Frieren.S01E28";
    forall j | 0 <= j < |s|
      ensures s[j] != ']'
    {
      if j != 7 {
        FrierenChars(j);
      }
    }
    NoBracketNoDash(s);
  }

  lemma FrierenTitle()
    ensures CleanTitle("Frieren") == "Frieren"
    ensures ExtractSeasonFromText("Frieren").None?
  {
    var t := "Frieren";
    assert forall k :: 0 <= k < |t| ==> !IsSpace(t[k]) && !IsDigit(t[k]);
    CleanTitleUnchanged(t);
    NoDigitsNoSeason(t);
  }

  lemma FrierenSlices()
    ensures Slice("Frieren.S01E28", Span(0, 7)) == "Frieren"
    ensures Slice("Frieren.S01E28", Span(9, 11)) == "01" && AllDigits("01") && Value("01") == 1
    ensures Slice("Frieren.S01E28", Span(12, 14)) == "28" && AllDigits("28") && EpisodeNumber("28") == 28
  {
    assert Value("28") == 28;
  }

  lemma FrierenCascade()
    ensures Cascade("Frieren.S01E28") == Some((SxxExx, Groups(Span(0, 7), Some(Span(9, 11)), None, Span(12, 14))))
  {
    FrierenNoDash();
    FrierenSe();
  }

  lemma FrierenBuild()
    ensures var g := Groups(Span(0, 7), Some(Span(9, 11)), None, Span(12, 14));
      Captured(SxxExx, "Frieren.S01E28", g) ==>
      Build("Frieren.S01E28", SxxExx, g) == AnimeMeta("Frieren", 1, 28, "Frieren.S01E28")
  {
    var s := "Frieren.S01E28";
    var g := Groups(Span(0, 7), Some(Span(9, 11)), None, Span(12, 14));
    if Captured(SxxExx, s, g) {
      FrierenSlices();
      FrierenStrip();
      FrierenTitle();
      SeasonOfOne(s, g, "Frieren");
      BuildFrom(s, SxxExx, g, "Frieren", 1, 28);
    }
  }

  lemma FrierenStrip()
    ensures Strip("Frieren") == "Frieren"
  {
    StripAfterSpaces([], "Frieren");
    assert [] + "Frieren" == "Frieren";
  }

  lemma FrierenPlain()
    ensures Preprocess("Frieren.S01E28") == "Frieren.S01E28"
  {
    PreprocessPlain("Frieren.S01E28");
  }

  /** `Frieren.S01E28` is read as Frieren, season 1, episode 28. */
  lemma FrierenExample()
    ensures Parse("Frieren.S01E28") == Some(AnimeMeta("Frieren", 1, 28, "Frieren.S01E28"))
  {
    FrierenPlain();
    FrierenCascade();
    FrierenBuild();
    ParseFrom("Frieren.S01E28", SxxExx, Groups(Span(0, 7), Some(Span(9, 11)), None, Span(12, 14)),
      AnimeMeta("Frieren", 1, 28, "Frieren.S01E28"));
  }

  // ---------------------------------------------------------------------------
  // Bilingual titles joined by `_`
  // ---------------------------------------------------------------------------

  lemma Bi1Chars(k: nat)
    requires k < 21
    ensures IsSpace("进击的巨人_Attack on Titan"[k]) ==> !PhraseLead("进击的巨人_Attack on Titan", SkipSpaces("进击的巨人_Attack on Titan", k))
    ensures k + 1 < 21 ==> "进击的巨人_Attack on Titan"[k + 1] != '('
  {
  }

  lemma Bi1NoMatch(k: nat)
    requires k < 21
    ensures MatchAt(SeasonPhrase, "进击的巨人_Attack on Titan", k).None?
    ensures MatchAt(Year, "进击的巨人_Attack on Titan", k).None?
  {
    Bi1Chars(k);
    NoRemovalAt("进击的巨人_Attack on Titan", k);
  }

  lemma Bi1Removed()
    ensures forall k :: 0 <= k < |"进击的巨人_Attack on Titan"| ==>
      MatchAt(SeasonPhrase, "进击的巨人_Attack on Titan", k).None? && MatchAt(Year, "进击的巨人_Attack on Titan", k).None?
  {
    var t := "进击的巨人_Attack on Titan";
    forall k | 0 <= k < |t|
      ensures MatchAt(SeasonPhrase, t, k).None? && MatchAt(Year, t, k).None?
    {
      Bi1NoMatch(k);
    }
  }

  /** The segment after the last `_`, stripped, when it is all ASCII. */
  lemma CleanAsciiLast(t: string, k: nat, tail: string, r: string)
    requires k < |t| && t[k] == '_' && t[k + 1..] == tail && t[0] != '['
    requires '_' !in tail && (forall c :: c in tail ==> IsAscii(c)) && Strip(tail) == r
    requires forall i :: 0 <= i < |t| ==> MatchAt(SeasonPhrase, t, i).None? && MatchAt(Year, t, i).None?
    ensures CleanTitle(t) == r
  {
    CleanTitleSegments(t, k);
  }

  /** The segment before the first `_`, stripped, when the last one is not all ASCII. */
  lemma CleanNativeLast(t: string, k: nat, head: string, r: string)
    requires k + 1 < |t| && t[k] == '_' && t[..k] == head && t[0] != '['
    requires '_' !in t[k + 1..] && t[k + 1] in t[k + 1..] && !IsAscii(t[k + 1])
    requires '_' !in head && Strip(head) == r
    requires forall i :: 0 <= i < |t| ==> MatchAt(SeasonPhrase, t, i).None? && MatchAt(Year, t, i).None?
    ensures CleanTitle(t) == r
  {
    CleanTitleSegments(t, k);
  }

  lemma AttackOnTitanAscii()
    ensures '_' !in "Attack on Titan"
    ensures forall c :: c in "Attack on Titan" ==> IsAscii(c)
  {
  }

  lemma AttackOnTitanStrip()
    ensures Strip("Attack on Titan") == "Attack on Titan"
  {
    StripAfterSpaces([], "Attack on Titan");
    assert [] + "Attack on Titan" == "Attack on Titan";
  }

  lemma Bi1Split()
    ensures var t := "进击的巨人_Attack on Titan";
      5 < |t| && t[6..] == "Attack on Titan" && t[5] == '_' && t[0] != '['
  {
  }

  /** The romanised title after `_` is kept when it is all ASCII. */
  lemma BilingualAsciiLast()
    ensures CleanTitle("进击的巨人_Attack on Titan") == "Attack on Titan"
  {
    Bi1Split();
    AttackOnTitanAscii();
    Bi1Removed();
    AttackOnTitanStrip();
    CleanAsciiLast("进击的巨人_Attack on Titan", 5, "Attack on Titan", "Attack on Titan");
  }

  lemma Bi2Chars(k: nat)
    requires k < 21
    ensures IsSpace("Attack on Titan_进击的巨人"[k]) ==> !PhraseLead("Attack on Titan_进击的巨人", SkipSpaces("Attack on Titan_进击的巨人", k))
    ensures k + 1 < 21 ==> "Attack on Titan_进击的巨人"[k + 1] != '('
  {
  }

  lemma Bi2Removed()
    ensures forall k :: 0 <= k < |"Attack on Titan_进击的巨人"| ==>
      MatchAt(SeasonPhrase, "Attack on Titan_进击的巨人", k).None? && MatchAt(Year, "Attack on Titan_进击的巨人", k).None?
  {
    var t := "Attack on Titan_进击的巨人";
    forall k | 0 <= k < |t|
      ensures MatchAt(SeasonPhrase, t, k).None? && MatchAt(Year, t, k).None?
    {
      Bi2Chars(k);
      NoRemovalAt(t, k);
    }
  }

  lemma Bi2Split()
    ensures var t := "Attack on Titan_进击的巨人";
      && 16 < |t| && t[..15] == "Attack on Titan" && t[15] == '_' && t[0] != '['
      && '_' !in t[16..] && t[16] in t[16..] && !IsAscii(t[16])
  {
  }

  /** The first segment is kept when the one after `_` is not all ASCII. */
  lemma BilingualNativeLast()
    ensures CleanTitle("Attack on Titan_进击的巨人") == "Attack on Titan"
  {
    Bi2Split();
    AttackOnTitanAscii();
    Bi2Removed();
    AttackOnTitanStrip();
    CleanNativeLast("Attack on Titan_进击的巨人", 15, "Attack on Titan", "Attack on Titan");
  }
  // ---------------------------------------------------------------------------
  // "[Group][Spy x Family][S2][05]": the brackets pattern
  // ---------------------------------------------------------------------------

  lemma SpyChars(j: nat)
    requires j < 29
    ensures !IsDash("[Group][Spy x Family][S2][05]"[j])
    ensures "[Group][Spy x Family][S2][05]"[j] != '.'
    ensures IsSpace("[Group][Spy x Family][S2][05]"[j]) ==> j == 11 || j == 13
  {
  }

  lemma SpyNoDashNoSe()
    ensures DashMatch("[Group][Spy x Family][S2][05]").None?
    ensures SeMatch("[Group][Spy x Family][S2][05]").None?
  {
    var s := "[Group][Spy x Family][S2][05]";
    forall j | 0 <= j < |s|
      ensures !IsDash(s[j])
    {
      SpyChars(j);
    }
    NoDashNoDashMatch(s);
    forall e | 0 <= e && e + 1 < |s| && (IsSpace(s[e]) || s[e] == '.')
      ensures Lower(s[e + 1]) != 's'
    {
      SpyChars(e);
    }
    NoSeNoSeMatch(s);
  }

  lemma SpyLayout()
    ensures BracketLayout("[Group][Spy x Family][S2][05]", 6, 20)
  {
  }

  lemma SpyMarkerField()
    ensures var s := "[Group][Spy x Family][S2][05]";
      21 < |s| && s[21] == '[' && FindClose(s, 22) == 24 && 24 < |s| && IsSeasonMarker(s[22..24])
  {
    var s := "[Group][Spy x Family][S2][05]";
    assert FindClose(s, 23) == 24;
    assert IsSeasonMarker(s[22..24]);
  }

  lemma SpyEpisodeField()
    ensures BracketEpisode("[Group][Spy x Family][S2][05]", 25) == Some(Span(26, 28))
  {
    assert SkipDigits("[Group][Spy x Family][S2][05]", 27) == 28;
  }

  lemma SpyMarker()
    ensures MarkerThenEpisode("[Group][Spy x Family][S2][05]", 21) == Some((Span(22, 24), Span(26, 28)))
  {
    SpyMarkerField();
    SpyEpisodeField();
    MarkerFound("[Group][Spy x Family][S2][05]", 21, 24, Span(26, 28));
  }

  lemma SpyMatch()
    ensures BracketsMatch("[Group][Spy x Family][S2][05]") == Some(Groups(Span(8, 20), None, Some(Span(22, 24)), Span(26, 28)))
  {
    SpyLayout();
    SpyMarker();
    BracketsMatchAt("[Group][Spy x Family][S2][05]", 6, 20);
  }
  lemma SpyCascade()
    ensures Cascade("[Group][Spy x Family][S2][05]") == Some((Brackets, Groups(Span(8, 20), None, Some(Span(22, 24)), Span(26, 28))))
  {
    SpyNoDashNoSe();
    SpyMatch();
  }

  lemma SpyFamilyChars(k: nat)
    requires k < 12
    ensures IsSpace("Spy x Family"[k]) ==> !PhraseLead("Spy x Family", SkipSpaces("Spy x Family", k))
    ensures k + 1 < 12 ==> "Spy x Family"[k + 1] != '('
  {
  }

  lemma SpyTitle()
    ensures Strip("Spy x Family") == "Spy x Family"
    ensures CleanTitle("Spy x Family") == "Spy x Family"
  {
    var t := "Spy x Family";
    StripAfterSpaces([], t);
    assert [] + t == t;
    forall k | 0 <= k < |t|
      ensures MatchAt(SeasonPhrase, t, k).None? && MatchAt(Year, t, k).None?
    {
      SpyFamilyChars(k);
      NoRemovalAt(t, k);
    }
    CleanTitleUnchanged(t);
  }

  lemma SpySlices()
    ensures Slice("[Group][Spy x Family][S2][05]", Span(8, 20)) == "Spy x Family"
    ensures Slice("[Group][Spy x Family][S2][05]", Span(22, 24)) == "S2"
    ensures Slice("[Group][Spy x Family][S2][05]", Span(26, 28)) == "05" && AllDigits("05") && EpisodeNumber("05") == 5
  {
    assert Value("05") == 5;
  }

  lemma SpySeason()
    ensures FirstDigitRun("S2", 0) == Some(Span(1, 2)) && Value("S2"[1..2]) == 2
  {
    assert FirstDigitRun("S2", 1) == Some(Span(1, 2));
  }

  lemma SpyBuild()
    ensures var g := Groups(Span(8, 20), None, Some(Span(22, 24)), Span(26, 28));
      Captured(Brackets, "[Group][Spy x Family][S2][05]", g) ==>
      Build("[Group][Spy x Family][S2][05]", Brackets, g) == AnimeMeta("Spy x Family", 2, 5, "[Group][Spy x Family][S2][05]")
  {
    var s := "[Group][Spy x Family][S2][05]";
    var g := Groups(Span(8, 20), None, Some(Span(22, 24)), Span(26, 28));
    if Captured(Brackets, s, g) {
      SpySlices();
      SpyTitle();
      SpySeason();
      SeasonOfRaw(s, g, "Spy x Family", Span(1, 2), 2);
      BuildFrom(s, Brackets, g, "Spy x Family", 2, 5);
    }
  }

  lemma SpyPlain()
    ensures Preprocess("[Group][Spy x Family][S2][05]") == "[Group][Spy x Family][S2][05]"
  {
    PreprocessPlain("[Group][Spy x Family][S2][05]");
  }

  /** `[Group][Spy x Family][S2][05]` is read as Spy x Family, season 2, episode 5. */
  lemma SpyFamilyExample()
    ensures Parse("[Group][Spy x Family][S2][05]") == Some(AnimeMeta("Spy x Family", 2, 5, "[Group][Spy x Family][S2][05]"))
  {
    SpyPlain();
    SpyCascade();
    SpyBuild();
    ParseFrom("[Group][Spy x Family][S2][05]", Brackets, Groups(Span(8, 20), None, Some(Span(22, 24)), Span(26, 28)),
      AnimeMeta("Spy x Family", 2, 5, "[Group][Spy x Family][S2][05]"));
  }
  // ---------------------------------------------------------------------------
  // "[Group] Mushoku Tensei - S2 - 12v2": the dash pattern with a season clause
  // ---------------------------------------------------------------------------

  lemma MushokuChars(j: nat)
    requires j < 34
    ensures "[Group] Mushoku Tensei - S2 - 12v2"[j] != '\n'
    ensures j < 6 ==> "[Group] Mushoku Tensei - S2 - 12v2"[j] != ']'
    ensures 8 <= j < 22 ==> !IsDash("[Group] Mushoku Tensei - S2 - 12v2"[j]) && (IsSpace("[Group] Mushoku Tensei - S2 - 12v2"[j]) ==> j == 15)
  {
  }

  lemma MushokuNoTail(e: nat)
    requires 8 < e < 22
    ensures DashTail("[Group] Mushoku Tensei - S2 - 12v2", e).None?
  {
    MushokuChars(e);
    if e == 15 {
      MushokuChars(16);
    }
  }

  lemma MushokuSeasonDigits()
    ensures SeasonDigitsTried("[Group] Mushoku Tensei - S2 - 12v2", 25) == 1
  {
    assert SkipDigits("[Group] Mushoku Tensei - S2 - 12v2", 27) == 27;
  }

  lemma MushokuEpisodeStart()
    ensures EpisodeStart("[Group] Mushoku Tensei - S2 - 12v2", 27) == 30
  {
    assert SkipSpaces("[Group] Mushoku Tensei - S2 - 12v2", 28) == 28;
    assert SkipSpaces("[Group] Mushoku Tensei - S2 - 12v2", 30) == 30;
  }

  lemma MushokuEpisode()
    ensures DashEpisode("[Group] Mushoku Tensei - S2 - 12v2", 30) == Some(32)
  {
    assert SkipDigits("[Group] Mushoku Tensei - S2 - 12v2", 32) == 32;
    assert VersionThenStop("[Group] Mushoku Tensei - S2 - 12v2", 32);
  }

  lemma MushokuSeparator()
    ensures DashAfterSeparator("[Group] Mushoku Tensei - S2 - 12v2", 25) == Some((Some(Span(26, 27)), Span(30, 32)))
  {
    var s := "[Group] Mushoku Tensei - S2 - 12v2";
    MushokuSeasonDigits();
    MushokuEpisodeStart();
    MushokuEpisode();
    SeasonEpisodeFirst(s, 25, 1, 30, 32);
    SeparatorWithSeason(s, 25, 1, Span(26, 27), Span(30, 32));
  }

  lemma MushokuSeparatorAt()
    ensures var s := "[Group] Mushoku Tensei - S2 - 12v2";
      IsSpace(s[22]) && IsDash(s[23]) && SkipSpaces(s, 24) == 25
  {
    assert SkipSpaces("[Group] Mushoku Tensei - S2 - 12v2", 24) == 25;
  }

  lemma MushokuTail()
    ensures DashTail("[Group] Mushoku Tensei - S2 - 12v2", 22) == Some((Some(Span(26, 27)), Span(30, 32)))
  {
    MushokuSeparator();
    MushokuSeparatorAt();
    TailSpaceDash("[Group] Mushoku Tensei - S2 - 12v2", 22, 25, Some((Some(Span(26, 27)), Span(30, 32))));
  }

  lemma MushokuBracket()
    ensures forall i :: 0 <= i < 6 ==> "[Group] Mushoku Tensei - S2 - 12v2"[i] != ']' && "[Group] Mushoku Tensei - S2 - 12v2"[i] != '\n'
    ensures 6 < |"[Group] Mushoku Tensei - S2 - 12v2"| && "[Group] Mushoku Tensei - S2 - 12v2"[6] == ']'
  {
    forall i | 0 <= i < 6
      ensures "[Group] Mushoku Tensei - S2 - 12v2"[i] != ']'
    {
      MushokuChars(i);
    }
  }

  lemma MushokuTitleRange()
    ensures NoNewlineIn("[Group] Mushoku Tensei - S2 - 12v2", 8, 22) && SkipSpaces("[Group] Mushoku Tensei - S2 - 12v2", 7) == 8
  {
    forall i | 8 <= i < 22
      ensures "[Group] Mushoku Tensei - S2 - 12v2"[i] != '\n'
    {
      MushokuChars(i);
    }
  }

  lemma MushokuNoTails()
    ensures forall e' :: 8 < e' < 22 ==> DashTail("[Group] Mushoku Tensei - S2 - 12v2", e').None?
  {
    forall e' | 8 < e' < 22
      ensures DashTail("[Group] Mushoku Tensei - S2 - 12v2", e').None?
    {
      MushokuNoTail(e');
    }
  }

  lemma MushokuDash()
    ensures DashMatch("[Group] Mushoku Tensei - S2 - 12v2") == Some(Groups(Span(8, 22), Some(Span(26, 27)), None, Span(30, 32)))
  {
    MushokuBracket();
    MushokuTitleRange();
    MushokuNoTails();
    MushokuTail();
    DashMatchAt("[Group] Mushoku Tensei - S2 - 12v2", 6, 8, 22);
  }

  lemma MushokuCascade()
    ensures Cascade("[Group] Mushoku Tensei - S2 - 12v2") == Some((Dash, Groups(Span(8, 22), Some(Span(26, 27)), None, Span(30, 32))))
  {
    MushokuDash();
  }

  lemma TenseiChars(k: nat)
    requires k < 14
    ensures IsSpace("Mushoku Tensei"[k]) ==> !PhraseLead("Mushoku Tensei", SkipSpaces("Mushoku Tensei", k))
    ensures k + 1 < 14 ==> "Mushoku Tensei"[k + 1] != '('
  {
  }

  lemma MushokuTitle()
    ensures Strip("Mushoku Tensei") == "Mushoku Tensei"
    ensures CleanTitle("Mushoku Tensei") == "Mushoku Tensei"
  {
    var t := "Mushoku Tensei";
    StripAfterSpaces([], t);
    assert [] + t == t;
    forall k | 0 <= k < |t|
      ensures MatchAt(SeasonPhrase, t, k).None? && MatchAt(Year, t, k).None?
    {
      TenseiChars(k);
      NoRemovalAt(t, k);
    }
    CleanTitleUnchanged(t);
  }

  lemma MushokuTitleChar(k: nat)
    requires k < 14
    ensures "[Group] Mushoku Tensei - S2 - 12v2"[8 + k] == "Mushoku Tensei"[k]
  {
  }

  lemma MushokuSlices()
    ensures Slice("[Group] Mushoku Tensei - S2 - 12v2", Span(8, 22)) == "Mushoku Tensei"
    ensures Slice("[Group] Mushoku Tensei - S2 - 12v2", Span(26, 27)) == "2" && Value("2") == 2
    ensures Slice("[Group] Mushoku Tensei - S2 - 12v2", Span(30, 32)) == "12" && AllDigits("12") && EpisodeNumber("12") == 12
  {
    var t := Slice("[Group] Mushoku Tensei - S2 - 12v2", Span(8, 22));
    forall k | 0 <= k < 14
      ensures t[k] == "Mushoku Tensei"[k]
    {
      MushokuTitleChar(k);
    }
    assert Value("12") == 12;
  }

  lemma MushokuBuild()
    ensures var g := Groups(Span(8, 22), Some(Span(26, 27)), None, Span(30, 32));
      Captured(Dash, "[Group] Mushoku Tensei - S2 - 12v2", g) ==>
      Build("[Group] Mushoku Tensei - S2 - 12v2", Dash, g) == AnimeMeta("Mushoku Tensei", 2, 12, "[Group] Mushoku Tensei - S2 - 12v2")
  {
    var s := "[Group] Mushoku Tensei - S2 - 12v2";
    var g := Groups(Span(8, 22), Some(Span(26, 27)), None, Span(30, 32));
    if Captured(Dash, s, g) {
      MushokuSlices();
      MushokuTitle();
      SeasonOfCaptured(s, g, "Mushoku Tensei", 2);
      BuildFrom(s, Dash, g, "Mushoku Tensei", 2, 12);
    }
  }

  lemma MushokuPlain()
    ensures Preprocess("[Group] Mushoku Tensei - S2 - 12v2") == "[Group] Mushoku Tensei - S2 - 12v2"
  {
    PreprocessPlain("[Group] Mushoku Tensei - S2 - 12v2");
  }

  /** `[Group] Mushoku Tensei - S2 - 12v2` is read as Mushoku Tensei, season 2, episode 12:
      the version tag is not part of the episode. */
  lemma MushokuExample()
    ensures Parse("[Group] Mushoku Tensei - S2 - 12v2") == Some(AnimeMeta("Mushoku Tensei", 2, 12, "[Group] Mushoku Tensei - S2 - 12v2"))
  {
    MushokuPlain();
    MushokuCascade();
    MushokuBuild();
    ParseFrom("[Group] Mushoku Tensei - S2 - 12v2", Dash, Groups(Span(8, 22), Some(Span(26, 27)), None, Span(30, 32)),
      AnimeMeta("Mushoku Tensei", 2, 12, "[Group] Mushoku Tensei - S2 - 12v2"));
  }

  // ---------------------------------------------------------------------------
  // "[Group] One Piece Season 3 (2025) - 1089": the dash pattern, a season mined
  // from the title, and both the season phrase and the year removed
  // ---------------------------------------------------------------------------

  lemma OnePieceChars(j: nat)
    requires j < 40
    ensures "[Group] One Piece Season 3 (2025) - 1089"[j] != '\n'
    ensures j < 6 ==> "[Group] One Piece Season 3 (2025) - 1089"[j] != ']'
    ensures 8 <= j < 33 ==> !IsDash("[Group] One Piece Season 3 (2025) - 1089"[j])
    ensures 8 <= j < 33 && IsSpace("[Group] One Piece Season 3 (2025) - 1089"[j]) ==> j == 11 || j == 17 || j == 24 || j == 26
  {
  }

  lemma OnePieceNoTail(e: nat)
    requires 8 < e < 33
    ensures DashTail("[Group] One Piece Season 3 (2025) - 1089", e).None?
  {
    OnePieceChars(e);
    if IsSpace("[Group] One Piece Season 3 (2025) - 1089"[e]) {
      OnePieceChars(e + 1);
    }
  }

  lemma OnePieceEpisode()
    ensures DashEpisode("[Group] One Piece Season 3 (2025) - 1089", 36) == Some(40)
  {
    var s := "[Group] One Piece Season 3 (2025) - 1089";
    assert SkipDigits(s, 40) == 40;
    assert SkipDigits(s, 39) == 40;
    assert SkipDigits(s, 38) == 40;
    assert SkipDigits(s, 37) == 40;
    assert SkipDigits(s, 36) == 40;
    assert VersionThenStop(s, 40);
  }

  lemma OnePieceTail()
    ensures DashTail("[Group] One Piece Season 3 (2025) - 1089", 33) == Some((None, Span(36, 40)))
  {
    var s := "[Group] One Piece Season 3 (2025) - 1089";
    OnePieceEpisode();
    assert SeasonDigitsTried(s, 36) == 0;
    assert DashAfterSeparator(s, 36) == Some((None, Span(36, 40)));
    assert SkipSpaces(s, 36) == 36;
    assert SkipSpaces(s, 35) == 36;
    TailSpaceDash(s, 33, 36, Some((None, Span(36, 40))));
  }

  lemma OnePieceBracket()
    ensures forall i :: 0 <= i < 6 ==> "[Group] One Piece Season 3 (2025) - 1089"[i] != ']' && "[Group] One Piece Season 3 (2025) - 1089"[i] != '\n'
    ensures 6 < |"[Group] One Piece Season 3 (2025) - 1089"| && "[Group] One Piece Season 3 (2025) - 1089"[6] == ']'
  {
    forall i | 0 <= i < 6
      ensures "[Group] One Piece Season 3 (2025) - 1089"[i] != ']'
    {
      OnePieceChars(i);
    }
  }

  lemma OnePieceTitleRange()
    ensures NoNewlineIn("[Group] One Piece Season 3 (2025) - 1089", 8, 33)
    ensures SkipSpaces("[Group] One Piece Season 3 (2025) - 1089", 7) == 8
  {
    forall i | 8 <= i < 33
      ensures "[Group] One Piece Season 3 (2025) - 1089"[i] != '\n'
    {
      OnePieceChars(i);
    }
  }

  lemma OnePieceNoTails()
    ensures forall e' :: 8 < e' < 33 ==> DashTail("[Group] One Piece Season 3 (2025) - 1089", e').None?
  {
    forall e' | 8 < e' < 33
      ensures DashTail("[Group] One Piece Season 3 (2025) - 1089", e').None?
    {
      OnePieceNoTail(e');
    }
  }

  lemma OnePieceDash()
    ensures DashMatch("[Group] One Piece Season 3 (2025) - 1089") == Some(Groups(Span(8, 33), None, None, Span(36, 40)))
  {
    OnePieceBracket();
    OnePieceTitleRange();
    OnePieceNoTails();
    OnePieceTail();
    DashMatchAt("[Group] One Piece Season 3 (2025) - 1089", 6, 8, 33);
  }

  lemma OnePieceCascade()
    ensures Cascade("[Group] One Piece Season 3 (2025) - 1089") == Some((Dash, Groups(Span(8, 33), None, None, Span(36, 40))))
  {
    OnePieceDash();
  }

  /** The raw title: no season can be read before position 10. */
  lemma OnePieceTitleChars(k: nat)
    requires k < 10
    ensures !IsDigit("One Piece Season 3 (2025)"[k]) && Lower("One Piece Season 3 (2025)"[k]) != 's'
    ensures Lower("One Piece Season 3 (2025)"[k]) == 'p' ==> Lower("One Piece Season 3 (2025)"[k + 1]) != 'a'
  {
  }

  lemma OnePieceNoSeasonBefore(k: nat)
    requires k < 10
    ensures SeasonMatchAt("One Piece Season 3 (2025)", k).None?
  {
    var t := "One Piece Season 3 (2025)";
    OnePieceTitleChars(k);
    FirstLetters(t, k, "season");
    FirstLetters(t, k, "part");
    assert SkipDigits(t, k) == k;
  }

  lemma OnePieceSeasonAt()
    ensures SeasonMatchAt("One Piece Season 3 (2025)", 10) == Some([Some(Span(17, 18)), None, None])
  {
    var t := "One Piece Season 3 (2025)";
    assert WordAt(t, 10, "season");
    assert SkipSpaces(t, 17) == 17;
    assert SkipSpaces(t, 16) == 17;
    assert SkipDigits(t, 18) == 18;
    assert SkipDigits(t, 17) == 18;
  }

  lemma OnePieceGroups()
    ensures FirstNonEmptyGroup("One Piece Season 3 (2025)", [Some(Span(17, 18)), None, None], 0) == Some(3)
  {
    assert "One Piece Season 3 (2025)"[17..18] == "3";
    assert Value("3") == 3 by {
      assert "3"[..0] == [];
    }
  }

  /** `Season 3` is the leftmost season phrase of the raw title, so 3 is mined. */
  lemma OnePieceMined()
    ensures ExtractSeasonFromText("One Piece Season 3 (2025)") == Some(3)
  {
    var t := "One Piece Season 3 (2025)";
    forall k | 0 <= k < 10
      ensures SeasonMatchAt(t, k).None?
    {
      OnePieceNoSeasonBefore(k);
    }
    OnePieceSeasonAt();
    SeasonSearchFirst(t, 0, 10);
    OnePieceGroups();
  }

  /** Neither `Piece` nor `Season` starts with an ordinal: their first letters are
      `p` and `s`. */
  lemma OnePieceNoOrdinal(p: nat)
    requires p == 4 || p == 10
    ensures OrdinalLength("One Piece Season 3 (2025)", p) == 0
  {
    var t := "One Piece Season 3 (2025)";
    var c := Lower(t[p]);
    assert c == 'p' || c == 's';
    assert !WordAt(t, p, "2nd") && !WordAt(t, p, "3rd") && !WordAt(t, p, "4th") by {
      FirstLetters(t, p, "2nd");
      FirstLetters(t, p, "3rd");
      FirstLetters(t, p, "4th");
    }
    assert !WordAt(t, p, "final") && !WordAt(t, p, "first") by {
      FirstLetters(t, p, "final");
      FirstLetters(t, p, "first");
    }
  }

  lemma OnePieceNotPart()
    ensures SeasonWordEnd("One Piece Season 3 (2025)", 4).None?
  {
    var t := "One Piece Season 3 (2025)";
    assert Lower(t[4]) == 'p' && Lower(t[5]) == 'i';
    assert !WordAt(t, 4, "season") by {
      FirstLetters(t, 4, "season");
    }
    assert !WordAt(t, 4, "part") by {
      FirstLetters(t, 4, "part");
    }
  }

  /** At the space before `Piece` the `p` starts neither `part` nor an ordinal. */
  lemma OnePieceNoPhraseAtPiece()
    ensures MatchAt(SeasonPhrase, "One Piece Season 3 (2025)", 3).None?
  {
    var t := "One Piece Season 3 (2025)";
    assert IsSpace(t[3]) && !IsSpace(t[4]);
    assert SkipSpaces(t, 3) == 4;
    OnePieceNoOrdinal(4);
    assert OrdinalWordEnd(t, 4).None?;
    OnePieceNotPart();
    assert Lower(t[4]) == 'p';
    assert LetterEnd(t, 4).None?;
  }

  lemma OnePieceSeasonWord()
    ensures SeasonWordEnd("One Piece Season 3 (2025)", 10) == Some(18)
  {
    var t := "One Piece Season 3 (2025)";
    assert WordAt(t, 10, "season");
    assert SkipSpaces(t, 17) == 17;
    assert SkipSpaces(t, 16) == 17;
    assert SkipDigits(t, 18) == 18;
    assert SkipDigits(t, 17) == 18;
  }

  lemma OnePiecePhrase()
    ensures MatchAt(SeasonPhrase, "One Piece Season 3 (2025)", 9) == Some(18)
  {
    var t := "One Piece Season 3 (2025)";
    assert IsSpace(t[9]) && !IsSpace(t[10]);
    assert SkipSpaces(t, 9) == 10;
    OnePieceNoOrdinal(10);
    OnePieceSeasonWord();
  }

  lemma OnePieceTitleSpaces(k: nat)
    requires k < 25
    ensures IsSpace("One Piece Season 3 (2025)"[k]) ==> k == 3 || k == 9 || k == 16 || k == 18
    ensures k == 18 ==> !PhraseLead("One Piece Season 3 (2025)", SkipSpaces("One Piece Season 3 (2025)", k))
  {
    if k == 18 {
      assert SkipSpaces("One Piece Season 3 (2025)", 19) == 19;
    }
  }

  lemma OnePiecePhraseBefore(k: nat)
    requires k < 9
    ensures MatchAt(SeasonPhrase, "One Piece Season 3 (2025)", k).None?
  {
    OnePieceTitleSpaces(k);
    if k == 3 {
      OnePieceNoPhraseAtPiece();
    }
  }

  lemma OnePiecePhraseAfter(k: nat)
    requires 18 <= k < 25
    ensures MatchAt(SeasonPhrase, "One Piece Season 3 (2025)", k).None?
  {
    OnePieceTitleSpaces(k);
    if SeasonPhraseAt("One Piece Season 3 (2025)", k).Some? {
      SeasonPhraseNeeds("One Piece Season 3 (2025)", k);
    }
  }

  lemma OnePieceKeptParts()
    ensures "One Piece Season 3 (2025)"[0..9] + "One Piece Season 3 (2025)"[18..] == "One Piece (2025)"
  {
    assert "One Piece Season 3 (2025)"[0..9] == "One Piece";
    assert "One Piece Season 3 (2025)"[18..] == " (2025)";
  }

  /** The season phrase is ` Season 3`, and nothing else is removed with it. */
  lemma OnePieceNoSeasonPhrase()
    ensures SubAll(SeasonPhrase, "One Piece Season 3 (2025)", 0) == "One Piece (2025)"
  {
    var t := "One Piece Season 3 (2025)";
    forall k | 0 <= k < 9
      ensures MatchAt(SeasonPhrase, t, k).None?
    {
      OnePiecePhraseBefore(k);
    }
    forall k | 18 <= k < 25
      ensures MatchAt(SeasonPhrase, t, k).None?
    {
      OnePiecePhraseAfter(k);
    }
    SubAllKeepsRun(SeasonPhrase, t, 0, 9);
    OnePiecePhrase();
    assert SubAll(SeasonPhrase, t, 9) == SubAll(SeasonPhrase, t, 18);
    SubAllWithoutMatches(SeasonPhrase, t, 18);
    OnePieceKeptParts();
  }

  lemma OnePieceYear()
    ensures MatchAt(Year, "One Piece (2025)", 9) == Some(16)
  {
    var u := "One Piece (2025)";
    assert u[11..15] == "2025";
    assert AllDigits(u[11..15]);
  }

  /** The year is ` (2025)`. */
  lemma OnePieceNoYear()
    ensures SubAll(Year, "One Piece (2025)", 0) == "One Piece"
  {
    var u := "One Piece (2025)";
    forall k | 0 <= k < 9
      ensures MatchAt(Year, u, k).None?
    {
    }
    SubAllKeepsRun(Year, u, 0, 9);
    OnePieceYear();
    assert SubAll(Year, u, 9) == SubAll(Year, u, 16) == [];
    assert u[0..9] == "One Piece";
  }

  lemma OnePieceStrip()
    ensures Strip("One Piece") == "One Piece"
  {
    StripAfterSpaces([], "One Piece");
    assert [] + "One Piece" == "One Piece";
  }

  lemma OnePieceRemoved()
    ensures Removed("One Piece Season 3 (2025)") == "One Piece"
  {
    var t := "One Piece Season 3 (2025)";
    assert StripGroupTag(t) == t;
    OnePieceNoSeasonPhrase();
    OnePieceNoYear();
  }

  lemma OnePieceSegment()
    ensures StripSegment("One Piece") == "One Piece"
  {
    assert forall k :: 0 <= k < 9 ==> "One Piece"[k] != '_';
    assert '_' !in "One Piece";
    OnePieceStrip();
  }

  lemma OnePieceClean()
    ensures CleanTitle("One Piece Season 3 (2025)") == "One Piece"
  {
    OnePieceRemoved();
    OnePieceSegment();
  }

  lemma OnePieceTitleChar(k: nat)
    requires k < 25
    ensures "[Group] One Piece Season 3 (2025) - 1089"[8 + k] == "One Piece Season 3 (2025)"[k]
  {
  }

  lemma OnePieceTitleSlice()
    ensures Slice("[Group] One Piece Season 3 (2025) - 1089", Span(8, 33)) == "One Piece Season 3 (2025)"
  {
    var t := Slice("[Group] One Piece Season 3 (2025) - 1089", Span(8, 33));
    forall k | 0 <= k < 25
      ensures t[k] == "One Piece Season 3 (2025)"[k]
    {
      OnePieceTitleChar(k);
    }
  }

  lemma OnePieceRawStrip()
    ensures Strip("One Piece Season 3 (2025)") == "One Piece Season 3 (2025)"
  {
    StripAfterSpaces([], "One Piece Season 3 (2025)");
    assert [] + "One Piece Season 3 (2025)" == "One Piece Season 3 (2025)";
  }

  lemma OnePieceEpisodeSlice()
    ensures Slice("[Group] One Piece Season 3 (2025) - 1089", Span(36, 40)) == "1089"
    ensures AllDigits("1089") && EpisodeNumber("1089") == 1089
  {
    assert "1089"[..3] == "108" && "108"[..2] == "10" && "10"[..1] == "1" && "1"[..0] == [];
    assert Value("1") == 1;
    assert Value("10") == 10;
    assert Value("108") == 108;
    assert Value("1089") == 1089;
  }

  lemma OnePieceBuild()
    ensures Captured(Dash, "[Group] One Piece Season 3 (2025) - 1089", Groups(Span(8, 33), None, None, Span(36, 40)))
    ensures Build("[Group] One Piece Season 3 (2025) - 1089", Dash, Groups(Span(8, 33), None, None, Span(36, 40)))
      == AnimeMeta("One Piece", 3, 1089, "[Group] One Piece Season 3 (2025) - 1089")
  {
    var s := "[Group] One Piece Season 3 (2025) - 1089";
    var g := Groups(Span(8, 33), None, None, Span(36, 40));
    OnePieceCascade();
    OnePieceTitleSlice();
    OnePieceRawStrip();
    OnePieceEpisodeSlice();
    OnePieceMined();
    OnePieceClean();
    var m := Build(s, Dash, g);
    assert m.title == "One Piece" && m.season == 3 && m.episode == 1089 && m.rawFilename == s;
  }

  lemma OnePiecePlain()
    ensures Preprocess("[Group] One Piece Season 3 (2025) - 1089") == "[Group] One Piece Season 3 (2025) - 1089"
  {
    PreprocessPlain("[Group] One Piece Season 3 (2025) - 1089");
  }

  /** `[Group] One Piece Season 3 (2025) - 1089` is read as One Piece, season 3, episode
      1089: the dash pattern captures no season, so the default 1 is replaced by the
      season mined from the title, and the season phrase and the year are cleaned away. */
  lemma OnePieceExample()
    ensures Parse("[Group] One Piece Season 3 (2025) - 1089") == Some(AnimeMeta("One Piece", 3, 1089, "[Group] One Piece Season 3 (2025) - 1089"))
  {
    OnePiecePlain();
    OnePieceCascade();
    OnePieceBuild();
    ParseFrom("[Group] One Piece Season 3 (2025) - 1089", Dash, Groups(Span(8, 33), None, None, Span(36, 40)),
      AnimeMeta("One Piece", 3, 1089, "[Group] One Piece Season 3 (2025) - 1089"));
  }
}
