/**
 * Season numbers found in text (core/parser.py:52, 84-89, 113-125): the
 * first digit run of a bracketed season marker, and the season phrases
 * mined from a title by `re_season_text`
 * `(?i)(?:season|part)\s*(\d{1,2})|S(\d{1,2})\b|(\d{1,2})(?:nd|rd|th)\s+season`.
 */
module SeasonText {
  import opened Chars
  import opened Text
  import opened Wrappers
  import opened Patterns

  // ---------------------------------------------------------------------------
  // re.findall(r'\d+', s_raw)[0]
  // ---------------------------------------------------------------------------

  /** The first maximal digit run of t at or after i, as `re.findall(r'\d+', ...)[0]` finds it. */
  function FirstDigitRun(t: string, i: nat): (r: Option<Span>)
    requires i <= |t|
    ensures r.Some? <==> exists k :: i <= k < |t| && IsDigit(t[k])
    ensures r.Some? ==> var sp := r.value;
      && i <= sp.start < sp.end <= |t| && AllDigits(t[sp.start..sp.end])
      && (sp.end < |t| ==> !IsDigit(t[sp.end]))
      && forall k :: i <= k < sp.start ==> !IsDigit(t[k])
    decreases |t| - i
  {
    if i == |t| then None
    else if IsDigit(t[i]) then Some(Span(i, SkipDigits(t, i)))
    else FirstDigitRun(t, i + 1)
  }

  // ---------------------------------------------------------------------------
  // re_season_text, one alternative at a time
  // ---------------------------------------------------------------------------

  /** One or two digits of t at sp. */
  predicate SeasonNumber(t: string, sp: Span) {
    sp.start < sp.end <= |t| && sp.end - sp.start <= 2 && AllDigits(t[sp.start..sp.end])
  }

  /** The digit run at sp is as long as `\d{1,2}` can take it. */
  predicate GreedyNumber(t: string, sp: Span) {
    sp.end - sp.start == 2 || sp.end >= |t| || !IsDigit(t[sp.end])
  }

  /** `(?:season|part)\s*(\d{1,2})` matches at i with the group at sp. */
  predicate SeasonWordShape(t: string, i: nat, sp: Span) {
    && SeasonNumber(t, sp)
    && ((WordAt(t, i, "season") && SpacesIn(t, i + 6, sp.start)) || (WordAt(t, i, "part") && SpacesIn(t, i + 4, sp.start)))
  }

  /** `S(\d{1,2})\b` matches at i with the group at sp. */
  predicate SeasonLetterShape(t: string, i: nat, sp: Span) {
    && i < |t| && Lower(t[i]) == 's' && sp.start == i + 1 && SeasonNumber(t, sp)
    && (sp.end == |t| || !IsWordChar(t[sp.end]))
  }

  /** `(\d{1,2})(?:nd|rd|th)\s+season` matches at i with the group at sp and
      the word `season` at z. */
  predicate OrdinalShape(t: string, i: nat, sp: Span, z: nat) {
    && sp.start == i && SeasonNumber(t, sp)
    && (WordAt(t, sp.end, "nd") || WordAt(t, sp.end, "rd") || WordAt(t, sp.end, "th"))
    && sp.end + 2 < z && SpacesIn(t, sp.end + 2, z) && WordAt(t, z, "season")
  }

  /** Whatever the whitespace run of a shape at i, the digits start where the
      greedy run after the word stops. */
  lemma SeasonWordShapeStart(t: string, i: nat, sp: Span)
    requires SeasonWordShape(t, i, sp)
    ensures var j := if WordAt(t, i, "season") then i + 6 else i + 4;
      j <= |t| && SkipSpaces(t, j) == sp.start
  {
    assert t[sp.start..sp.end][0] == t[sp.start];
    if WordAt(t, i, "season") {
      WordsClash(t, i, "season", "part");
      SkipSpacesUntil(t, i + 6, sp.start);
    } else {
      SkipSpacesUntil(t, i + 4, sp.start);
    }
  }

  /** `(?:season|part)\s*(\d{1,2})` at i. Only one of the two words can start at i;
      the greedy `\s*` must stop before a digit and `\d{1,2}` ends the alternative,
      so the first choice of each is the match. */
  function SeasonWordAt(t: string, i: nat): (r: Option<Span>)
    requires i <= |t|
    ensures r.Some? ==> SeasonWordShape(t, i, r.value) && GreedyNumber(t, r.value)
    ensures r.None? ==> forall sp :: !SeasonWordShape(t, i, sp)
  {
    var j := if WordAt(t, i, "season") then i + 6 else if WordAt(t, i, "part") then i + 4 else i;
    if j == i then None
    else
      var q := SkipSpaces(t, j);
      var x := q + Min(2, SkipDigits(t, q) - q);
      if q < x then
        assert AllDigits(t[q..x]) by {
          forall k | 0 <= k < x - q
            ensures IsDigit(t[q..x][k])
          {
            assert t[q..x][k] == t[q + k];
          }
        }
        Some(Span(q, x))
      else
        assert forall sp :: !SeasonWordShape(t, i, sp) by {
          forall sp | SeasonWordShape(t, i, sp)
            ensures false
          {
            SeasonWordShapeStart(t, i, sp);
          }
        }
        None
  }

  /** The digit run of a letter shape is the greedy one: one digit less would
      leave a digit after it, and no boundary. */
  lemma SeasonLetterShapeEnd(t: string, i: nat, sp: Span)
    requires SeasonLetterShape(t, i, sp)
    ensures sp.end == i + 1 + Min(2, SkipDigits(t, i + 1) - (i + 1))
  {
    forall k | i + 1 <= k < sp.end
      ensures IsDigit(t[k])
    {
      assert t[k] == t[sp.start..sp.end][k - sp.start];
    }
    if sp.end < |t| {
      SkipDigitsUntil(t, i + 1, sp.end);
    } else {
      SkipDigitsUntil(t, i + 1, sp.end);
    }
  }

  /** `S(\d{1,2})\b` at i. A shorter run would put the boundary between two digits. */
  function SeasonLetterAt(t: string, i: nat): (r: Option<Span>)
    requires i <= |t|
    ensures r.Some? ==> SeasonLetterShape(t, i, r.value)
    ensures forall sp :: SeasonLetterShape(t, i, sp) ==> r.Some? && r.value == sp
  {
    if i < |t| && Lower(t[i]) == 's' then
      var x := i + 1 + Min(2, SkipDigits(t, i + 1) - (i + 1));
      assert forall sp :: SeasonLetterShape(t, i, sp) ==> sp.end == x by {
        forall sp | SeasonLetterShape(t, i, sp)
          ensures sp.end == x
        {
          SeasonLetterShapeEnd(t, i, sp);
        }
      }
      if i + 1 < x && (x == |t| || !IsWordChar(t[x])) then
        var lo := i + 1;
        assert AllDigits(t[lo..x]) by {
          forall k | 0 <= k < x - lo
            ensures IsDigit(t[lo..x][k])
          {
            assert t[lo..x][k] == t[lo + k];
          }
        }
        Some(Span(lo, x))
      else None
    else None
  }

  /** The digit run and the whitespace run of an ordinal shape are the greedy ones:
      one digit less leaves a digit where the suffix starts, and the word `season`
      starts with a letter. */
  lemma OrdinalShapeEnds(t: string, i: nat, sp: Span, z: nat)
    requires i <= |t| && OrdinalShape(t, i, sp, z)
    ensures sp.end == i + Min(2, SkipDigits(t, i) - i) && z == SkipSpaces(t, sp.end + 2)
  {
    forall k | i <= k < sp.end
      ensures IsDigit(t[k])
    {
      assert t[k] == t[sp.start..sp.end][k - sp.start];
    }
    assert !IsDigit(t[sp.end]) by {
      assert WordAt(t, sp.end, "nd") ==> Lower(t[sp.end + 0]) == "nd"[0];
      assert WordAt(t, sp.end, "rd") ==> Lower(t[sp.end + 0]) == "rd"[0];
      assert WordAt(t, sp.end, "th") ==> Lower(t[sp.end + 0]) == "th"[0];
    }
    SkipDigitsUntil(t, i, sp.end);
    assert !IsSpace(t[z]) by {
      assert Lower(t[z + 0]) == "season"[0];
    }
    SkipSpacesUntil(t, sp.end + 2, z);
  }

  /** `(\d{1,2})(?:nd|rd|th)\s+season` at i. A shorter digit run leaves a digit where
      a letter is required, a shorter `\s+` leaves whitespace where `s` is required. */
  function OrdinalSeasonAt(t: string, i: nat): (r: Option<Span>)
    requires i <= |t|
    ensures r.Some? ==> exists z :: OrdinalShape(t, i, r.value, z)
    ensures forall sp, z :: OrdinalShape(t, i, sp, z) ==> r.Some? && r.value == sp
  {
    var x := i + Min(2, SkipDigits(t, i) - i);
    OrdinalShapesEnd(t, i, x);
    if i < x && (WordAt(t, x, "nd") || WordAt(t, x, "rd") || WordAt(t, x, "th")) then
      var z := SkipSpaces(t, x + 2);
      if x + 2 < z && WordAt(t, z, "season") then
        OrdinalFound(t, i, x, z);
        Some(Span(i, x))
      else None
    else None
  }

  /** Every shape at i ends its digits at x and its whitespace where the run from x + 2 stops. */
  lemma OrdinalShapesEnd(t: string, i: nat, x: nat)
    requires i <= |t| && x == i + Min(2, SkipDigits(t, i) - i)
    ensures forall sp, z :: OrdinalShape(t, i, sp, z) ==> sp.end == x && x + 2 <= |t| && z == SkipSpaces(t, x + 2)
  {
    forall sp, z | OrdinalShape(t, i, sp, z)
      ensures sp.end == x && x + 2 <= |t| && z == SkipSpaces(t, x + 2)
    {
      OrdinalShapeEnds(t, i, sp, z);
    }
  }

  lemma OrdinalFound(t: string, i: nat, x: nat, z: nat)
    requires i < x <= |t| && x == i + Min(2, SkipDigits(t, i) - i)
    requires WordAt(t, x, "nd") || WordAt(t, x, "rd") || WordAt(t, x, "th")
    requires x + 2 <= |t| && z == SkipSpaces(t, x + 2) && x + 2 < z && WordAt(t, z, "season")
    ensures OrdinalShape(t, i, Span(i, x), z)
  {
    assert AllDigits(t[i..x]) by {
      forall k | 0 <= k < x - i
        ensures IsDigit(t[i..x][k])
      {
        assert t[i..x][k] == t[i + k];
      }
    }
  }

  /** A group of a match: unset, or one or two digits of t. */
  predicate DigitGroup(t: string, group: Option<Span>) {
    group.Some? ==> var sp := group.value;
      sp.start < sp.end <= |t| && sp.end - sp.start <= 2 && AllDigits(t[sp.start..sp.end])
  }

  /** The three groups of `re_season_text` for a match starting at i (alternatives
      tried in order), or None when no alternative matches there. Only the group of
      the alternative that matched is set. */
  function SeasonMatchAt(t: string, i: nat): (r: Option<seq<Option<Span>>>)
    requires i <= |t|
    ensures r.Some? ==> |r.value| == 3
    ensures r.Some? ==> r.value[0].Some? || r.value[1].Some? || r.value[2].Some?
    ensures r.Some? ==> DigitGroup(t, r.value[0]) && DigitGroup(t, r.value[1]) && DigitGroup(t, r.value[2])
    ensures r.Some? && r.value[0].Some? ==>
      SeasonWordShape(t, i, r.value[0].value) && GreedyNumber(t, r.value[0].value)
      && r.value[1].None? && r.value[2].None?
    ensures r.Some? && r.value[1].Some? ==>
      SeasonLetterShape(t, i, r.value[1].value) && r.value[0].None? && r.value[2].None?
      && forall sp :: !SeasonWordShape(t, i, sp)
    ensures r.Some? && r.value[2].Some? ==>
      (exists z :: OrdinalShape(t, i, r.value[2].value, z)) && r.value[0].None? && r.value[1].None?
      && forall sp :: !SeasonWordShape(t, i, sp) && !SeasonLetterShape(t, i, sp)
    ensures r.None? ==> forall sp, z :: !SeasonWordShape(t, i, sp) && !SeasonLetterShape(t, i, sp) && !OrdinalShape(t, i, sp, z)
  {
    var word := SeasonWordAt(t, i);
    if word.Some? then Some([word, None, None])
    else
      var letter := SeasonLetterAt(t, i);
      if letter.Some? then Some([None, letter, None])
      else
        var ordinal := OrdinalSeasonAt(t, i);
        if ordinal.Some? then Some([None, None, ordinal]) else None
  }

  /** The leftmost match at or after i, as `SeasonSearch` reports it. */
  predicate LeftmostFrom(t: string, i: nat, r: Option<(nat, seq<Option<Span>>)>)
    requires i <= |t|
  {
    && (r.Some? ==> i <= r.value.0 <= |t| && SeasonMatchAt(t, r.value.0) == Some(r.value.1))
    && (r.Some? ==> forall k :: i <= k < r.value.0 ==> SeasonMatchAt(t, k).None?)
    && (r.None? ==> forall k :: i <= k <= |t| ==> SeasonMatchAt(t, k).None?)
  }

  /** No match at i: the leftmost match from i + 1 is the leftmost from i. */
  lemma LeftmostStep(t: string, i: nat, r: Option<(nat, seq<Option<Span>>)>)
    requires i < |t| && SeasonMatchAt(t, i).None? && LeftmostFrom(t, i + 1, r)
    ensures LeftmostFrom(t, i, r)
  {
  }

  /** `re_season_text.search(t)` from position i: the leftmost start with a match. */
  function SeasonSearch(t: string, i: nat): (r: Option<(nat, seq<Option<Span>>)>)
    requires i <= |t|
    ensures r.Some? ==> i <= r.value.0 <= |t| && SeasonMatchAt(t, r.value.0) == Some(r.value.1)
    ensures r.Some? ==> forall k :: i <= k < r.value.0 ==> SeasonMatchAt(t, k).None?
    ensures r.None? ==> forall k :: i <= k <= |t| ==> SeasonMatchAt(t, k).None?
    decreases |t| - i
  {
    var here := SeasonMatchAt(t, i);
    if here.Some? then Some((i, here.value))
    else if i < |t| then
      var r := SeasonSearch(t, i + 1);
      LeftmostStep(t, i, r);
      r
    else None
  }

  /** The first start from i with a match is the one the search reports. */
  lemma SeasonSearchFirst(t: string, i: nat, k: nat)
    requires i <= k <= |t| && SeasonMatchAt(t, k).Some?
    requires forall k' :: i <= k' < k ==> SeasonMatchAt(t, k').None?
    ensures SeasonSearch(t, i) == Some((k, SeasonMatchAt(t, k).value))
  {
    var r := SeasonSearch(t, i);
    assert r.Some?;
    assert r.value.0 == k;
  }

  /** `for g in match.groups(): if g: return int(g)` over the groups from index g. */
  function FirstNonEmptyGroup(t: string, groups: seq<Option<Span>>, g: nat): (r: Option<nat>)
    requires g <= |groups|
    requires forall j :: 0 <= j < |groups| ==> DigitGroup(t, groups[j])
    ensures r.Some? ==> r.value <= 99
    ensures r.None? <==> forall j :: g <= j < |groups| ==> groups[j].None?
    ensures r.Some? ==> exists j ::
      && g <= j < |groups| && groups[j].Some? && DigitGroup(t, groups[j])
      && (forall i :: g <= i < j ==> groups[i].None?)
      && r.value == Value(t[groups[j].value.start..groups[j].value.end])
    decreases |groups| - g
  {
    if g == |groups| then None
    else match groups[g]
      case Some(sp) =>
        assert DigitGroup(t, groups[g]);
        Some(Value(t[sp.start..sp.end]))
      case None => FirstNonEmptyGroup(t, groups, g + 1)
  }

  /** v is the season the leftmost match of `re_season_text`, at k, gives: the
      value of the group its alternative sets. */
  ghost predicate MinedAt(t: string, k: nat, v: nat) {
    && k <= |t| && SeasonMatchAt(t, k).Some?
    && (forall k' :: 0 <= k' < k ==> SeasonMatchAt(t, k').None?)
    && var m := SeasonMatchAt(t, k).value;
      exists j :: 0 <= j < 3 && m[j].Some? && DigitGroup(t, m[j]) && v == Value(t[m[j].value.start..m[j].value.end])
  }

  /** `_extract_season_from_text(t)` (core/parser.py:113-125). */
  function ExtractSeasonFromText(t: string): (r: Option<nat>)
    ensures r.None? <==> forall k :: 0 <= k <= |t| ==> SeasonMatchAt(t, k).None?
    ensures r.Some? ==> r.value <= 99
    ensures r.Some? ==> exists k :: MinedAt(t, k, r.value)
  {
    match SeasonSearch(t, 0)
    case None => None
    case Some((_, groups)) =>
      assert forall j :: 0 <= j < |groups| ==> DigitGroup(t, groups[j]) by {
        forall j | 0 <= j < |groups|
          ensures DigitGroup(t, groups[j])
        {
          if j == 0 {} else if j == 1 {} else {}
        }
      }
      assert groups[0].Some? || groups[1].Some? || groups[2].Some?;
      var r := FirstNonEmptyGroup(t, groups, 0);
      assert MinedAt(t, SeasonSearch(t, 0).value.0, r.value);
      r
  }

  /** Every alternative captures digits, so a text without digits names no season. */
  lemma NoDigitsNoSeason(t: string)
    requires forall k :: 0 <= k < |t| ==> !IsDigit(t[k])
    ensures ExtractSeasonFromText(t).None?
  {
    forall k | 0 <= k <= |t|
      ensures SeasonMatchAt(t, k).None?
    {
      if SeasonMatchAt(t, k).Some? {
        assert false;
      }
    }
  }
}
