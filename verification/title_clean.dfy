/**
 * `AnimeParser._clean_title` (core/parser.py:127-146): drop a leading group
 * tag, every season phrase, every bracketed year, keep one side of an
 * underscore-joined bilingual title, and strip.
 */
module TitleClean {
  import opened Chars
  import opened Text
  import opened Wrappers
  import opened Patterns

  // ---------------------------------------------------------------------------
  // re.sub(r'^\[.*?\]\s*', '', text)
  // ---------------------------------------------------------------------------

  /** The `]` that the lazy `.*?` reaches first from k, unless a newline comes before it. */
  function LazyClose(t: string, k: nat): (r: Option<nat>)
    requires k <= |t|
    ensures r.Some? ==> k <= r.value < |t| && t[r.value] == ']'
    ensures r.Some? ==> forall j :: k <= j < r.value ==> t[j] != ']' && t[j] != '\n'
    ensures r.None? ==> forall j :: k <= j < |t| && t[j] == ']' ==> exists n :: k <= n < j && t[n] == '\n'
    decreases |t| - k
  {
    if k == |t| || t[k] == '\n' then None
    else if t[k] == ']' then Some(k)
    else LazyClose(t, k + 1)
  }

  /** t[1..c] holds no `]` and t[c + 1..cut] is whitespace. */
  predicate TagAt(t: string, c: nat, cut: nat) {
    && (forall j :: 1 <= j < c && j < |t| ==> t[j] != ']')
    && (forall j :: c < j < cut && j < |t| ==> IsSpace(t[j]))
  }

  /** text without a leading `[...]` tag and the whitespace after it. The pattern is
      anchored with `^`, so at most one tag is removed. */
  function StripGroupTag(t: string): (r: string)
    ensures |r| <= |t| && r == t[|t| - |r|..]
    ensures r != t ==> var cut := |t| - |r|;
      && t[0] == '[' && 0 < cut
      && (exists c :: 0 < c < cut && t[c] == ']' && TagAt(t, c, cut))
      && (r == [] || !IsSpace(r[0]))
    ensures (|t| == 0 || t[0] != '[') ==> r == t
    ensures r != t <==> |t| > 0 && t[0] == '[' && LazyClose(t, 1).Some?
  {
    if |t| > 0 && t[0] == '[' then
      match LazyClose(t, 1)
      case Some(c) =>
        var cut := SkipSpaces(t, c + 1);
        assert t[|t| - |t[cut..]|..] == t[cut..];
        assert TagAt(t, c, cut);
        t[cut..]
      case None => t
    else t
  }

  // ---------------------------------------------------------------------------
  // re.sub(pattern, '', text) for the season phrase and year patterns
  // ---------------------------------------------------------------------------

  /** The two patterns that `_clean_title` removes everywhere. */
  datatype Removal =
    | SeasonPhrase  // (?i)\s+(?:2nd|3rd|4th|final|first)?\s*(?:season|part)\s*\d*|\s+S\d+\b
    | Year          // \s\(\d{4}\)

  /** `\s+` covers t[i..a]. */
  predicate SpaceRun(t: string, i: nat, a: nat) {
    i < a && SpacesIn(t, i, a)
  }

  /** `2nd|3rd|4th|final|first` at p, k characters long. */
  predicate OrdinalAt(t: string, p: nat, k: nat) {
    || (k == 3 && (WordAt(t, p, "2nd") || WordAt(t, p, "3rd") || WordAt(t, p, "4th")))
    || (k == 5 && (WordAt(t, p, "final") || WordAt(t, p, "first")))
  }

  /** `(?:season|part)\s*\d*` at c, ending at e: the greedy runs taken whole,
      as nothing after them can fail. */
  predicate SeasonWordTail(t: string, c: nat, e: nat) {
    || (WordAt(t, c, "season") && e == SkipDigits(t, SkipSpaces(t, c + 6)))
    || (WordAt(t, c, "part") && e == SkipDigits(t, SkipSpaces(t, c + 4)))
  }

  /** `S\d+\b` at a, ending at e. */
  predicate LetterRun(t: string, a: nat, e: nat) {
    && a < |t| && Lower(t[a]) == 's' && a + 1 < e <= |t|
    && (forall k :: a + 1 <= k < e ==> IsDigit(t[k]))
    && (e == |t| || !IsWordChar(t[e]))
  }

  /** `\s+\s*(?:season|part)\s*\d*` from i to e (the first alternative without the ordinal). */
  ghost predicate PlainPhrase(t: string, i: nat, e: nat) {
    exists a: nat, c: nat :: SpaceRun(t, i, a) && SpacesIn(t, a, c) && SeasonWordTail(t, c, e)
  }

  /** `\s+(?:2nd|3rd|4th|final|first)\s*(?:season|part)\s*\d*` from i to e. */
  ghost predicate OrdinalPhrase(t: string, i: nat, e: nat) {
    exists a: nat, k: nat, c: nat :: SpaceRun(t, i, a) && OrdinalAt(t, a, k) && SpacesIn(t, a + k, c) && SeasonWordTail(t, c, e)
  }

  /** `\s+S\d+\b` from i to e (the second alternative). */
  ghost predicate LetterPhrase(t: string, i: nat, e: nat) {
    exists a: nat :: SpaceRun(t, i, a) && LetterRun(t, a, e)
  }

  /** `re_clean_season` matches at i and ends at e. */
  ghost predicate CleanSeasonMatch(t: string, i: nat, e: nat) {
    PlainPhrase(t, i, e) || OrdinalPhrase(t, i, e) || LetterPhrase(t, i, e)
  }

  /** `(?:season|part)\s*\d*` at q, the end of the first alternative: its greedy runs
      succeed at once, so the match ends after all the whitespace and digits. */
  function SeasonWordEnd(t: string, q: nat): (r: Option<nat>)
    requires q <= |t|
    ensures r.Some? <==> WordAt(t, q, "season") || WordAt(t, q, "part")
    ensures r.Some? ==> q < r.value <= |t|
    ensures forall e: nat :: SeasonWordTail(t, q, e) <==> r == Some(e)
  {
    assert WordAt(t, q, "season") ==> !WordAt(t, q, "part") by {
      if WordAt(t, q, "season") {
        WordsClash(t, q, "season", "part");
      }
    }
    var w := if WordAt(t, q, "season") then 6 else if WordAt(t, q, "part") then 4 else 0;
    if w == 0 then None else Some(SkipDigits(t, SkipSpaces(t, q + w)))
  }

  /** The length of `2nd|3rd|4th|final|first` at p (at most one can start there), or 0. */
  function OrdinalLength(t: string, p: nat): (n: nat)
    ensures n == 0 || (p + n <= |t| && OrdinalAt(t, p, n))
    ensures forall k :: OrdinalAt(t, p, k) ==> k == n
  {
    if WordAt(t, p, "2nd") || WordAt(t, p, "3rd") || WordAt(t, p, "4th") then
      assert !WordAt(t, p, "final") && !WordAt(t, p, "first") by {
        if WordAt(t, p, "2nd") {
          WordsClash(t, p, "2nd", "final");
          WordsClash(t, p, "2nd", "first");
        } else if WordAt(t, p, "3rd") {
          WordsClash(t, p, "3rd", "final");
          WordsClash(t, p, "3rd", "first");
        } else {
          WordsClash(t, p, "4th", "final");
          WordsClash(t, p, "4th", "first");
        }
      }
      3
    else if WordAt(t, p, "final") || WordAt(t, p, "first") then 5
    else 0
  }

  /** Every way of matching the first alternative without the ordinal puts the
      word where the whitespace from i stops. */
  lemma PlainPhraseAt(t: string, i: nat, e: nat)
    requires i <= |t| && PlainPhrase(t, i, e)
    ensures i < |t| && IsSpace(t[i]) && SeasonWordTail(t, SkipSpaces(t, i), e)
  {
    var a: nat, c: nat :| SpaceRun(t, i, a) && SpacesIn(t, a, c) && SeasonWordTail(t, c, e);
    assert !IsSpace(t[c]) by {
      assert WordAt(t, c, "season") ==> Lower(t[c + 0]) == "season"[0];
      assert WordAt(t, c, "part") ==> Lower(t[c + 0]) == "part"[0];
    }
    SkipSpacesUntil(t, i, c);
  }

  /** Every way of matching it with the ordinal puts the ordinal where the
      whitespace from i stops, and the word where the whitespace after it stops. */
  lemma OrdinalPhraseAt(t: string, i: nat, e: nat)
    requires i <= |t| && OrdinalPhrase(t, i, e)
    ensures i < |t| && IsSpace(t[i])
    ensures var p := SkipSpaces(t, i); var k := OrdinalLength(t, p);
      i < |t| && IsSpace(t[i]) && 0 < k && p + k <= |t| && SeasonWordEnd(t, SkipSpaces(t, p + k)) == Some(e)
  {
    var a: nat, k: nat, c: nat :| SpaceRun(t, i, a) && OrdinalAt(t, a, k) && SpacesIn(t, a + k, c) && SeasonWordTail(t, c, e);
    OrdinalNotSpace(t, a, k);
    OrdinalLengthIs(t, a, k);
    WordNotSpace(t, c, e);
    SkipSpacesUntil(t, i, a);
    SkipSpacesUntil(t, a + k, c);
    TailEnd(t, c, e);
    OrdinalTailAt(t, i, a, k, c, e);
  }

  lemma OrdinalTailAt(t: string, i: nat, a: nat, k: nat, c: nat, e: nat)
    requires i <= |t| && a + k <= |t| && SkipSpaces(t, i) == a && OrdinalLength(t, a) == k
    requires 0 < k && SkipSpaces(t, a + k) == c && SeasonWordEnd(t, c) == Some(e)
    ensures var p := SkipSpaces(t, i); var k := OrdinalLength(t, p);
      0 < k && p + k <= |t| && SeasonWordEnd(t, SkipSpaces(t, p + k)) == Some(e)
  {
    var p := SkipSpaces(t, i);
    assert p == a;
    var k' := OrdinalLength(t, p);
    assert k' == k;
    assert SkipSpaces(t, p + k') == c;
  }

  /** An ordinal does not start with whitespace. */
  lemma OrdinalNotSpace(t: string, a: nat, k: nat)
    requires OrdinalAt(t, a, k)
    ensures a < |t| && !IsSpace(t[a])
  {
    assert WordAt(t, a, "2nd") ==> t[a + 0] == "2nd"[0];
    assert WordAt(t, a, "3rd") ==> t[a + 0] == "3rd"[0];
    assert WordAt(t, a, "4th") ==> t[a + 0] == "4th"[0];
    assert WordAt(t, a, "final") ==> Lower(t[a + 0]) == "final"[0];
    assert WordAt(t, a, "first") ==> Lower(t[a + 0]) == "first"[0];
  }

  lemma OrdinalLengthIs(t: string, a: nat, k: nat)
    requires OrdinalAt(t, a, k)
    ensures OrdinalLength(t, a) == k && 0 < k && a + k <= |t|
  {
  }

  /** Neither `season` nor `part` starts with whitespace. */
  lemma WordNotSpace(t: string, c: nat, e: nat)
    requires SeasonWordTail(t, c, e)
    ensures c < |t| && !IsSpace(t[c])
  {
    assert WordAt(t, c, "season") ==> Lower(t[c + 0]) == "season"[0];
    assert WordAt(t, c, "part") ==> Lower(t[c + 0]) == "part"[0];
  }

  /** The second alternative starts where the whitespace from i stops, and its
      digit run is the greedy one. */
  lemma LetterPhraseAt(t: string, i: nat, e: nat)
    requires i <= |t| && LetterPhrase(t, i, e)
    ensures i < |t| && IsSpace(t[i])
    ensures var p := SkipSpaces(t, i);
      p < |t| && Lower(t[p]) == 's' && e == SkipDigits(t, p + 1) && p + 1 < e
  {
    var a: nat :| SpaceRun(t, i, a) && LetterRun(t, a, e);
    SkipSpacesUntil(t, i, a);
    SkipDigitsUntil(t, a + 1, e);
  }

  /** A literal is not read at p when one of its letters differs. */
  lemma Mismatch(t: string, p: nat, w: string, j: nat)
    requires j < |w| && p + j < |t| && Lower(t[p + j]) != w[j]
    ensures !WordAt(t, p, w)
  {
  }

  /** An ordinal and the word `season`/`part` cannot start at the same place. */
  lemma OrdinalNotWord(t: string, p: nat)
    requires OrdinalLength(t, p) > 0
    ensures !WordAt(t, p, "season") && !WordAt(t, p, "part")
  {
    var ws := ["2nd", "3rd", "4th", "final", "first"];
    assert exists w :: w in ws && WordAt(t, p, w);
    var w :| w in ws && WordAt(t, p, w);
    WordsClash(t, p, w, "season");
    WordsClash(t, p, w, "part");
  }

  /** Where `S\d` starts, neither an ordinal nor the word `season`/`part` does. */
  lemma LetterNotWord(t: string, p: nat)
    requires p + 1 < |t| && Lower(t[p]) == 's' && IsDigit(t[p + 1])
    ensures !WordAt(t, p, "season") && !WordAt(t, p, "part") && OrdinalLength(t, p) == 0
  {
    Mismatch(t, p, "season", 1);
    Mismatch(t, p, "part", 0);
    Mismatch(t, p, "2nd", 0);
    Mismatch(t, p, "3rd", 0);
    Mismatch(t, p, "4th", 0);
    Mismatch(t, p, "final", 0);
    Mismatch(t, p, "first", 0);
  }

  /** `re_clean_season` at i. The greedy `\s+` first leaves the optional ordinal to start
      after all the whitespace; with the ordinal, then without it, `(?:season|part)`
      must follow; giving whitespace back only moves that same attempt into `\s*`.
      The second alternative `\s+S\d+\b` is tried last. */
  function SeasonPhraseAt(t: string, i: nat): (r: Option<nat>)
    requires i <= |t|
    ensures r.Some? ==> i < r.value <= |t| && IsSpace(t[i])
  {
    if i < |t| && IsSpace(t[i]) then
      var p := SkipSpaces(t, i);
      if OrdinalWordEnd(t, p).Some? then OrdinalWordEnd(t, p)
      else if SeasonWordEnd(t, p).Some? then SeasonWordEnd(t, p)
      else LetterEnd(t, p)
    else None
  }

  /** `(?:2nd|3rd|4th|final|first)\s*(?:season|part)\s*\d*` at p. */
  function OrdinalWordEnd(t: string, p: nat): (r: Option<nat>)
    requires p <= |t|
    ensures r.Some? ==> var k := OrdinalLength(t, p);
      0 < k && p + k <= |t| && r == SeasonWordEnd(t, SkipSpaces(t, p + k))
    ensures r.Some? ==> var k := OrdinalLength(t, p);
      0 < k && p + k <= |t| && SeasonWordTail(t, SkipSpaces(t, p + k), r.value)
  {
    var k := OrdinalLength(t, p);
    if k > 0 then
      var c := SkipSpaces(t, p + k);
      var r := SeasonWordEnd(t, c);
      if r.Some? then
        SeasonWordEndTail(t, c, r.value);
        r
      else r
    else None
  }

  /** `S\d+\b` at p. */
  function LetterEnd(t: string, p: nat): (r: Option<nat>)
    requires p <= |t|
    ensures r.Some? ==> LetterRun(t, p, r.value) && r.value == SkipDigits(t, p + 1)
  {
    if p < |t| && Lower(t[p]) == 's' then
      var x := SkipDigits(t, p + 1);
      if p + 1 < x && (x == |t| || !IsWordChar(t[x])) then Some(x) else None
    else None
  }

  /** What SeasonPhraseAt finds is a match of `re_clean_season` at i. */
  lemma SeasonPhraseSound(t: string, i: nat)
    requires i <= |t| && SeasonPhraseAt(t, i).Some?
    ensures CleanSeasonMatch(t, i, SeasonPhraseAt(t, i).value)
  {
    var p := SkipSpaces(t, i);
    var e := SeasonPhraseAt(t, i).value;
    if OrdinalWordEnd(t, p).Some? {
      assert SpaceRun(t, i, p);
      OrdinalWitness(t, i, p, e);
    } else if SeasonWordEnd(t, p).Some? {
      PlainWitness(t, i, e);
    } else {
      LetterWitness(t, i, e);
    }
  }

  lemma OrdinalWitness(t: string, i: nat, p: nat, e: nat)
    requires SpaceRun(t, i, p) && p <= |t| && OrdinalWordEnd(t, p) == Some(e)
    ensures OrdinalPhrase(t, i, e)
  {
    OrdinalTail(t, p, e);
    PhraseFromParts(t, i, p, OrdinalLength(t, p), SkipSpaces(t, p + OrdinalLength(t, p)), e);
  }

  /** The parts OrdinalWordEnd read, named. */
  lemma OrdinalTail(t: string, p: nat, e: nat)
    requires p <= |t| && OrdinalWordEnd(t, p) == Some(e)
    ensures var k := OrdinalLength(t, p); var c := SkipSpaces(t, p + k);
      p + k <= c && OrdinalAt(t, p, k) && SpacesIn(t, p + k, c) && SeasonWordTail(t, c, e)
  {
  }

  lemma PhraseFromParts(t: string, i: nat, p: nat, k: nat, c: nat, e: nat)
    requires SpaceRun(t, i, p) && OrdinalAt(t, p, k) && SpacesIn(t, p + k, c) && SeasonWordTail(t, c, e)
    ensures OrdinalPhrase(t, i, e)
  {
  }

  lemma SeasonWordEndTail(t: string, q: nat, e: nat)
    requires q <= |t| && SeasonWordEnd(t, q) == Some(e)
    ensures SeasonWordTail(t, q, e)
  {
  }

  lemma PlainWitness(t: string, i: nat, e: nat)
    requires i < |t| && IsSpace(t[i]) && SeasonWordEnd(t, SkipSpaces(t, i)) == Some(e)
    ensures PlainPhrase(t, i, e)
  {
    var p := SkipSpaces(t, i);
    SeasonWordEndTail(t, p, e);
    assert SpaceRun(t, i, p) && SpacesIn(t, p, p) && SeasonWordTail(t, p, e);
  }

  lemma LetterWitness(t: string, i: nat, e: nat)
    requires i < |t| && IsSpace(t[i]) && LetterEnd(t, SkipSpaces(t, i)) == Some(e)
    ensures LetterPhrase(t, i, e)
  {
    var p := SkipSpaces(t, i);
    assert SpaceRun(t, i, p) && LetterRun(t, p, e);
  }

  /** Every match of `re_clean_season` at i ends where SeasonPhraseAt says: the
      alternatives exclude each other and each has one end. */
  lemma SeasonPhraseComplete(t: string, i: nat)
    requires i <= |t|
    ensures forall e: nat :: CleanSeasonMatch(t, i, e) ==> SeasonPhraseAt(t, i) == Some(e)
  {
    OrdinalPhrases(t, i);
    PlainPhrases(t, i);
    LetterPhrases(t, i);
  }

  /** The first two letters of an ordinal, `season`, `part` or `S\d` at p. */
  predicate PhraseLead(t: string, p: nat) {
    p + 1 < |t| &&
    var c := Lower(t[p]);
    c == '2' || c == '3' || c == '4' || c == 's' || c == 'p' || (c == 'f' && Lower(t[p + 1]) == 'i')
  }

  /** A match at i needs whitespace there and, where the whitespace stops, the start
      of an ordinal (`2nd`, `3rd`, `4th`, `fi`), of `season`, of `part` or of `S`. */
  lemma SeasonPhraseNeeds(t: string, i: nat)
    requires i <= |t| && SeasonPhraseAt(t, i).Some?
    ensures i < |t| && IsSpace(t[i])
    ensures PhraseLead(t, SkipSpaces(t, i))
  {
    var p := SkipSpaces(t, i);
    if OrdinalWordEnd(t, p).Some? {
      OrdinalLead(t, p);
    } else if SeasonWordEnd(t, p).Some? {
      WordLead(t, p);
    }
  }

  lemma OrdinalLead(t: string, p: nat)
    requires OrdinalLength(t, p) > 0
    ensures PhraseLead(t, p)
  {
    if WordAt(t, p, "2nd") {
      FirstLetters(t, p, "2nd");
    } else if WordAt(t, p, "3rd") {
      FirstLetters(t, p, "3rd");
    } else if WordAt(t, p, "4th") {
      FirstLetters(t, p, "4th");
    } else if WordAt(t, p, "final") {
      FirstLetters(t, p, "final");
    } else {
      FirstLetters(t, p, "first");
    }
  }

  lemma WordLead(t: string, p: nat)
    requires WordAt(t, p, "season") || WordAt(t, p, "part")
    ensures PhraseLead(t, p)
  {
    if WordAt(t, p, "season") {
      FirstLetters(t, p, "season");
    } else {
      FirstLetters(t, p, "part");
    }
  }

  /** Neither removal matches at k when what follows k rules it out. */
  lemma NoRemovalAt(t: string, k: nat)
    requires k < |t|
    requires IsSpace(t[k]) ==> !PhraseLead(t, SkipSpaces(t, k))
    requires k + 1 < |t| ==> t[k + 1] != '('
    ensures MatchAt(SeasonPhrase, t, k).None? && MatchAt(Year, t, k).None?
  {
    if SeasonPhraseAt(t, k).Some? {
      SeasonPhraseNeeds(t, k);
    }
  }

  /** The first two letters of a literal read at p. */
  lemma FirstLetters(t: string, p: nat, w: string)
    requires 2 <= |w|
    ensures WordAt(t, p, w) ==> p + 1 < |t| && Lower(t[p]) == w[0] && Lower(t[p + 1]) == w[1]
  {
    if WordAt(t, p, w) {
      assert Lower(t[p + 0]) == w[0];
    }
  }

  /** Where the first alternative, with the ordinal, ends when it matches at i. */
  lemma OrdinalPhrases(t: string, i: nat)
    requires i <= |t|
    ensures forall e: nat :: OrdinalPhrase(t, i, e) ==>
      var p := SkipSpaces(t, i); var k := OrdinalLength(t, p);
      i < |t| && IsSpace(t[i]) && 0 < k && p + k <= |t| && SeasonWordEnd(t, SkipSpaces(t, p + k)) == Some(e)
  {
    forall e: nat | OrdinalPhrase(t, i, e)
      ensures var p := SkipSpaces(t, i); var k := OrdinalLength(t, p);
        i < |t| && IsSpace(t[i]) && 0 < k && p + k <= |t| && SeasonWordEnd(t, SkipSpaces(t, p + k)) == Some(e)
    {
      OrdinalPhraseAt(t, i, e);
    }
  }

  lemma TailEnd(t: string, c: nat, e: nat)
    requires c <= |t| && SeasonWordTail(t, c, e)
    ensures SeasonWordEnd(t, c) == Some(e)
  {
  }

  /** Where the first alternative, without the ordinal, ends when it matches at i. */
  lemma PlainPhrases(t: string, i: nat)
    requires i <= |t|
    ensures forall e: nat :: PlainPhrase(t, i, e) ==>
      var p := SkipSpaces(t, i);
      i < |t| && IsSpace(t[i]) && SeasonWordEnd(t, p) == Some(e) && OrdinalLength(t, p) == 0
  {
    forall e: nat | PlainPhrase(t, i, e)
      ensures var p := SkipSpaces(t, i);
        i < |t| && IsSpace(t[i]) && SeasonWordEnd(t, p) == Some(e) && OrdinalLength(t, p) == 0
    {
      PlainPhraseAt(t, i, e);
      if OrdinalLength(t, SkipSpaces(t, i)) > 0 {
        OrdinalNotWord(t, SkipSpaces(t, i));
      }
    }
  }

  /** Where the second alternative ends when it matches at i. */
  lemma LetterPhrases(t: string, i: nat)
    requires i <= |t|
    ensures forall e: nat :: LetterPhrase(t, i, e) ==>
      var p := SkipSpaces(t, i);
      && i < |t| && IsSpace(t[i])
      && p < |t| && Lower(t[p]) == 's' && e == SkipDigits(t, p + 1) && p + 1 < e
      && SeasonWordEnd(t, p).None? && OrdinalLength(t, p) == 0
  {
    forall e: nat | LetterPhrase(t, i, e)
      ensures var p := SkipSpaces(t, i);
        && i < |t| && IsSpace(t[i])
        && p < |t| && Lower(t[p]) == 's' && e == SkipDigits(t, p + 1) && p + 1 < e
        && SeasonWordEnd(t, p).None? && OrdinalLength(t, p) == 0
    {
      LetterPhraseAt(t, i, e);
      LetterNotWord(t, SkipSpaces(t, i));
    }
  }

  /** `\s\(\d{4}\)` at i. */
  function YearAt(t: string, i: nat): (r: Option<nat>)
    requires i <= |t|
    ensures r.Some? ==> r.value == i + 7 <= |t| && IsSpace(t[i]) && t[i + 1] == '(' && t[i + 6] == ')'
    ensures r.Some? ==> AllDigits(t[i + 2..i + 6])
    ensures r.None? ==>
      !(i + 7 <= |t| && IsSpace(t[i]) && t[i + 1] == '(' && t[i + 6] == ')' && forall k :: i + 2 <= k < i + 6 ==> IsDigit(t[k]))
  {
    if i + 7 <= |t| && IsSpace(t[i]) && t[i + 1] == '(' && t[i + 6] == ')' then
      var y := t[i + 2..i + 6];
      assert AllDigits(y) <==> forall k :: i + 2 <= k < i + 6 ==> IsDigit(t[k]) by {
        assert forall k :: i + 2 <= k < i + 6 ==> t[k] == y[k - (i + 2)];
      }
      if AllDigits(y) then Some(i + 7) else None
    else None
  }

  /** Where a match of the removal pattern starting at i ends, if one starts there. */
  function MatchAt(p: Removal, t: string, i: nat): (r: Option<nat>)
    requires i <= |t|
    ensures r.Some? ==> i < r.value <= |t|
  {
    match p
    case SeasonPhrase => SeasonPhraseAt(t, i)
    case Year => YearAt(t, i)
  }

  /** A match of either removal pattern starting at i is found there, with its end:
      the season phrase as `re_clean_season` reads it, the year in its seven-character form. */
  lemma MatchAtPattern(p: Removal, t: string, i: nat)
    requires i <= |t|
    ensures p == SeasonPhrase && MatchAt(p, t, i).Some? ==> CleanSeasonMatch(t, i, MatchAt(p, t, i).value)
    ensures p == SeasonPhrase ==> forall e: nat :: CleanSeasonMatch(t, i, e) ==> MatchAt(p, t, i) == Some(e)
    ensures p == Year ==> (MatchAt(p, t, i).Some? <==>
      i + 7 <= |t| && IsSpace(t[i]) && t[i + 1] == '(' && t[i + 6] == ')' && forall k :: i + 2 <= k < i + 6 ==> IsDigit(t[k]))
  {
    if p == SeasonPhrase {
      if MatchAt(p, t, i).Some? {
        SeasonPhraseSound(t, i);
      }
      SeasonPhraseComplete(t, i);
    }
  }

  /** `re.sub(p, '', t)` on the part of t from i: scanning left to right, each match
      met is dropped and the scan resumes after it; other characters are kept. */
  function SubAll(p: Removal, t: string, i: nat): (r: string)
    requires i <= |t|
    ensures |r| <= |t| - i
    decreases |t| - i
  {
    if i == |t| then []
    else match MatchAt(p, t, i)
      case Some(n) => SubAll(p, t, n)
      case None => [t[i]] + SubAll(p, t, i + 1)
  }

  /** The positions of t whose characters `SubAll` keeps, in order. */
  ghost function Kept(p: Removal, t: string, i: nat): (ks: seq<nat>)
    requires i <= |t|
    decreases |t| - i
  {
    if i == |t| then []
    else match MatchAt(p, t, i)
      case Some(n) => Kept(p, t, n)
      case None => [i] + Kept(p, t, i + 1)
  }

  /** Position k of t lies inside a match that starts at a position not kept. */
  ghost predicate InsideDroppedMatch(p: Removal, t: string, i: nat, ks: seq<nat>, k: nat) {
    exists m :: i <= m <= k && m !in ks && m <= |t| && MatchAt(p, t, m).Some? && k < MatchAt(p, t, m).value
  }

  /** What `re.sub` keeps: the result is the characters at the kept positions, in
      increasing order, and no match of the pattern starts at a kept position. */
  lemma {:induction false} SubAllKeeps(p: Removal, t: string, i: nat)
    requires i <= |t|
    ensures var ks := Kept(p, t, i); var r := SubAll(p, t, i);
      && |ks| == |r|
      && (forall j :: 0 <= j < |ks| ==> i <= ks[j] < |t| && r[j] == t[ks[j]] && MatchAt(p, t, ks[j]).None?)
      && (forall j, j' :: 0 <= j < j' < |ks| ==> ks[j] < ks[j'])
    decreases |t| - i
  {
    if i < |t| {
      match MatchAt(p, t, i)
      case Some(n) =>
        SubAllKeeps(p, t, n);
      case None =>
        SubAllKeeps(p, t, i + 1);
    }
  }

  lemma KeptFrom(p: Removal, t: string, i: nat)
    requires i <= |t|
    ensures forall j :: 0 <= j < |Kept(p, t, i)| ==> i <= Kept(p, t, i)[j]
  {
    SubAllKeeps(p, t, i);
  }

  /** A match from i to n: positions before n are inside it, later ones are
      covered as they were from n. */
  lemma DropsAfterMatch(p: Removal, t: string, i: nat, n: nat, ks: seq<nat>)
    requires i < n <= |t| && MatchAt(p, t, i) == Some(n)
    requires forall j :: 0 <= j < |ks| ==> n <= ks[j]
    requires forall k :: n <= k < |t| && k !in ks ==> InsideDroppedMatch(p, t, n, ks, k)
    ensures forall k :: i <= k < |t| && k !in ks ==> InsideDroppedMatch(p, t, i, ks, k)
  {
    forall k | i <= k < |t| && k !in ks
      ensures InsideDroppedMatch(p, t, i, ks, k)
    {
      if k < n {
        assert i !in ks;
      } else {
        var m :| n <= m <= k && m !in ks && m <= |t| && MatchAt(p, t, m).Some? && k < MatchAt(p, t, m).value;
      }
    }
  }

  /** A kept character at i: later positions are covered as they were from i + 1. */
  lemma DropsAfterKept(p: Removal, t: string, i: nat, rest: seq<nat>)
    requires i < |t|
    requires forall k :: i + 1 <= k < |t| && k !in rest ==> InsideDroppedMatch(p, t, i + 1, rest, k)
    ensures forall k :: i <= k < |t| && k !in [i] + rest ==> InsideDroppedMatch(p, t, i, [i] + rest, k)
  {
    forall k | i <= k < |t| && k !in [i] + rest
      ensures InsideDroppedMatch(p, t, i, [i] + rest, k)
    {
      assert k != i && k !in rest;
      DroppedPastKept(p, t, i, rest, k);
    }
  }

  lemma DroppedPastKept(p: Removal, t: string, i: nat, rest: seq<nat>, k: nat)
    requires InsideDroppedMatch(p, t, i + 1, rest, k)
    ensures InsideDroppedMatch(p, t, i, [i] + rest, k)
  {
    var m :| i + 1 <= m <= k && m !in rest && m <= |t| && MatchAt(p, t, m).Some? && k < MatchAt(p, t, m).value;
    assert m !in [i] + rest;
  }

  /** What `re.sub` drops: every position not kept lies inside a match that starts at a
      position not kept. */
  lemma {:induction false} SubAllDrops(p: Removal, t: string, i: nat)
    requires i <= |t|
    ensures forall k :: i <= k < |t| && k !in Kept(p, t, i) ==> InsideDroppedMatch(p, t, i, Kept(p, t, i), k)
    decreases |t| - i
  {
    if i < |t| {
      var found := MatchAt(p, t, i);
      if found.Some? {
        var n := found.value;
        SubAllDrops(p, t, n);
        KeptFrom(p, t, n);
        DropsAfterMatch(p, t, i, n, Kept(p, t, n));
        assert Kept(p, t, i) == Kept(p, t, n);
      } else {
        SubAllDrops(p, t, i + 1);
        assert Kept(p, t, i) == [i] + Kept(p, t, i + 1);
        DropsAfterKept(p, t, i, Kept(p, t, i + 1));
      }
    }
  }

  /** When no match starts anywhere, nothing is removed. */
  lemma {:induction false} SubAllWithoutMatches(p: Removal, t: string, i: nat)
    requires i <= |t|
    requires forall k :: i <= k < |t| ==> MatchAt(p, t, k).None?
    ensures SubAll(p, t, i) == t[i..]
    decreases |t| - i
  {
    if i < |t| {
      SubAllWithoutMatches(p, t, i + 1);
      assert t[i..] == [t[i]] + t[i + 1..];
    }
  }

  /** A position where no match starts is kept, and the scan moves on by one. */
  lemma SubAllKeptChar(p: Removal, t: string, i: nat)
    requires i < |t| && MatchAt(p, t, i).None?
    ensures SubAll(p, t, i) == [t[i]] + SubAll(p, t, i + 1)
  {
  }

  /** A stretch t[i..j] where no match starts is kept as it is, in front of what the
      scan leaves from j on. */
  lemma {:induction false} SubAllKeepsRun(p: Removal, t: string, i: nat, j: nat)
    requires i <= j <= |t|
    requires forall k :: i <= k < j ==> MatchAt(p, t, k).None?
    ensures SubAll(p, t, i) == t[i..j] + SubAll(p, t, j)
    decreases j - i
  {
    if i < j {
      SubAllKeepsRun(p, t, i + 1, j);
      SubAllKeptChar(p, t, i);
      var rest := SubAll(p, t, j);
      assert [t[i]] + (t[i + 1..j] + rest) == ([t[i]] + t[i + 1..j]) + rest;
      assert [t[i]] + t[i + 1..j] == t[i..j];
    }
  }

  // ---------------------------------------------------------------------------
  // The bilingual underscore rule and the whole cleaner
  // ---------------------------------------------------------------------------

  /** `s.replace(' ', '')` */
  function RemoveSpaceChars(s: string): (r: string)
    ensures ' ' !in r
    ensures forall c :: c in r <==> c in s && c != ' '
  {
    if s == [] then []
    else if s[0] == ' ' then RemoveSpaceChars(s[1..])
    else [s[0]] + RemoveSpaceChars(s[1..])
  }

  /** `all(ord(c) < 128 for c in part.strip().replace(' ', ''))` */
  predicate AsciiSegment(part: string) {
    forall c :: c in RemoveSpaceChars(Strip(part)) ==> IsAscii(c)
  }

  /** Stripping and removing spaces only drop ASCII characters, so the check
      reads every character of the segment. */
  lemma AsciiSegmentIff(part: string)
    ensures AsciiSegment(part) <==> forall c :: c in part ==> IsAscii(c)
  {
    var st := Strip(part);
    var a := SkipSpaces(part, 0);
    forall k | a <= k < a + |st|
      ensures part[k] in st
    {
      assert st[k - a] == part[k];
    }
    StripChars(part);
  }

  /** Lines 139-144: a text holding `_` is cut at every `_`; the last piece is kept when
      it is ASCII, otherwise the first. */
  function PickSegment(t: string): (r: string)
    ensures '_' in t ==> '_' !in r
    ensures '_' !in t ==> r == t
  {
    if '_' in t then
      var parts := Split(t, "_");
      var last := parts[|parts| - 1];
      var pick := if |parts| > 1 && AsciiSegment(last) then last else parts[0];
      assert pick in parts;
      NoUnderscore(pick);
      pick
    else t
  }

  lemma NoUnderscore(p: string)
    requires !Contains(p, "_")
    ensures '_' !in p
  {
    forall k | 0 <= k < |p|
      ensures p[k] != '_'
    {
      if p[k] == '_' {
        assert p[k..k + 1] == "_";
        assert OccursAt(p, "_", k);
      }
    }
  }

  /** Which segment lines 139-144 keep: the one after the last `_` when it is ASCII
      (an empty one counts), otherwise the one before the first `_`. */
  lemma PickSegmentChoice(t: string)
    requires '_' in t
    ensures var r := PickSegment(t);
      forall k :: 0 <= k < |t| && t[k] == '_' && '_' !in t[k + 1..] ==>
        && (AsciiSegment(t[k + 1..]) ==> r == t[k + 1..])
        && (!AsciiSegment(t[k + 1..]) ==> |r| < |t| && r == t[..|r|] && t[|r|] == '_')
  {
    UnderscoreSplits(t);
    var parts := Split(t, "_");
    var first := parts[0];
    var last := parts[|parts| - 1];
    FirstSegment(t, first);
    LastSegment(t, last);
    LastUnderscore(t, last);
    PickOfSegments(t, first, last);
  }

  lemma UnderscoreSplits(t: string)
    requires '_' in t
    ensures |Split(t, "_")| > 1
  {
    var u :| 0 <= u < |t| && t[u] == '_';
    assert t[u..u + 1] == "_";
    SplitMany(t, "_", u);
  }

  lemma PickOfSegments(t: string, first: string, last: string)
    requires '_' in t && |Split(t, "_")| > 1
    requires first == Split(t, "_")[0] && last == Split(t, "_")[|Split(t, "_")| - 1]
    ensures PickSegment(t) == if AsciiSegment(last) then last else first
  {
  }

  lemma FirstSegment(t: string, first: string)
    requires |Split(t, "_")| > 1 && first == Split(t, "_")[0]
    ensures |first| < |t| && first == t[..|first|] && t[|first|] == '_'
  {
    SplitFirstPiece(t, "_");
    assert t[|first|..|first| + 1][0] == '_';
  }

  lemma LastSegment(t: string, last: string)
    requires |Split(t, "_")| > 1 && last == Split(t, "_")[|Split(t, "_")| - 1]
    ensures |last| < |t| && last == t[|t| - |last|..] && t[|t| - |last| - 1] == '_' && '_' !in last
  {
    SplitLastPiece(t, "_");
    assert last in Split(t, "_");
    NoUnderscore(last);
    EndUnderscore(t, last);
  }

  lemma EndUnderscore(t: string, last: string)
    requires EndPiece(t, "_", last)
    ensures |last| < |t| && last == t[|t| - |last|..] && t[|t| - |last| - 1] == '_'
  {
    assert t[|t| - |last| - 1..|t| - |last|][0] == '_';
  }

  /** The only `_` with none after it is the one just before the last segment. */
  lemma LastUnderscore(t: string, last: string)
    requires |last| < |t| && last == t[|t| - |last|..] && t[|t| - |last| - 1] == '_' && '_' !in last
    ensures forall k :: 0 <= k < |t| && t[k] == '_' && '_' !in t[k + 1..] ==> t[k + 1..] == last
  {
  }

  /** The text after the three removals, before the underscore rule. */
  function Removed(t: string): (r: string)
    ensures |r| <= |t|
    ensures (|t| == 0 || t[0] != '[') && (forall k :: 0 <= k < |t| ==> MatchAt(SeasonPhrase, t, k).None? && MatchAt(Year, t, k).None?) ==>
      r == t
    ensures r == SubAll(Year, SubAll(SeasonPhrase, StripGroupTag(t), 0), 0)
  {
    var untagged := StripGroupTag(t);
    var noSeason := SubAll(SeasonPhrase, untagged, 0);
    assert (|t| == 0 || t[0] != '[') && (forall k :: 0 <= k < |t| ==> MatchAt(SeasonPhrase, t, k).None? && MatchAt(Year, t, k).None?) ==>
      SubAll(Year, noSeason, 0) == t
    by {
      if (|t| == 0 || t[0] != '[') && (forall k :: 0 <= k < |t| ==> MatchAt(SeasonPhrase, t, k).None? && MatchAt(Year, t, k).None?) {
        SubAllWithoutMatches(SeasonPhrase, t, 0);
        assert t[0..] == t;
        SubAllWithoutMatches(Year, t, 0);
      }
    }
    SubAll(Year, noSeason, 0)
  }

  /** Lines 139-146 on the text left after the removals: the chosen segment, stripped. */
  function StripSegment(removed: string): (r: string)
    ensures NoOuterSpace(r)
    ensures '_' in removed ==> '_' !in r
    ensures r == Strip(PickSegment(removed))
  {
    var s := PickSegment(removed);
    assert '_' in removed ==> '_' !in Strip(s) by {
      if '_' in removed {
        StripLacks(s, '_');
      }
    }
    Strip(s)
  }

  /** `_clean_title(text)`: the removals, then the segment choice and the strip. */
  function CleanTitle(t: string): (r: string)
    ensures NoOuterSpace(r)
    ensures r == Strip(PickSegment(SubAll(Year, SubAll(SeasonPhrase, StripGroupTag(t), 0), 0)))
  {
    StripSegment(Removed(t))
  }

  /** The underscore rule with the last `_` at k: the segment after it when it is all
      ASCII, else the segment before the first `_`. */
  lemma PickSegmentAt(t: string, k: nat)
    requires k < |t| && t[k] == '_' && '_' !in t[k + 1..]
    ensures (forall c :: c in t[k + 1..] ==> IsAscii(c)) ==> PickSegment(t) == t[k + 1..]
    ensures (exists c :: c in t[k + 1..] && !IsAscii(c)) && '_' !in t[..k] ==> PickSegment(t) == t[..k]
  {
    PickSegmentChoice(t);
    AsciiSegmentIff(t[k + 1..]);
    var r := PickSegment(t);
    if (exists c :: c in t[k + 1..] && !IsAscii(c)) && '_' !in t[..k] {
      assert r == t[..k];
    }
  }

  /** The underscore rule on a whole title with no group tag, season phrase or year. */
  lemma CleanTitleSegments(t: string, k: nat)
    requires (|t| == 0 || t[0] != '[')
    requires forall i :: 0 <= i < |t| ==> MatchAt(SeasonPhrase, t, i).None? && MatchAt(Year, t, i).None?
    requires k < |t| && t[k] == '_' && '_' !in t[k + 1..]
    ensures (forall c :: c in t[k + 1..] ==> IsAscii(c)) ==> CleanTitle(t) == Strip(t[k + 1..])
    ensures (exists c :: c in t[k + 1..] && !IsAscii(c)) && '_' !in t[..k] ==> CleanTitle(t) == Strip(t[..k])
  {
    assert Removed(t) == t;
    PickSegmentAt(t, k);
  }

  /** A title with no group tag, no season phrase, no year, no `_` and no outer
      whitespace comes out of the cleaner unchanged. */
  lemma CleanTitleUnchanged(t: string)
    requires NoOuterSpace(t) && (|t| == 0 || t[0] != '[') && '_' !in t
    requires forall k :: 0 <= k < |t| ==> MatchAt(SeasonPhrase, t, k).None? && MatchAt(Year, t, k).None?
    ensures CleanTitle(t) == t
  {
    assert [] + t == t;
    if t != [] {
      StripAfterSpaces([], t);
    }
  }
}
