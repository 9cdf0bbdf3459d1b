# Anime library organiser: filename parser, linker naming, override table, list options

This project models the decision-making core of an anime library organiser and proves what
it promises. It covers four parts.

- **`AnimeParser.parse`** turns a release filename into an `AnimeMeta(title, season,
  episode, raw_filename)` record, or into no match. It works in five steps:
  1. Map full-width brackets to ASCII ones.
  2. Try four regular-expression strategies in a fixed order: dash, `SxxExx`, brackets,
     simple trailing number.
  3. Resolve the season from the captured group, then from the bracket marker, then by
     mining the title.
  4. Read the episode.
  5. Clean the title:
     - remove a leading group tag, season phrases and bracketed years;
     - keep one half of an underscore-joined bilingual title;
     - strip the result.

  There is no regex engine here. Each pattern is a hand-written matcher over `string`. It
  follows Python's leftmost search, its lazy `.+?`/`.*?` title ends and its backtracking
  order. It returns the spans of the groups. Its contract says what the groups hold and
  that no shorter title (or earlier start) would have matched.
- **`FileLinker`** computes the library path
  `<root>/<series>/Season NN/<title> - SxxEyy<ext>`. `run` builds the names from the
  parsed record and the optional TMDB name, and `_sanitize` cleans each one. `run` then
  updates the `VideoFile` object in place after the directory and hard-link steps.
  - The filesystem is a `FileSystem` object holding the set of existing paths.
  - Whether `mkdir` and `os.link` succeed is an argument.
- **`MappingManager`** is the manual-override table, keyed by filename. It is a class with
  a `map` field.
  - `get_data` normalises legacy integer entries.
  - `update` merges the given fields and stores the record back.
- **`ConfigManager.get_list`** splits a raw option string at a delimiter, strips the
  pieces and drops the empty ones.

The modules:

- `Chars`: Character classes.
- `Text`: `strip`, `find`, `split`, `join`, decimal digits.
- `Patterns`: The four strategy matchers.
- `SeasonText`: Season mining.
- `TitleClean`: `_clean_title`.
- `Parser`: `parse`.
- `Types`: `AnimeMeta`, `VideoFile`.
- `Linker`: `FileLinker`.
- `Mapping`: `MappingManager`.
- `Config`: `get_list`.

## Model

| member | source | states |
|---|---|---|
| Parser.Preprocess | core/parser.py:60 | Same length. `【` becomes `[` and `】` becomes `]`. Every other character is unchanged. |
| Parser.PreprocessIdempotent | core/parser.py:20 | No full-width bracket is left, so preprocessing again changes nothing. |
| Parser.Match | core/parser.py:25-48 | The groups of any strategy's match are in bounds. The episode text has the strategy's digit width (4 for dash, else 3; a `.d` decimal only for dash). Season digits are 1–2 digits. Only dash and SxxExx capture `season`, and SxxExx always does. Only brackets capture `season_raw`. |
| Parser.DashCaptured | core/parser.py:25-28 | A dash match has the dash strategy's group shapes: a 1–4 digit episode with an optional `.d`, a season of 1–2 digits and no `season_raw`. |
| Parser.Cascade | core/parser.py:63-70 | No match iff all four strategies fail. Otherwise the reported strategy matched with these groups, and every strategy before it in the order dash, SxxExx, brackets, simple failed. |
| Parser.CapturedSeason | core/parser.py:77-89 | A captured `season` group gives its value (at most 99). Otherwise it is the value of the first maximal digit run of `season_raw`. Otherwise it is 1. |
| Parser.ResolveSeason | core/parser.py:93-96 | A season other than 1 stands. A season of 1 is replaced by the value mined from the title when that value exists and is non-zero. It stays 1 when nothing is mined or the mined value is 0. The result is then at most 99. |
| Parser.SeasonOf | core/parser.py:77-96 | The captured `season` value, else the first digit run of `season_raw`, whenever that value is not 1. When that value is 1, or there is none (no group, or a `season_raw` without digits), the title is mined: a non-zero mined value, else 1. |
| Parser.EpisodeNumber | core/parser.py:99-109 | `int(float(d))`: the value of the digits before the dot (`12.5` gives 12), below 10^(number of leading digits). |
| Parser.EpisodeBound | core/parser.py:99-109 | An episode text of width w gives an episode below 10^w. |
| Parser.Build | core/parser.py:72-111 | `raw_filename` is the preprocessed string. The title is `_clean_title` of the stripped title group, with no whitespace at either end. The season is `SeasonOf` the groups and that title. The episode is the value of the episode group's digits before the dot. |
| Parser.Parse | core/parser.py:58-111 | No match (and never a partial record) iff all four strategies fail on the preprocessed filename. Otherwise the record is the one built from the first matching strategy's groups, with `raw_filename` the preprocessed filename and a stripped title. |
| Parser.ParseWinner | core/parser.py:58-111 | For any recognised filename, full-width brackets included: the record holds the cleaned stripped title group, `SeasonOf` the groups, the value of the episode group and the preprocessed filename. |
| Parser.ParseSeasonBound | core/parser.py:77-96 | Unless the brackets strategy won, the season is at most 99. |
| Parser.ParseEpisodeBound | core/parser.py:99-109 | The episode is at most 9999 for the dash strategy and at most 999 for the others. |
| Parser.ParseCapturedSeason | core/parser.py:80-96 | A captured season v other than 1 is the result, so `S00` gives season 0. A captured 1 goes through title mining. |
| Patterns.DashEpisode | core/parser.py:26 | `(?P<episode>\d{1,4}(?:\.\d)?)(?:v\d)?` followed by whitespace, `[`, `(` or the end. A result is such an episode group. |
| Patterns.DashEpisodeOnly | core/parser.py:26 | Completeness: whenever an episode group from p ends at y, `DashEpisode` finds it and reports y. |
| Patterns.EpisodeStart | core/parser.py:26 | The optional whitespace, hyphen or en dash, and whitespace after the season digits: the result is the end of such a run. |
| Patterns.EpisodeStartOnly | core/parser.py:26 | Any such run (spaces only, or spaces, a dash and spaces) that stops in front of a digit stops at `EpisodeStart`. |
| Patterns.NoEpisodeAfterStart | core/parser.py:26 | No episode follows the greedy run iff no episode follows any choice of the run. |
| Patterns.DashSeasonEpisode | core/parser.py:26 | `S` then one or two season digits (two tried first), then the separator run and the episode. A result has those groups. |
| Patterns.DashSeasonShorter | core/parser.py:26 | Backtracking: when the longer season run is not followed by an episode, the result is the one for one digit fewer. |
| Patterns.DashSeasonTried | core/parser.py:26 | Every longer season run than the one reported (all of them, on no match) is followed by no episode. |
| Patterns.DashAfterSeparator | core/parser.py:26 | The optional season clause after the dash, else the bare episode at the same position. No match means no bare episode there either. |
| Patterns.DashAfterSeparatorOrder | core/parser.py:26 | The season clause is tried first: a bare episode, or no match, means that no season clause at that position is followed by an episode. |
| Patterns.DashTail | core/parser.py:26 | Everything after the title: a hyphen or en dash between optional whitespace, then the optional season clause and the episode. A result comes from some choice of the separator run, and no match means that no choice leads to one. |
| Patterns.DashTitle | core/parser.py:26 | The lazy title from a fixed start: the first end, without a newline, where the tail matches. No match means no end up to the next newline has a tail. |
| Patterns.DashTitleStart | core/parser.py:26 | `\s*(?P<title>.+?)` after a `]`: the start is tried from the end of the whitespace run back towards the `]`. The first start with a title wins, and its title is the shortest. No match means no start in the range has one. |
| Patterns.DashFrom | core/parser.py:26 | `^.*?\]`: the title follows the first `]` (before a newline) that has any title with a tail after it. Every earlier `]` has none. No match means no `]` has one. |
| Patterns.DashMatch | core/parser.py:25-28 | A dash match takes its title after the first `]` that leads to a match. The tail (season, episode) matches right after the title, and the title is the shortest. No match means no `]` before a newline is followed by a title and tail. |
| Patterns.DashMatchAt | core/parser.py:25-28 | With a first `]` and a title end whose tail matches and no earlier end does, the match is exactly those groups. |
| Patterns.NoBracketNoDash | core/parser.py:26 | A filename without `]` never matches the dash strategy. |
| Patterns.NoDashNoDashMatch | core/parser.py:26 | A filename without a hyphen or en dash never matches the dash strategy. |
| Patterns.SeShapeGreedy | core/parser.py:32 | Only the greedy season digit run can be followed by `E` and a digit. |
| Patterns.SeFixed | core/parser.py:32 | `[\s\.]S(\d{1,2})E(\d{1,3})` at a position: whitespace or `.`, `S` (any case), 1–2 season digits, `E`, 1–3 episode digits taken greedily. No match means no such shape at that position. |
| Patterns.SeTitle | core/parser.py:32 | The lazy `.*?` title: the first end, without a newline, at which the fixed part matches. No match means no end up to the next newline has one. |
| Patterns.SeSearch | core/parser.py:31-34 | `re.search`: no earlier start has a match, the match found has a season group, and its title is the shortest from its start. No match means no start has one. |
| Patterns.SeMatch | core/parser.py:31-34 | A SxxExx match always captures a season. Its title starts at the leftmost position that has a match and is the shortest from there. No match means no start has one. |
| Patterns.SeMatchFirst | core/parser.py:31-34 | When the first `[\s.]SxxEyy` lies at e with no newline before it, the match is the title 0..e with its groups. |
| Patterns.NoSeNoSeMatch | core/parser.py:32 | A filename without whitespace or `.` in front of an `s` never matches SxxExx. |
| Patterns.FindClose | core/parser.py:40 | The first `]` at or after a position, or the end. |
| Patterns.BracketEpisode | core/parser.py:40 | `\[(\d{1,3})\]` at a position. No match means no such episode field there. |
| Patterns.MarkerThenEpisode | core/parser.py:40 | A season field whose whole content is one of the four marker forms, followed by the episode field. No match means no marker field there is followed by an episode field. |
| Patterns.BracketFields | core/parser.py:40 | After the title field, the optional season field is tried first, then the episode field alone. No match means neither layout follows. |
| Patterns.BracketLayoutFirst | core/parser.py:40 | `^\[[^\]]+\]\[[^\]]+\]` can only close its fields at the first `]` of each. |
| Patterns.BracketsMatch | core/parser.py:39-42 | The match starts with `[`. The title field is the one right after the first `]`, which must be followed by `[`. There is never a `season` group. A `season_raw` field holds a season marker. The episode has 1–3 digits. No match means no layout is followed by the fields. |
| Patterns.BracketsMatchAt | core/parser.py:39-42 | With the layout and its fields present, the match is exactly those groups. |
| Patterns.ExtensionEndsFilename | core/parser.py:46 | A version tag and extension at a position put `.mp4`/`.mkv` at the end of the filename. |
| Patterns.SimpleShapeGreedy | core/parser.py:46 | Only the greedy whitespace and digit runs (at most three digits) can be followed by the version tag and extension. |
| Patterns.SimpleTail | core/parser.py:46 | Whitespace, 1–3 episode digits, an optional version tag and `.mp4` or `.mkv` at the end, after the title. No match means no such tail from that position. |
| Patterns.SimpleTitle | core/parser.py:46 | The lazy title: the first end, without a newline, at which the tail matches. No match means no end up to the next newline has one. |
| Patterns.SimpleSearch | core/parser.py:46 | `re.search`: no earlier start has a title with a tail, and the title found is the shortest from its start. No match means no start has one. |
| Patterns.SimpleMatch | core/parser.py:45-48 | A simple match has neither season group. Its title starts at the leftmost position that has a match and is the shortest from there. No match means no start has one. |
| SeasonText.FirstDigitRun | core/parser.py:87-89 | The first maximal digit run exists iff some digit does. No digit comes before it and none right after it. |
| SeasonText.SeasonWordAt | core/parser.py:52 | `season` or `part`, optional whitespace and 1–2 digits at a position, with the digit run taken greedily. No match means the alternative cannot match there. |
| SeasonText.SeasonLetterAt | core/parser.py:52 | `S(\d{1,2})\b` at a position: a match exists iff this shape exists, and it is that shape. |
| SeasonText.OrdinalSeasonAt | core/parser.py:52 | 1–2 digits, `nd`, `rd` or `th`, whitespace and `season` at a position: a match exists iff this shape exists, and its group is the digits. |
| SeasonText.SeasonMatchAt | core/parser.py:52 | The three alternatives in order: the group of the first one that matches is set and the others are unset, and every earlier alternative cannot match. No match means none of them can. |
| SeasonText.SeasonSearch | core/parser.py:116 | The leftmost start with a match. No earlier start matches, and no match means no start matches. |
| SeasonText.SeasonSearchFirst | core/parser.py:116 | When k is the first start from i with a match, the search from i reports exactly that start and its groups. |
| SeasonText.FirstNonEmptyGroup | core/parser.py:122-124 | The value of the first set group (at most 99). There is none iff every group is unset. |
| SeasonText.ExtractSeasonFromText | core/parser.py:113-125 | None iff the pattern matches nowhere in the text. Otherwise the value of the group set by the leftmost match, at most 99. |
| SeasonText.NoDigitsNoSeason | core/parser.py:113-125 | A text without digits gives no season. |
| TitleClean.LazyClose | core/parser.py:130 | The first `]` from a position, unless a newline comes before it. |
| TitleClean.StripGroupTag | core/parser.py:130 | The result is a suffix of the text. Something is removed iff the text starts with `[` and a `]` follows before any newline. The removed part runs to the first `]` and the whitespace after it, and the result does not start with whitespace. |
| TitleClean.SeasonWordEnd | core/parser.py:56 | `season` or `part`, then optional whitespace and digits, at a position: a match iff the word is there, ending after all the whitespace and digits that follow. |
| TitleClean.OrdinalLength | core/parser.py:56 | The length of `2nd`, `3rd`, `4th`, `final` or `first` at a position, or 0. Any ordinal there has this length. |
| TitleClean.SeasonPhraseAt | core/parser.py:56 | A season phrase match at a position starts with whitespace and is non-empty. |
| TitleClean.SeasonPhraseSound | core/parser.py:56 | A reported match end is an end at which `re_clean_season` matches there. |
| TitleClean.SeasonPhraseComplete | core/parser.py:56 | Whenever `re_clean_season` matches at a position, the reported end is that match's end. |
| TitleClean.SeasonPhraseNeeds | core/parser.py:56 | A match needs whitespace at its start and an ordinal, `season`, `part` or `S` where the whitespace stops. |
| TitleClean.YearAt | core/parser.py:136 | `\s\(\d{4}\)` at a position: seven characters, four of them digits. No match means the shape is not there. |
| TitleClean.MatchAt | core/parser.py:133-136 | A match of either removal pattern is non-empty and inside the text. |
| TitleClean.MatchAtPattern | core/parser.py:133-136 | The season removal matches exactly where `re_clean_season` does, with the same end. The year removal matches iff the seven-character shape is there. |
| TitleClean.NoRemovalAt | core/parser.py:133-136 | A position with no whitespace before a phrase start and no `(` after it starts no removal. |
| TitleClean.SubAll | core/parser.py:133-136 | `re.sub(p, '', t)` from a position is no longer than what it scans. |
| TitleClean.SubAllKeeps | core/parser.py:133-136 | `re.sub(p, '', t)` keeps characters of t in increasing position order, and no match starts at a kept position. |
| TitleClean.SubAllDrops | core/parser.py:133-136 | Every dropped position lies inside a match that starts at a dropped position. |
| TitleClean.SubAllWithoutMatches | core/parser.py:133-136 | With no match anywhere, nothing is removed. |
| TitleClean.SubAllKeepsRun | core/parser.py:133-136 | A stretch where no match starts is kept verbatim, ahead of whatever the scan leaves after it. |
| TitleClean.Removed | core/parser.py:130-136 | The year removal of the season-phrase removal of the text without its group tag, in that order. It never lengthens the text. A text with no group tag and no match of either pattern is unchanged. |
| TitleClean.RemoveSpaceChars | core/parser.py:141 | `replace(' ', '')`: the characters of the text other than space, and no space. |
| TitleClean.AsciiSegmentIff | core/parser.py:141 | The ASCII test on the stripped, space-free segment holds iff every character of the segment is ASCII. |
| TitleClean.PickSegment | core/parser.py:139-144 | With a `_`, the result has none. Without one, the text is unchanged. |
| TitleClean.PickSegmentChoice | core/parser.py:139-144 | The segment after the last `_` is kept when it is ASCII (an empty one counts). Otherwise it is the segment before the first `_`. |
| TitleClean.PickSegmentAt | core/parser.py:139-144 | With the last `_` at k: an ASCII tail after it is the result, and a non-ASCII tail gives the text before k when no other `_` precedes it. |
| TitleClean.StripSegment | core/parser.py:139-146 | The stripped segment that the underscore rule picks. It has no whitespace at either end, and no `_` when the text had one. |
| TitleClean.CleanTitle | core/parser.py:127-146 | The stripped segment the underscore rule picks from the text after the group-tag, season-phrase and year removals, in that order. No whitespace at either end. |
| TitleClean.CleanTitleUnchanged | core/parser.py:127-146 | A stripped title with no tag, no removal match and no `_` is left as it is. |
| TitleClean.CleanTitleSegments | core/parser.py:127-146 | On a title with nothing to remove and its last `_` at k: the stripped ASCII tail after k, or the stripped text before k when the tail is not ASCII. |
| ParserExamples.FrierenExample | core/parser.py:58-111 | `Frieren.S01E28` parses to title `Frieren`, season 1, episode 28. |
| ParserExamples.SpyFamilyExample | core/parser.py:58-111 | `[Group][Spy x Family][S2][05]` parses to title `Spy x Family`, season 2, episode 5. |
| ParserExamples.MushokuExample | core/parser.py:58-111 | `[Group] Mushoku Tensei - S2 - 12v2` parses to title `Mushoku Tensei`, season 2, episode 12. |
| ParserExamples.OnePieceExample | core/parser.py:58-111 | `[Group] One Piece Season 3 (2025) - 1089` parses to title `One Piece`, season 3, episode 1089: the dash pattern captures no season, so the default 1 is replaced by the season mined from the title (lines 93-96), and the cleaner removes ` Season 3` and ` (2025)`. |
| ParserExamples.BilingualAsciiLast | core/parser.py:138-146 | `进击的巨人_Attack on Titan` cleans to `Attack on Titan`: the ASCII half after the `_`. |
| ParserExamples.BilingualNativeLast | core/parser.py:138-146 | `Attack on Titan_进击的巨人` cleans to `Attack on Titan`: the half before the `_`, because the half after it is not ASCII. |
| Text.Strip | core/parser.py:74 | `strip()`: the slice between the leading and trailing whitespace runs. No whitespace at either end. Empty iff the text is all whitespace. |
| Text.StripIdempotent | core/linker.py:76 | Stripping twice is stripping once. |
| Text.Split | core/parser.py:140 | `split(sep)`: at least one piece, none containing the separator, and joining them with it gives the text back. |
| Text.SplitJoin | utils/config.py:69 | Splitting undoes joining with a one-character separator that no piece contains. |
| Text.SplitAtFirst | utils/config.py:69 | The piece before the first separator, then the pieces of the rest. |
| Text.SplitFirstPiece | core/parser.py:140 | With several pieces, the first is the text before the first separator. |
| Text.SplitLastPiece | core/parser.py:140 | With several pieces, the last is the text after the last separator. |
| Text.DecimalString | core/linker.py:40 | `str(n)`: digits with value n and no leading zero. |
| Text.DecimalStringOfValue | core/linker.py:40 | A digit string without leading zeros is `str` of its value. |
| Linker.ReplaceForbidden | core/linker.py:76 | The nine `replace` calls: no forbidden character is left, a clean text is unchanged, `: / \` become a space and `?`, `"`, `*`, `<`, `>` and the vertical bar vanish. |
| Linker.ReplaceForbiddenConcat | core/linker.py:76 | The replacements act on the two halves of a concatenation separately. |
| Linker.Sanitize | core/linker.py:75-76 | `_sanitize`: the nine replacements, then `strip()`. No forbidden character and no whitespace at either end. On a clean text it is `strip()`. |
| Linker.SanitizeIdempotent | core/linker.py:76 | Sanitizing twice is sanitizing once. |
| Linker.Pad2 | core/linker.py:33 | `f"{n:02d}"`: exactly two digits with value n for 0 ≤ n ≤ 9, plain digits from 10 on, sign then digits below 0. |
| Linker.Pad2Injective | core/linker.py:40 | Distinct numbers give distinct padded texts. |
| Linker.SeriesName | core/linker.py:27 | The TMDB name when it is given and non-empty, else the parsed title. |
| Linker.SeasonFolder | core/linker.py:33 | `Season ` followed by the padded season, with no `/`. |
| Linker.EpisodeTag | core/linker.py:40 | Exactly ` - S`, the padded season, `E` and the padded episode. The tag is clean. |
| Linker.NewFileName | core/linker.py:40-41 | `_sanitize` of `<title> - SxxEyy<ext>`. The replacements act on the title and extension only, as the tag is clean. The result is clean and never empty or `.`. |
| Linker.TagSurvives | core/linker.py:40-41 | The `S` of the tag survives sanitizing. |
| Linker.JoinPath | core/linker.py:45-47 | `base / name`: an empty or `.` name leaves the path unchanged, any other name is appended. |
| Linker.SeriesDir | core/linker.py:45 | `root / series`: the root itself when the sanitized series name is empty or `.`, else the root with that name appended. |
| Linker.SeasonDir | core/linker.py:45-46 | Exactly the series directory with the season folder appended. |
| Linker.TargetPath | core/linker.py:45-47 | The season directory plus the new file name. For a series name that is non-empty and not `.`, it is exactly `root / series / Season NN / file`. |
| Linker.LastDot | core/linker.py:60 | `rfind('.')` in a prefix. |
| Linker.Stem | core/linker.py:60 | `Path.stem`: a name whose last `.` is neither its first nor its last character loses that `.` and what follows. A name without an inner `.` is its own stem. |
| Linker.Prefixes | core/linker.py:52 | `mkdir(parents=True)` creates exactly the non-empty leading parts of the path. |
| Linker.RunOutcome | core/linker.py:23-73 | The five outcomes of `run`, each iff its condition: disabled; directory creation failed; target already exists; linked; link failed. |
| Linker.FileSystem.MakeDirs | core/linker.py:52 | On success every leading part of the path exists afterwards; on failure nothing changes. |
| Linker.FileSystem.Link | core/linker.py:64 | On success the target exists afterwards; on failure nothing changes. |
| Linker.FileLinker.constructor | core/linker.py:8-16 | An enabled linker creates its missing root when the disk allows it. A failure is ignored. |
| Linker.FileLinker.Place | core/linker.py:49-73 | Make the directory when it is missing, then link unless the target exists. The outcome is `RunOutcome`. The video moves to the target (stem as filename) iff the target exists or was linked, and is untouched otherwise. The filesystem gains exactly the new directories and link. |
| Linker.FileLinker.Run | core/linker.py:18-73 | The same video object is returned. A disabled linker changes nothing. When moved, the video's path is `TargetPath` and its filename the stem of the new file name. The filesystem gains exactly what the steps made. |
| Types.VideoFile.constructor | core/types.py:4-10 | A video with the given path, name and extension. |
| Mapping.Lookup | core/mapping.py:33-41 | A missing or `null` entry reads as `{}`, a legacy id n as `{"id": n}` and a record as itself. |
| Mapping.Merge | core/mapping.py:47-52 | Each given argument is stored under its key, and every other key keeps its value. The key set grows by exactly the given keys. |
| Mapping.Updated | core/mapping.py:43-54 | The table gains the filename, every other entry is unchanged, and the entry is the record read by `get_data` with the given arguments merged in. A key whose argument is not given keeps its value. |
| Mapping.MappingManager.constructor | core/mapping.py:12-15 | The table starts as the loaded map. |
| Mapping.MappingManager.GetData | core/mapping.py:33-41 | A missing or `null` entry reads as `{}`, a legacy id n as `{"id": n}` and a record as itself. |
| Mapping.MappingManager.Update | core/mapping.py:43-54 | The new table is `Updated` of the old one: the merged record is stored under the filename and the rest of the table is unchanged. |
| Mapping.UpdateThenLookup | core/mapping.py:45-54 | After an update, reading the entry gives each given argument under its key. Each of `id`, `season` and `episode` without an argument is present iff it was before. Every key whose argument is not given keeps its value, and no other key appears. |
| Mapping.UpdateLeavesOthers | core/mapping.py:54 | Other filenames read the same before and after. |
| Mapping.UpdateNormalises | core/mapping.py:45-54 | An update with no arguments rewrites a legacy id n as `{"id": n}`, stores `{}` for an unknown filename and leaves a record table unchanged. |
| Mapping.UpdateIdempotent | core/mapping.py:47-54 | The same update applied twice leaves the table it leaves once. |
| Config.KeepStripped | utils/config.py:69 | The comprehension: no more elements than pieces, each non-empty and trimmed. A single piece gives its stripped form, or nothing when it is blank. |
| Config.KeepStrippedSources | utils/config.py:69 | Every element is the stripped form of some piece. |
| Config.KeepStrippedKeeps | utils/config.py:69 | Every piece that is not blank gives its stripped form as an element. |
| Config.KeepStrippedConcat | utils/config.py:69 | The comprehension keeps piece order: it acts on the halves of a concatenation separately. |
| Config.GetList | utils/config.py:66-69 | An error iff the delimiter is empty. Every element is non-empty, trimmed and free of the delimiter. A missing option gives `[]`. |
| Config.NoDelimiterInElements | utils/config.py:69 | Stripped pieces without the delimiter stay without it. |
| Config.GetListFirstPiece | utils/config.py:69 | The elements come in piece order: the stripped first piece (when not blank), then the elements of the rest. |
| Config.GetListOfJoin | utils/config.py:69 | `get_list` of pieces joined with a one-character delimiter is the stripped, non-blank pieces in order. |
| Config.CommaSpaceList | utils/config.py:69 | Trimmed, comma-free items written with `", "` read back as those items. |
| Config.DefaultVideoExtensionsList | utils/config.py:16 | The default `video_extensions` value gives `.mp4, .mkv, .avi, .wmv, .iso`, in order. |

Some pieces of the patterns are predicates that the contracts above are written with, and
have no row of their own:

- `Patterns.IsSeasonMarker`: the four forms of the `season_raw` field (core/parser.py:40).
- `Patterns.DashStop`: the stop after the dash episode, `(?:\s|\[|\(|$)` (core/parser.py:26).
- `Patterns.VersionThenStop`: the optional version tag `(?:v\d)?`, then that stop (core/parser.py:26).

## Left out

- Character classes: `\s`, `strip()`, `\d`, `\w`, `IGNORECASE` and `str.isspace` are restricted to ASCII, whereas Python applies them to all of Unicode. Characters are single code points, with no normalisation.
- Floating point: `float(episode)` then `int(...)` is modelled as the value of the digits before the dot. This is exact for the `\d{1,4}(\.\d)?` capture.
- Parser.Parse: the episode is always captured once a strategy matches, so the `0.0` fallback at core/parser.py:100 is never reached and is not modelled.
- `_load`, `save` and the logging calls in core/mapping.py and core/linker.py are file I/O and logging, and are not modelled. The table starts from a map given as a parameter.
- Aliasing in `update`: the model works on a copy. In the source, the dict returned by `get_data` is the stored record itself (core/mapping.py:41), but it is stored back under the same key, so the resulting table is the same.
- JSON values other than integers, records of integers and `null` are not modelled, nor is a `bool` passing as an `int`.
- The real filesystem is not modelled:
  - `exists`, `mkdir` and `os.link` act on a set of paths, and their success is an argument.
  - A failed `mkdir` leaves nothing behind, although a real one may have created some parents.
  - Only a single level of component joining is modelled, with `pathlib`'s dropping of empty and `.` components.
- `VideoFile.size_mb` and `__repr__` are not modelled. Nothing in the core reads them.
- `get_list` with a `None` delimiter (split on whitespace runs) is not modelled. The callers always pass a string.
- The rest of the repository (scanner, monitor, scraper, saver, seasonal, server, main, logger and the rest of `ConfigManager`) is not part of this model.

## Behaviour of the code worth knowing

- **Season 0.** The season can be 0. A filename such as `Show.S00E05` captures season 0, and title mining runs only when the season is exactly 1 (core/parser.py:81, 93).
- **Episode fallback.** Every strategy captures an episode, so the `0.0` fallback at core/parser.py:100 is never taken.
- **Simple strategy extension.** The simple strategy matches only filenames ending in `.mp4`/`.mkv` (core/parser.py:46), whatever the caller passes.
- **Empty titles.** The cleaned title can be empty. For example, `Foo_` keeps the empty ASCII segment after the `_`.
- **Single-pass removal.** `re.sub` scans once, so a season phrase formed by joining the text around a removed one stays in the title. What is proved is that no match starts at a kept position of the text it scanned.
