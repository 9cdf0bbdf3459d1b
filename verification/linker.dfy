/**
 * `FileLinker` (core/linker.py): the library path a parsed video is
 * hard-linked to, `<root>/<series>/Season NN/<title> - SxxEyy<ext>`, and how
 * `run` updates the video after the directory and link steps.
 *
 * The filesystem is a set of existing paths. Whether `mkdir` and `os.link`
 * succeed is an argument of the operation, as the model does not see the disk.
 */
module Linker {
  import opened Chars
  import opened Text
  import opened Wrappers
  import opened Types

  // ---------------------------------------------------------------------------
  // _sanitize (core/linker.py:75-76)
  // ---------------------------------------------------------------------------

  /** The characters `_sanitize` turns into a space. */
  predicate Blanked(c: char) {
    c == ':' || c == '/' || c == '\\'
  }

  /** The characters `_sanitize` deletes. */
  predicate Deleted(c: char) {
    c == '?' || c == '"' || c == '*' || c == '<' || c == '>' || c == '|'
  }

  predicate Forbidden(c: char) {
    Blanked(c) || Deleted(c)
  }

  /** s holds none of the characters `_sanitize` removes. */
  predicate Clean(s: string) {
    forall k :: 0 <= k < |s| ==> !Forbidden(s[k])
  }

  lemma CleanConcat(a: string, b: string)
    requires Clean(a) && Clean(b)
    ensures Clean(a + b)
  {
    forall k | 0 <= k < |a + b|
      ensures !Forbidden((a + b)[k])
    {
      if k < |a| {
        assert (a + b)[k] == a[k];
      } else {
        assert (a + b)[k] == b[k - |a|];
      }
    }
  }

  /** The nine `replace` calls. Each replaces one character by a space or by nothing,
      and neither creates a character a later call looks for, so together they act
      on each character of s independently. */
  function ReplaceForbidden(s: string): (r: string)
    ensures |r| <= |s|
    ensures Clean(r)
    ensures Clean(s) ==> r == s
    ensures |s| == 1 && Blanked(s[0]) ==> r == " "
    ensures |s| == 1 && Deleted(s[0]) ==> r == ""
  {
    if s == [] then []
    else
      var rest := ReplaceForbidden(s[1..]);
      assert forall k :: 1 <= k < |s| ==> s[k] == s[1..][k - 1];
      if Blanked(s[0]) then [' '] + rest
      else if Deleted(s[0]) then rest
      else [s[0]] + rest
  }

  /** What a single character becomes. */
  function Replacement(c: char): string {
    if Blanked(c) then " " else if Deleted(c) then "" else [c]
  }

  lemma ReplaceForbiddenCons(s: string)
    requires s != []
    ensures ReplaceForbidden(s) == Replacement(s[0]) + ReplaceForbidden(s[1..])
  {
  }

  /** The replacements act on the two halves of a concatenation separately. */
  lemma {:induction false} ReplaceForbiddenConcat(a: string, b: string)
    ensures ReplaceForbidden(a + b) == ReplaceForbidden(a) + ReplaceForbidden(b)
    decreases |a|
  {
    if a == [] {
      assert a + b == b;
    } else {
      var ab := a + b;
      assert ab[0] == a[0] && ab[1..] == a[1..] + b;
      ReplaceForbiddenConcat(a[1..], b);
      ReplaceForbiddenCons(a);
      ReplaceForbiddenCons(ab);
      var head := Replacement(a[0]);
      assert head + (ReplaceForbidden(a[1..]) + ReplaceForbidden(b))
        == (head + ReplaceForbidden(a[1..])) + ReplaceForbidden(b);
    }
  }

  lemma CleanConcat3(a: string, b: string, c: string)
    ensures Clean(a) && Clean(b) && Clean(c) ==> Clean(a + b + c)
  {
    if Clean(a) && Clean(b) && Clean(c) {
      CleanConcat(a, b);
      CleanConcat(a + b, c);
    }
  }

  /** `_sanitize(s)`: the replacements, then `strip()`. */
  function Sanitize(s: string): (r: string)
    ensures Clean(r)
    ensures NoOuterSpace(r)
    ensures Clean(s) ==> r == Strip(s)
    ensures r == Strip(ReplaceForbidden(s))
  {
    var replaced := ReplaceForbidden(s);
    StripClean(replaced);
    Strip(replaced)
  }

  /** `strip()` keeps a slice, so it adds no character. */
  lemma StripClean(s: string)
    requires Clean(s)
    ensures Clean(Strip(s))
  {
    var r := Strip(s);
    var a := SkipSpaces(s, 0);
    forall k | 0 <= k < |r|
      ensures !Forbidden(r[k])
    {
      assert r[k] == s[a + k];
    }
  }

  /** A sanitized name is a fixed point: sanitizing it again changes nothing. */
  lemma SanitizeIdempotent(s: string)
    ensures Sanitize(Sanitize(s)) == Sanitize(s)
  {
    StripIdempotent(ReplaceForbidden(s));
  }

  // ---------------------------------------------------------------------------
  // Names and paths (core/linker.py:27-47)
  // ---------------------------------------------------------------------------

  /** `f"{n:02d}"`: the decimal digits of n with leading zeros up to two digits;
      a negative number is its sign followed by its digits. */
  function Pad2(n: int): (r: string)
    ensures n >= 0 ==> 2 <= |r| && AllDigits(r) && Value(r) == n
    ensures 0 <= n < 10 ==> |r| == 2
    ensures n >= 10 ==> r == DecimalString(n)
    ensures n < 0 ==> r == "-" + DecimalString(-n)
    ensures Clean(r)
  {
    if n < 0 then "-" + DecimalString(-n)
    else if n < 10 then
      var d := DecimalString(n);
      assert d == [DigitChar(n)];
      var r := "0" + d;
      assert r[..|r| - 1] == "0";
      r
    else DecimalString(n)
  }

  /** Padding loses nothing: the number can be read back, so distinct seasons and
      episodes give distinct names. */
  lemma Pad2Injective(a: int, b: int)
    requires Pad2(a) == Pad2(b)
    ensures a == b
  {
    if a < 0 && b < 0 {
      assert DecimalString(-a) == Pad2(a)[1..];
    }
  }

  /** Line 27: the TMDB name when there is a non-empty one, else the parsed title. */
  function SeriesName(title: string, tmdbName: Option<string>): (r: string)
    ensures tmdbName.Some? && tmdbName.value != [] ==> r == tmdbName.value
    ensures (tmdbName.None? || tmdbName.value == []) ==> r == title
  {
    if tmdbName.Some? && tmdbName.value != [] then tmdbName.value else title
  }

  /** Line 33: `Season NN`. */
  function SeasonFolder(season: int): (r: string)
    ensures |r| >= 9 && r[..7] == "Season " && r[7..] == Pad2(season)
    ensures '/' !in r
  {
    var head := "Season ";
    assert Clean(head) by {
      assert forall k :: 0 <= k < 7 ==> head[k] in {'S', 'e', 'a', 's', 'o', 'n', ' '};
    }
    CleanConcat(head, Pad2(season));
    head + Pad2(season)
  }

  /** The ` - SxxEyy` between the title and the extension. */
  function EpisodeTag(season: int, episode: int): (m: string)
    ensures |m| >= 4 && m[..4] == " - S"
    ensures m == " - S" + Pad2(season) + "E" + Pad2(episode)
    ensures Clean(m)
  {
    var head := " - S";
    assert Clean(head) by {
      assert forall k :: 0 <= k < 4 ==> head[k] in {' ', '-', 'S'};
    }
    CleanConcat(head, Pad2(season));
    CleanConcat(head + Pad2(season), "E");
    CleanConcat(head + Pad2(season) + "E", Pad2(episode));
    var m := head + Pad2(season) + "E" + Pad2(episode);
    assert m[..4] == head;
    m
  }

  /** Lines 40-41: `<title> - SxxEyy<ext>`, sanitized. */
  function NewFileName(meta: AnimeMeta, extension: string): (r: string)
    ensures Clean(r)
    ensures r != [] && r != "."
    ensures Clean(meta.title) && Clean(extension) ==>
      r == Strip(meta.title + EpisodeTag(meta.season, meta.episode) + extension)
    ensures r == Sanitize(meta.title + EpisodeTag(meta.season, meta.episode) + extension)
    ensures r == Strip(ReplaceForbidden(meta.title) + EpisodeTag(meta.season, meta.episode) + ReplaceForbidden(extension))
  {
    var raw := meta.title + EpisodeTag(meta.season, meta.episode) + extension;
    ReplaceAroundClean(meta.title, EpisodeTag(meta.season, meta.episode), extension);
    CleanConcat3(meta.title, EpisodeTag(meta.season, meta.episode), extension);
    TagSurvives(meta.title, EpisodeTag(meta.season, meta.episode), extension);
    Sanitize(raw)
  }

  /** A clean text between two others passes the replacements unchanged. */
  lemma ReplaceAroundClean(x: string, tag: string, y: string)
    requires Clean(tag)
    ensures ReplaceForbidden(x + tag + y) == ReplaceForbidden(x) + tag + ReplaceForbidden(y)
  {
    ReplaceForbiddenConcat(x + tag, y);
    ReplaceForbiddenConcat(x, tag);
  }

  lemma TagHoldsS(x: string, tag: string, y: string)
    requires |tag| >= 4 && tag[..4] == " - S"
    ensures 'S' in x + tag + y
  {
    assert tag[3] == tag[..4][3] == 'S';
    assert (x + tag + y)[|x| + 3] == tag[3];
  }

  /** The `S` of the tag survives the replacements, as the tag is clean. */
  lemma TagReplaced(title: string, tag: string, extension: string)
    requires |tag| >= 4 && tag[..4] == " - S" && Clean(tag)
    ensures 'S' in ReplaceForbidden(title + tag + extension)
  {
    ReplaceAroundClean(title, tag, extension);
    TagHoldsS(ReplaceForbidden(title), tag, ReplaceForbidden(extension));
  }

  /** The `S` of the tag survives sanitizing, so a new file name is never empty. */
  lemma TagSurvives(title: string, tag: string, extension: string)
    requires |tag| >= 4 && tag[..4] == " - S"
    requires Clean(tag)
    ensures 'S' in Sanitize(title + tag + extension)
  {
    TagReplaced(title, tag, extension);
    StripKeepsNonSpace(ReplaceForbidden(title + tag + extension), 'S');
  }

  /** `strip()` only removes whitespace. */
  lemma StripKeepsNonSpace(s: string, c: char)
    requires c in s && !IsSpace(c)
    ensures c in Strip(s)
  {
    var k :| 0 <= k < |s| && s[k] == c;
    var r := Strip(s);
    var a := SkipSpaces(s, 0);
    assert a <= k < a + |r|;
    assert r[k - a] == c;
  }

  /** `base / name` for a name without `/`: pathlib drops an empty or `.` component. */
  function JoinPath(base: Path, name: string): (r: Path)
    requires '/' !in name
    ensures name == [] || name == "." ==> r == base
    ensures name != [] && name != "." ==> r == base + [name]
  {
    if name == [] || name == "." then base else base + [name]
  }

  /** Line 45: `target_root / clean_series_name`. */
  function SeriesDir(root: Path, meta: AnimeMeta, tmdbName: Option<string>): (r: Path)
    ensures var series := Sanitize(SeriesName(meta.title, tmdbName));
      && (series == [] || series == "." ==> r == root)
      && (series != [] && series != "." ==> r == root + [series])
  {
    var series := Sanitize(SeriesName(meta.title, tmdbName));
    JoinPath(root, series)
  }

  /** Line 46: `series_dir / season_folder_name`. */
  function SeasonDir(root: Path, meta: AnimeMeta, tmdbName: Option<string>): (r: Path)
    ensures |r| >= 1 && r[|r| - 1] == SeasonFolder(meta.season)
    ensures r == SeriesDir(root, meta, tmdbName) + [SeasonFolder(meta.season)]
  {
    JoinPath(SeriesDir(root, meta, tmdbName), SeasonFolder(meta.season))
  }

  /** Line 47: `season_dir / new_filename`. */
  function TargetPath(root: Path, meta: AnimeMeta, tmdbName: Option<string>, extension: string): (r: Path)
    ensures r == SeasonDir(root, meta, tmdbName) + [NewFileName(meta, extension)]
    ensures var series := Sanitize(SeriesName(meta.title, tmdbName));
      series != [] && series != "." ==>
        r == root + [series, SeasonFolder(meta.season), NewFileName(meta, extension)]
  {
    var name := NewFileName(meta, extension);
    var series := Sanitize(SeriesName(meta.title, tmdbName));
    var folder := SeasonFolder(meta.season);
    ThreeLevels(root, series, folder, name);
    JoinPath(SeasonDir(root, meta, tmdbName), name)
  }

  /** Joining a non-empty series name, the season folder and the file name nests them. */
  lemma ThreeLevels(root: Path, series: string, folder: string, name: string)
    requires '/' !in series && '/' !in folder && '/' !in name
    requires folder != [] && folder != "." && name != [] && name != "."
    ensures series != [] && series != "." ==>
      JoinPath(JoinPath(JoinPath(root, series), folder), name) == root + [series, folder, name]
  {
  }

  /** `PurePath.stem` of a file name: the name without its last suffix. A suffix needs
      a non-empty stem before the dot and at least one character after it. */
  function Stem(name: string): (r: string)
    ensures |r| <= |name| && r == name[..|r|]
    ensures r != name ==>
      && 0 < |r| < |name| - 1 && name[|r|] == '.'
      && forall k :: |r| < k < |name| ==> name[k] != '.'
    ensures (forall k :: 0 < k < |name| - 1 ==> name[k] != '.') ==> r == name
    ensures forall i :: 0 < i < |name| - 1 && name[i] == '.' && (forall k :: i < k < |name| ==> name[k] != '.') ==>
      r == name[..i]
  {
    match LastDot(name, |name|)
    case Some(i) => if 0 < i < |name| - 1 then name[..i] else name
    case None => name
  }

  /** `name.rfind('.')` within name[..hi], with None for -1. */
  function LastDot(name: string, hi: nat): (r: Option<nat>)
    requires hi <= |name|
    ensures r.Some? ==> r.value < hi && name[r.value] == '.'
    ensures r.Some? ==> forall k :: r.value < k < hi ==> name[k] != '.'
    ensures r.None? ==> forall k :: 0 <= k < hi ==> name[k] != '.'
    decreases hi
  {
    if hi == 0 then None
    else if name[hi - 1] == '.' then Some(hi - 1)
    else LastDot(name, hi - 1)
  }

  // ---------------------------------------------------------------------------
  // The filesystem and run (core/linker.py:8-16, 18-73)
  // ---------------------------------------------------------------------------

  /** Every non-empty leading part of p: what `mkdir(parents=True)` creates. */
  function Prefixes(p: Path): (r: set<Path>)
    ensures forall q :: q in r <==> 1 <= |q| <= |p| && q == p[..|q|]
  {
    set k | 1 <= k <= |p| :: p[..k]
  }

  /** The paths that exist. */
  class FileSystem {
    var paths: set<Path>

    constructor (paths: set<Path>)
      ensures this.paths == paths
    {
      this.paths := paths;
    }

    /** `p.mkdir(parents=True, exist_ok=True)`; `ok` says whether the disk allowed it. */
    method MakeDirs(p: Path, ok: bool) returns (success: bool)
      modifies this
      ensures success == ok
      ensures paths == if ok then old(paths) + Prefixes(p) else old(paths)
    {
      if ok {
        paths := paths + Prefixes(p);
      }
      success := ok;
    }

    /** `os.link(src, dst)`; `ok` says whether the disk allowed it. */
    method Link(src: Path, dst: Path, ok: bool) returns (success: bool)
      modifies this
      ensures success == ok
      ensures paths == if ok then old(paths) + {dst} else old(paths)
    {
      if ok {
        paths := paths + {dst};
      }
      success := ok;
    }
  }

  /** How a call of `run` ends. */
  datatype Outcome =
    | Disabled       // line 23-24: linking is switched off
    | MkdirFailed    // lines 50-55: the season directory could not be made
    | AlreadyLinked  // lines 58-61: the target exists already
    | Linked         // lines 63-69: the hard link was made
    | LinkFailed     // lines 71-73: os.link failed

  /** The outcome of `run`, from the existence checks and the two disk results. */
  function RunOutcome(enabled: bool, seasonDirExists: bool, mkdirOk: bool, targetExists: bool, linkOk: bool): (o: Outcome)
    ensures o == Disabled <==> !enabled
    ensures o == MkdirFailed <==> enabled && !seasonDirExists && !mkdirOk
    ensures o == AlreadyLinked <==> enabled && (seasonDirExists || mkdirOk) && targetExists
    ensures o == Linked <==> enabled && (seasonDirExists || mkdirOk) && !targetExists && linkOk
    ensures o == LinkFailed <==> enabled && (seasonDirExists || mkdirOk) && !targetExists && !linkOk
  {
    if !enabled then Disabled
    else if !seasonDirExists && !mkdirOk then MkdirFailed
    else if targetExists then AlreadyLinked
    else if linkOk then Linked
    else LinkFailed
  }

  /** The video is moved to the target exactly when the target exists afterwards
      because of this call or before it. */
  predicate Moved(o: Outcome) {
    o == AlreadyLinked || o == Linked
  }

  class FileLinker {
    const targetRoot: Path
    const enabled: bool

    /** Lines 8-16: an enabled linker creates its missing root directory, and a
        failure to do so is ignored. */
    constructor (targetRoot: Path, enabled: bool, fs: FileSystem, mkdirOk: bool)
      modifies fs
      ensures this.targetRoot == targetRoot && this.enabled == enabled
      ensures fs.paths ==
        if enabled && targetRoot !in old(fs.paths) && mkdirOk then old(fs.paths) + Prefixes(targetRoot)
        else old(fs.paths)
    {
      this.targetRoot := targetRoot;
      this.enabled := enabled;
      new;
      if enabled && targetRoot !in fs.paths {
        var _ := fs.MakeDirs(targetRoot, mkdirOk);
      }
    }

    /** Lines 49-73 of `run`, once the season directory and the target are known:
        make the directory when it is missing, then link unless the target exists. */
    method Place(video: VideoFile, seasonDir: Path, target: Path, fs: FileSystem, mkdirOk: bool, linkOk: bool)
        returns (outcome: Outcome)
      requires enabled && |target| >= 1 && target !in Prefixes(seasonDir)
      modifies video, fs
      ensures video.extension == old(video.extension)
      ensures outcome == RunOutcome(enabled, seasonDir in old(fs.paths), mkdirOk, target in old(fs.paths), linkOk)
      ensures Moved(outcome) ==> video.path == target && video.filename == Stem(target[|target| - 1])
      ensures !Moved(outcome) ==> video.path == old(video.path) && video.filename == old(video.filename)
      ensures fs.paths == old(fs.paths)
        + (if outcome != MkdirFailed && seasonDir !in old(fs.paths) then Prefixes(seasonDir) else {})
        + (if outcome == Linked then {target} else {})
    {
      if seasonDir !in fs.paths {
        var made := fs.MakeDirs(seasonDir, mkdirOk);
        if !made {
          outcome := MkdirFailed;
          return;
        }
      }
      if target in fs.paths {
        video.path := target;
        video.filename := Stem(target[|target| - 1]);
        outcome := AlreadyLinked;
        return;
      }
      var linked := fs.Link(video.path, target, linkOk);
      if linked {
        video.path := target;
        video.filename := Stem(target[|target| - 1]);
        outcome := Linked;
      } else {
        outcome := LinkFailed;
      }
    }

    /** `run(video, meta, tmdb_name)`: link the video into the library and, when the
        target exists afterwards, point the video at it. */
    method Run(video: VideoFile, meta: AnimeMeta, tmdbName: Option<string>, fs: FileSystem, mkdirOk: bool, linkOk: bool)
        returns (result: VideoFile, outcome: Outcome)
      modifies video, fs
      ensures result == video && video.extension == old(video.extension)
      ensures outcome == RunOutcome(enabled, SeasonDir(targetRoot, meta, tmdbName) in old(fs.paths), mkdirOk,
                                    TargetPath(targetRoot, meta, tmdbName, video.extension) in old(fs.paths), linkOk)
      ensures Moved(outcome) ==> video.path == TargetPath(targetRoot, meta, tmdbName, video.extension)
      ensures Moved(outcome) ==> video.filename == Stem(NewFileName(meta, video.extension))
      ensures !Moved(outcome) ==> video.path == old(video.path) && video.filename == old(video.filename)
      ensures fs.paths == old(fs.paths)
        + (if outcome != Disabled && outcome != MkdirFailed && SeasonDir(targetRoot, meta, tmdbName) !in old(fs.paths)
           then Prefixes(SeasonDir(targetRoot, meta, tmdbName)) else {})
        + (if outcome == Linked then {TargetPath(targetRoot, meta, tmdbName, video.extension)} else {})
    {
      result := video;
      var seasonDir := SeasonDir(targetRoot, meta, tmdbName);
      var name := NewFileName(meta, video.extension);
      var target := TargetPath(targetRoot, meta, tmdbName, video.extension);
      if !enabled {
        outcome := Disabled;
        return;
      }
      assert target == seasonDir + [name];
      assert target !in Prefixes(seasonDir);
      outcome := Place(video, seasonDir, target, fs, mkdirOk, linkOk);
    }
  }
}
