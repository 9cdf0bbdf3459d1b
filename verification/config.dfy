/**
 * `ConfigManager.get_list` (utils/config.py:66-69): a list-valued option is its
 * raw string cut at the delimiter, each piece stripped, empty pieces dropped.
 * The raw value is a parameter: None when the option is missing.
 */
module Config {
  import opened Chars
  import opened Text
  import opened Wrappers

  /** A list element: not empty, and no whitespace at either end. */
  predicate Trimmed(x: string) {
    x != [] && !IsSpace(x[0]) && !IsSpace(x[|x| - 1])
  }

  /** `[x.strip() for x in parts if x.strip()]` */
  function KeepStripped(parts: seq<string>): (r: seq<string>)
    ensures |r| <= |parts|
    ensures forall j :: 0 <= j < |r| ==> Trimmed(r[j])
    ensures |parts| == 1 ==> r == (if Strip(parts[0]) == [] then [] else [Strip(parts[0])])
  {
    if parts == [] then []
    else
      var x := Strip(parts[0]);
      if x != [] then [x] + KeepStripped(parts[1..]) else KeepStripped(parts[1..])
  }

  /** Every element is a stripped piece. */
  lemma {:induction false} KeepStrippedSources(parts: seq<string>)
    ensures forall j :: 0 <= j < |KeepStripped(parts)| ==>
      exists i :: 0 <= i < |parts| && KeepStripped(parts)[j] == Strip(parts[i])
  {
    if parts != [] {
      var rest := parts[1..];
      KeepStrippedSources(rest);
      var x := Strip(parts[0]);
      var tail := KeepStripped(rest);
      var r := KeepStripped(parts);
      assert r == if x != [] then [x] + tail else tail;
      forall j | 0 <= j < |KeepStripped(parts)|
        ensures exists i :: 0 <= i < |parts| && KeepStripped(parts)[j] == Strip(parts[i])
      {
        if x != [] && j == 0 {
          assert r[j] == Strip(parts[0]);
        } else {
          var j' := if x != [] then j - 1 else j;
          assert r[j] == tail[j'];
          PieceOfRest(parts, tail[j']);
        }
      }
    } else {
      assert KeepStripped(parts) == [];
    }
  }

  lemma PieceOfRest(parts: seq<string>, y: string)
    requires parts != [] && exists i :: 0 <= i < |parts[1..]| && y == Strip(parts[1..][i])
    ensures exists i :: 0 <= i < |parts| && y == Strip(parts[i])
  {
    var i :| 0 <= i < |parts[1..]| && y == Strip(parts[1..][i]);
    assert parts[1..][i] == parts[i + 1];
  }

  /** Every piece that is not blank gives an element. */
  lemma {:induction false} KeepStrippedKeeps(parts: seq<string>)
    ensures forall i :: 0 <= i < |parts| && Strip(parts[i]) != [] ==> Strip(parts[i]) in KeepStripped(parts)
  {
    if parts != [] {
      var rest := parts[1..];
      KeepStrippedKeeps(rest);
      var x := Strip(parts[0]);
      var tail := KeepStripped(rest);
      var r := KeepStripped(parts);
      assert r == if x != [] then [x] + tail else tail;
      forall i | 0 <= i < |parts| && Strip(parts[i]) != []
        ensures Strip(parts[i]) in KeepStripped(parts)
      {
        if i > 0 {
          assert parts[i] == rest[i - 1];
          assert Strip(parts[i]) in tail;
        }
      }
    }
  }

  /** The comprehension keeps the order of the pieces: it acts on the two halves of a
      concatenation separately. */
  lemma {:induction false} KeepStrippedConcat(a: seq<string>, b: seq<string>)
    ensures KeepStripped(a + b) == KeepStripped(a) + KeepStripped(b)
    decreases |a|
  {
    if a == [] {
      assert a + b == b;
    } else {
      assert (a + b)[0] == a[0] && (a + b)[1..] == a[1..] + b;
      KeepStrippedConcat(a[1..], b);
    }
  }

  /** `get_list(section, option, delimiter)`. `str.split` rejects an empty delimiter
      (a ValueError), which is None here. */
  function GetList(raw: Option<string>, delimiter: string): (r: Option<seq<string>>)
    ensures r.None? <==> delimiter == []
    ensures r.Some? ==> forall j :: 0 <= j < |r.value| ==> Trimmed(r.value[j])
    ensures r.Some? ==> forall j :: 0 <= j < |r.value| ==> !Contains(r.value[j], delimiter)
    ensures delimiter != [] && raw.None? ==> r == Some([])
  {
    if delimiter == [] then None
    else
      var value := if raw.Some? then raw.value else "";
      var parts := Split(value, delimiter);
      assert value == "" ==> parts == [""] by {
        if value == "" {
          assert Find(value, delimiter, 0).None?;
        }
      }
      NoDelimiterInElements(parts, delimiter);
      Some(KeepStripped(parts))
  }

  /** Pieces without the delimiter stay without it once stripped. */
  lemma {:induction false} NoDelimiterInElements(parts: seq<string>, delimiter: string)
    requires |delimiter| > 0
    requires forall p :: p in parts ==> !Contains(p, delimiter)
    ensures forall j :: 0 <= j < |KeepStripped(parts)| ==> !Contains(KeepStripped(parts)[j], delimiter)
  {
    if parts != [] {
      var rest := parts[1..];
      assert forall p :: p in rest ==> p in parts;
      NoDelimiterInElements(rest, delimiter);
      assert parts[0] in parts;
      StripKeepsAbsence(parts[0], delimiter);
      var x := Strip(parts[0]);
      if x != [] {
        var r := KeepStripped(parts);
        assert r == [x] + KeepStripped(rest);
        forall j | 0 <= j < |r|
          ensures !Contains(r[j], delimiter)
        {
          if j > 0 {
            assert r[j] == KeepStripped(rest)[j - 1];
          }
        }
      }
    }
  }

  /** The elements come in the order of their pieces: the text before the first
      delimiter gives the first element (when it is not blank), the text after it the
      rest. */
  lemma GetListFirstPiece(a: string, delimiter: string, b: string)
    requires |delimiter| > 0
    requires forall k :: 0 <= k < |a| ==> !OccursAt(a + delimiter + b, delimiter, k)
    ensures GetList(Some(a + delimiter + b), delimiter) ==
      Some((if Strip(a) != [] then [Strip(a)] else []) + GetList(Some(b), delimiter).value)
  {
    var s := a + delimiter + b;
    SplitAtFirst(a, delimiter, b);
    KeepStrippedConcat([a], Split(b, delimiter));
  }

  /** Reading back a list written with the delimiter: `get_list` of the joined pieces
      is the stripped, non-blank pieces, in order. */
  lemma GetListOfJoin(parts: seq<string>, delimiter: string)
    requires |delimiter| == 1 && |parts| >= 1
    requires forall i :: 0 <= i < |parts| ==> delimiter[0] !in parts[i]
    ensures GetList(Some(Join(parts, delimiter)), delimiter) == Some(KeepStripped(parts))
  {
    SplitJoin(parts, delimiter);
  }

  /** The leading whitespace and the item itself are the whole of one piece. */
  lemma NoCommaAfterSpaces(lead: string, x: string, b: string)
    requires AllSpaces(lead) && ',' !in x
    ensures forall k :: 0 <= k < |lead + x| ==> (lead + x + b)[k] != ','
  {
    forall k | 0 <= k < |lead + x|
      ensures (lead + x + b)[k] != ','
    {
      if k < |lead| {
        assert (lead + x + b)[k] == lead[k] && IsSpace(lead[k]);
      } else {
        assert (lead + x + b)[k] == x[k - |lead|];
      }
    }
  }

  /** A single trimmed item after whitespace reads back as itself. */
  lemma CommaSpaceSingle(lead: string, x: string)
    requires AllSpaces(lead) && Trimmed(x) && ',' !in x
    ensures GetList(Some(lead + x), ",") == Some([x])
  {
    NoCommaAfterSpaces(lead, x, "");
    assert lead + x + "" == lead + x;
    assert ',' !in lead + x;
    SplitWithoutSeparator(lead + x, ",");
    StripAfterSpaces(lead, x);
    assert KeepStripped([lead + x]) == [x];
  }

  /** One item in front of a list that reads back. */
  lemma CommaSpaceStep(lead: string, x: string, b: string, rest: seq<string>)
    requires AllSpaces(lead) && Trimmed(x) && ',' !in x
    requires GetList(Some(b), ",") == Some(rest)
    ensures GetList(Some(lead + x + "," + b), ",") == Some([x] + rest)
  {
    var s := lead + x + "," + b;
    NoCommaAfterSpaces(lead, x, "," + b);
    assert lead + x + ("," + b) == s;
    AbsentChar(s, ",", |lead + x|);
    GetListFirstPiece(lead + x, ",", b);
    StripAfterSpaces(lead, x);
  }

  /** A list written as its items separated by `", "` (the form of the default
      `video_extensions` value, utils/config.py:16) reads back as those items, when
      they are trimmed and hold no comma; leading whitespace before the list is
      ignored. */
  lemma {:induction false} CommaSpaceList(lead: string, items: seq<string>)
    requires AllSpaces(lead) && |items| >= 1
    requires forall i :: 0 <= i < |items| ==> Trimmed(items[i]) && ',' !in items[i]
    ensures GetList(Some(lead + Join(items, ", ")), ",") == Some(items)
    decreases |items|
  {
    if |items| == 1 {
      CommaSpaceSingle(lead, items[0]);
      assert items == [items[0]];
    } else {
      CommaSpaceList(" ", items[1..]);
      CommaSpaceCons(lead, items);
    }
  }

  /** The first item in front of the rest of the list, which reads back. */
  lemma CommaSpaceCons(lead: string, items: seq<string>)
    requires AllSpaces(lead) && |items| >= 2 && Trimmed(items[0]) && ',' !in items[0]
    requires GetList(Some(" " + Join(items[1..], ", ")), ",") == Some(items[1..])
    ensures GetList(Some(lead + Join(items, ", ")), ",") == Some(items)
  {
    JoinCommaSpace(lead, items);
    CommaSpaceStep(lead, items[0], " " + Join(items[1..], ", "), items[1..]);
    assert items == [items[0]] + items[1..];
  }

  lemma JoinCommaSpace(lead: string, items: seq<string>)
    requires |items| >= 2
    ensures lead + Join(items, ", ") == lead + items[0] + "," + (" " + Join(items[1..], ", "))
  {
  }

  /** The default `video_extensions` value (utils/config.py:16). */
  const DefaultVideoExtensions: string := ".mp4, .mkv, .avi, .wmv, .iso"

  /** The default value gives the five extensions, in order. */
  lemma DefaultVideoExtensionsList()
    ensures GetList(Some(DefaultVideoExtensions), ",") == Some([".mp4", ".mkv", ".avi", ".wmv", ".iso"])
  {
    var items := [".mp4", ".mkv", ".avi", ".wmv", ".iso"];
    DefaultVideoExtensionsJoin();
    CommaSpaceList("", items);
    assert "" + Join(items, ", ") == DefaultVideoExtensions;
  }

  lemma DefaultVideoExtensionsJoin()
    ensures Join([".mp4", ".mkv", ".avi", ".wmv", ".iso"], ", ") == DefaultVideoExtensions
  {
    var e := [".iso"];
    var d := [".wmv"] + e;
    var c := [".avi"] + d;
    var b := [".mkv"] + c;
    JoinCons(".wmv", e, ", ");
    JoinCons(".avi", d, ", ");
    JoinCons(".mkv", c, ", ");
    JoinCons(".mp4", b, ", ");
    assert [".mp4"] + b == [".mp4", ".mkv", ".avi", ".wmv", ".iso"];
    DefaultVideoExtensionsText();
  }

  lemma DefaultVideoExtensionsText()
    ensures ".mp4" + ", " + (".mkv" + ", " + (".avi" + ", " + (".wmv" + ", " + ".iso"))) == DefaultVideoExtensions
  {
  }
}
