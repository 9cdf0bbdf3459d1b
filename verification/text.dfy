/**
 * The string operations of Python the core relies on: greedy runs of a
 * character class, `int()` of a digit string, `str()` of a natural number,
 * `str.strip()`, `str.find()` and `str.split()`.
 */
module Text {
  import opened Chars
  import opened Wrappers

  function Min(a: nat, b: nat): nat {
    if a <= b then a else b
  }

  function Pow10(n: nat): (p: nat)
    ensures p >= 1
  {
    if n == 0 then 1 else 10 * Pow10(n - 1)
  }

  // ---------------------------------------------------------------------------
  // Greedy runs
  // ---------------------------------------------------------------------------

  /** Where a greedy `\s*` starting at i stops. */
  function SkipSpaces(s: string, i: nat): (j: nat)
    requires i <= |s|
    ensures i <= j <= |s|
    ensures forall k :: i <= k < j ==> IsSpace(s[k])
    ensures j < |s| ==> !IsSpace(s[j])
    decreases |s| - i
  {
    if i < |s| && IsSpace(s[i]) then SkipSpaces(s, i + 1) else i
  }

  /** Where a greedy `\d*` starting at i stops. */
  function SkipDigits(s: string, i: nat): (j: nat)
    requires i <= |s|
    ensures i <= j <= |s|
    ensures forall k :: i <= k < j ==> IsDigit(s[k])
    ensures j < |s| ==> !IsDigit(s[j])
    decreases |s| - i
  {
    if i < |s| && IsDigit(s[i]) then SkipDigits(s, i + 1) else i
  }

  /** A digit run from i that stops at j is the greedy one. */
  lemma SkipDigitsUntil(s: string, i: nat, j: nat)
    requires i <= j <= |s|
    requires forall k :: i <= k < j ==> IsDigit(s[k])
    requires j < |s| ==> !IsDigit(s[j])
    ensures SkipDigits(s, i) == j
  {
  }

  /** A whitespace run from i that stops at j is the greedy one. */
  lemma SkipSpacesUntil(s: string, i: nat, j: nat)
    requires i <= j <= |s|
    requires forall k :: i <= k < j ==> IsSpace(s[k])
    requires j < |s| ==> !IsSpace(s[j])
    ensures SkipSpaces(s, i) == j
  {
  }

  /** The greedy digit run of a slice from p is the run of the whole string from p. */
  lemma SkipDigitsSlice(s: string, p: nat, x: nat, y: nat)
    requires p <= x <= y <= |s|
    requires forall k :: p <= k < x ==> IsDigit(s[k])
    requires x < y ==> !IsDigit(s[x])
    ensures SkipDigits(s[p..y], 0) == x - p
  {
    var d := s[p..y];
    assert forall k :: 0 <= k < x - p ==> d[k] == s[p + k];
    SkipDigitsUntil(d, 0, x - p);
  }

  /** The greedy digit run of the slice s[p..y], read in s. */
  lemma SliceDigitRun(s: string, p: nat, y: nat)
    requires p <= y <= |s|
    ensures var n := SkipDigits(s[p..y], 0);
      (forall k :: p <= k < p + n ==> IsDigit(s[k])) && (p + n < y ==> !IsDigit(s[p + n]))
  {
    var d := s[p..y];
    var n := SkipDigits(d, 0);
    forall k | p <= k < p + n
      ensures IsDigit(s[k])
    {
      assert s[k] == d[k - p];
    }
    if p + n < y {
      assert s[p + n] == d[n];
    }
  }

  predicate AllDigits(d: string) {
    forall k :: 0 <= k < |d| ==> IsDigit(d[k])
  }

  predicate AllSpaces(d: string) {
    forall k :: 0 <= k < |d| ==> IsSpace(d[k])
  }

  /** No whitespace at either end, as `strip()` leaves a string. */
  predicate NoOuterSpace(r: string) {
    r == [] || (!IsSpace(r[0]) && !IsSpace(r[|r| - 1]))
  }

  // ---------------------------------------------------------------------------
  // Decimal numbers
  // ---------------------------------------------------------------------------

  /** `int(d)` for a string of decimal digits (leading zeros allowed). */
  function Value(d: string): (n: nat)
    requires AllDigits(d)
    ensures n < Pow10(|d|)
  {
    if d == [] then 0 else Value(d[..|d| - 1]) * 10 + DigitValue(d[|d| - 1])
  }

  /** `str(n)` for a natural number: its digits without leading zeros. */
  function DecimalString(n: nat): (d: string)
    ensures 1 <= |d| && AllDigits(d)
    ensures Value(d) == n
    ensures d[0] == '0' ==> n == 0
    decreases n
  {
    if n < 10 then [DigitChar(n)]
    else
      var prefix := DecimalString(n / 10);
      var d := prefix + [DigitChar(n % 10)];
      assert d[..|d| - 1] == prefix;
      d
  }

  /** Two digit strings with the same value and no leading zeros are equal. */
  lemma {:induction false} DecimalStringOfValue(d: string)
    requires 1 <= |d| && AllDigits(d) && (d[0] == '0' ==> |d| == 1)
    ensures DecimalString(Value(d)) == d
    decreases |d|
  {
    var n := Value(d);
    if |d| == 1 {
      assert d == [DigitChar(n)];
    } else {
      var prefix := d[..|d| - 1];
      assert prefix[0] == d[0];
      ValueLeadingDigit(prefix);
      DecimalStringOfValue(prefix);
      assert n / 10 == Value(prefix) && n % 10 == DigitValue(d[|d| - 1]);
      assert n >= 10;
      assert d == prefix + [DigitChar(n % 10)];
    }
  }

  /** A digit string that does not start with '0' has at least the value 10^(|d|-1). */
  lemma {:induction false} ValueLeadingDigit(d: string)
    requires 1 <= |d| && AllDigits(d) && d[0] != '0'
    ensures Value(d) >= Pow10(|d| - 1)
    decreases |d|
  {
    if |d| > 1 {
      var prefix := d[..|d| - 1];
      assert prefix[0] == d[0];
      ValueLeadingDigit(prefix);
    }
  }

  // ---------------------------------------------------------------------------
  // str.strip()
  // ---------------------------------------------------------------------------

  /** Index just past the last non-space of s[lo..hi]. */
  function TrimEnd(s: string, lo: nat, hi: nat): (j: nat)
    requires lo <= hi <= |s|
    ensures lo <= j <= hi
    ensures forall k :: j <= k < hi ==> IsSpace(s[k])
    ensures j > lo ==> !IsSpace(s[j - 1])
    decreases hi
  {
    if hi > lo && IsSpace(s[hi - 1]) then TrimEnd(s, lo, hi - 1) else hi
  }

  /** `str.strip()`: s without its leading and trailing whitespace. */
  function Strip(s: string): (r: string)
    ensures var a := SkipSpaces(s, 0);
      && a + |r| <= |s| && r == s[a..a + |r|]
      && forall k :: a + |r| <= k < |s| ==> IsSpace(s[k])
    ensures NoOuterSpace(r)
    ensures r == [] <==> AllSpaces(s)
  {
    var a := SkipSpaces(s, 0);
    s[a..TrimEnd(s, a, |s|)]
  }

  /** Stripping twice is stripping once. */
  lemma StripIdempotent(s: string)
    ensures Strip(Strip(s)) == Strip(s)
  {
    var r := Strip(s);
    if r != [] {
      assert SkipSpaces(r, 0) == 0;
    }
  }

  /** Stripping leading whitespace off a text that is otherwise trimmed gives the text. */
  lemma StripAfterSpaces(p: string, x: string)
    requires AllSpaces(p) && x != [] && !IsSpace(x[0]) && !IsSpace(x[|x| - 1])
    ensures Strip(p + x) == x
  {
    var s := p + x;
    var a := SkipSpaces(s, 0);
    assert s[|p|] == x[0];
    assert forall k :: 0 <= k < |p| ==> s[k] == p[k];
    assert a == |p|;
    var r := Strip(s);
    assert !IsSpace(s[|s| - 1]);
    assert a + |r| == |s|;
    assert r == s[|p|..] == x;
  }

  /** Strip keeps only characters of s. */
  lemma StripChars(s: string)
    ensures forall c :: c in Strip(s) ==> c in s
  {
    var r := Strip(s);
    var a := SkipSpaces(s, 0);
    forall j | 0 <= j < |r|
      ensures r[j] in s
    {
      assert r[j] == s[a + j];
    }
  }

  /** Stripping cannot bring in a character the text lacks. */
  lemma StripLacks(s: string, c: char)
    requires c !in s
    ensures c !in Strip(s)
  {
    var r := Strip(s);
    var a := SkipSpaces(s, 0);
    forall j | 0 <= j < |r|
      ensures r[j] != c
    {
      assert r[j] == s[a + j];
    }
  }

  // ---------------------------------------------------------------------------
  // str.find() and str.split()
  // ---------------------------------------------------------------------------

  predicate OccursAt(s: string, sep: string, k: nat) {
    k + |sep| <= |s| && s[k..k + |sep|] == sep
  }

  /** `sep in s` */
  predicate Contains(s: string, sep: string) {
    exists k: nat :: k <= |s| && OccursAt(s, sep, k)
  }

  /** `s.find(sep, i)`, with None for -1. */
  function Find(s: string, sep: string, i: nat): (r: Option<nat>)
    requires |sep| > 0 && i <= |s|
    ensures r.Some? ==> i <= r.value && OccursAt(s, sep, r.value)
    ensures r.Some? ==> forall k :: i <= k < r.value ==> !OccursAt(s, sep, k)
    ensures r.None? ==> forall k :: i <= k ==> !OccursAt(s, sep, k)
    decreases |s| - i
  {
    if i + |sep| > |s| then None
    else if s[i..i + |sep|] == sep then Some(i)
    else Find(s, sep, i + 1)
  }

  /** The inverse of `str.split`: `sep.join(parts)`. */
  function Join(parts: seq<string>, sep: string): string {
    if parts == [] then []
    else if |parts| == 1 then parts[0]
    else parts[0] + sep + Join(parts[1..], sep)
  }

  lemma JoinCons(x: string, rest: seq<string>, sep: string)
    requires rest != []
    ensures Join([x] + rest, sep) == x + sep + Join(rest, sep)
  {
    assert ([x] + rest)[1..] == rest;
  }

  /** A slice of s that starts no occurrence of sep inside it contains none. */
  lemma NoOccurrenceInSlice(s: string, sep: string, i: nat, j: nat)
    requires |sep| > 0 && i <= j <= |s|
    requires forall k :: i <= k < j ==> !OccursAt(s, sep, k)
    ensures !Contains(s[i..j], sep)
  {
    var piece := s[i..j];
    forall m: nat | m <= |piece| && OccursAt(piece, sep, m)
      ensures OccursAt(s, sep, i + m)
    {
      assert forall t :: 0 <= t < |sep| ==> s[i + m + t] == piece[m + t] == sep[t];
      assert s[i + m..i + m + |sep|] == sep;
    }
  }

  /** `s.split(sep)` for a non-empty separator: the text up to the first occurrence,
      then the pieces of the text after it. No piece holds the separator, and joining
      the pieces with it gives s back. */
  function Split(s: string, sep: string): (parts: seq<string>)
    requires |sep| > 0
    ensures |parts| >= 1
    ensures forall p :: p in parts ==> !Contains(p, sep)
    ensures Join(parts, sep) == s
    decreases |s|
  {
    match Find(s, sep, 0)
    case None =>
      NoOccurrenceInSlice(s, sep, 0, |s|);
      assert s[0..|s|] == s;
      [s]
    case Some(k) =>
      var rest := Split(s[k + |sep|..], sep);
      JoinPiece(s, sep, k, rest);
      PiecesLackSeparator(s, sep, k, rest);
      [s[..k]] + rest
  }

  /** Joining the piece before an occurrence of sep to the rest gives s back. */
  lemma JoinPiece(s: string, sep: string, k: nat, rest: seq<string>)
    requires OccursAt(s, sep, k) && |rest| >= 1 && Join(rest, sep) == s[k + |sep|..]
    ensures Join([s[..k]] + rest, sep) == s
  {
    JoinCons(s[..k], rest, sep);
    ThreeSlices(s, k, k + |sep|);
  }

  lemma ThreeSlices(s: string, i: nat, j: nat)
    requires i <= j <= |s|
    ensures s == s[..i] + s[i..j] + s[j..]
  {
  }

  /** The piece before the first occurrence holds none. */
  lemma PiecesLackSeparator(s: string, sep: string, k: nat, rest: seq<string>)
    requires |sep| > 0 && k <= |s| && forall j :: 0 <= j < k ==> !OccursAt(s, sep, j)
    requires forall p :: p in rest ==> !Contains(p, sep)
    ensures forall p :: p in [s[..k]] + rest ==> !Contains(p, sep)
  {
    NoOccurrenceInSlice(s, sep, 0, k);
    assert s[0..k] == s[..k];
  }

  /** A text holding the separator splits into more than one piece. */
  lemma SplitMany(s: string, sep: string, k: nat)
    requires |sep| > 0 && OccursAt(s, sep, k)
    ensures |Split(s, sep)| > 1
  {
    assert Find(s, sep, 0).Some?;
  }

  /** With more than one piece, the first is the text before the first separator. */
  lemma SplitFirstPiece(s: string, sep: string)
    requires |sep| > 0 && |Split(s, sep)| > 1
    ensures var p := Split(s, sep)[0];
      |p| + |sep| <= |s| && p == s[..|p|] && OccursAt(s, sep, |p|)
  {
    assert Find(s, sep, 0).Some?;
  }

  /** p is the text of s after an occurrence of sep that ends it. */
  predicate EndPiece(s: string, sep: string, p: string) {
    |p| + |sep| <= |s| && p == s[|s| - |p|..] && OccursAt(s, sep, |s| - |p| - |sep|)
  }

  /** With more than one piece, the last is the text after the last separator. */
  lemma {:induction false} SplitLastPiece(s: string, sep: string)
    requires |sep| > 0 && |Split(s, sep)| > 1
    ensures EndPiece(s, sep, Split(s, sep)[|Split(s, sep)| - 1])
    decreases |s|
  {
    assert Find(s, sep, 0).Some?;
    var k := Find(s, sep, 0).value;
    var u := s[k + |sep|..];
    if |Split(u, sep)| > 1 {
      SplitLastPiece(u, sep);
      LastAfterRest(s, sep, k);
    } else {
      LastIsRest(s, sep, k);
    }
  }

  lemma LastIsRest(s: string, sep: string, k: nat)
    requires |sep| > 0 && Find(s, sep, 0) == Some(k)
    requires |Split(s[k + |sep|..], sep)| == 1
    ensures EndPiece(s, sep, Split(s, sep)[|Split(s, sep)| - 1])
  {
    var u := s[k + |sep|..];
    SplitUnfold(s, sep, k);
    assert Split(u, sep)[0] == u;
  }

  lemma LastAfterRest(s: string, sep: string, k: nat)
    requires |sep| > 0 && Find(s, sep, 0) == Some(k)
    requires var rest := Split(s[k + |sep|..], sep); |rest| > 1 && EndPiece(s[k + |sep|..], sep, rest[|rest| - 1])
    ensures EndPiece(s, sep, Split(s, sep)[|Split(s, sep)| - 1])
  {
    var rest := Split(s[k + |sep|..], sep);
    SplitUnfold(s, sep, k);
    ShiftLastPiece(s, sep, k + |sep|, rest[|rest| - 1]);
  }

  /** One step of `Split`: the piece before the first separator at k, then the pieces after it. */
  lemma SplitUnfold(s: string, sep: string, k: nat)
    requires |sep| > 0 && Find(s, sep, 0) == Some(k)
    ensures Split(s, sep) == [s[..k]] + Split(s[k + |sep|..], sep)
  {
  }

  /** A suffix of s[o..] after an occurrence of sep is one of s too. */
  lemma ShiftLastPiece(s: string, sep: string, o: nat, p: string)
    requires o <= |s|
    requires EndPiece(s[o..], sep, p)
    ensures EndPiece(s, sep, p)
  {
    var u := s[o..];
    var j := |u| - |p| - |sep|;
    assert u[j..j + |sep|] == s[o + j..o + j + |sep|];
  }

  /** A stripped piece is a slice of the piece, so it cannot contain what the piece does not. */
  lemma StripKeepsAbsence(p: string, sep: string)
    requires |sep| > 0 && !Contains(p, sep)
    ensures !Contains(Strip(p), sep)
  {
    var r := Strip(p);
    var a := SkipSpaces(p, 0);
    forall m: nat | m <= |r| && OccursAt(r, sep, m)
      ensures OccursAt(p, sep, a + m)
    {
      assert forall t :: 0 <= t < |sep| ==> p[a + m + t] == r[m + t] == sep[t];
      assert p[a + m..a + m + |sep|] == sep;
    }
  }

  /** `(a + sep + b).split(sep)` when sep first occurs right after a: the piece a,
      then the pieces of b. */
  lemma SplitAtFirst(a: string, sep: string, b: string)
    requires |sep| > 0
    requires forall k :: 0 <= k < |a| ==> !OccursAt(a + sep + b, sep, k)
    ensures Split(a + sep + b, sep) == [a] + Split(b, sep)
  {
    var s := a + sep + b;
    assert OccursAt(s, sep, |a|) by {
      assert s[|a|..|a| + |sep|] == sep;
    }
    assert Find(s, sep, 0) == Some(|a|);
    assert s[..|a|] == a;
    assert s[|a| + |sep|..] == b;
  }

  /** A one-character separator does not occur inside a text that lacks its character. */
  lemma AbsentChar(s: string, sep: string, n: nat)
    requires |sep| == 1 && n <= |s| && forall k :: 0 <= k < n ==> s[k] != sep[0]
    ensures forall k :: 0 <= k < n ==> !OccursAt(s, sep, k)
  {
    forall k | 0 <= k < n
      ensures !OccursAt(s, sep, k)
    {
      if k + 1 <= |s| {
        assert s[k..k + 1][0] == s[k];
      }
    }
  }

  /** A text without the separator's character splits into itself alone. */
  lemma SplitWithoutSeparator(a: string, sep: string)
    requires |sep| == 1 && sep[0] !in a
    ensures Split(a, sep) == [a]
  {
    AbsentChar(a, sep, |a|);
    assert Find(a, sep, 0).None?;
    assert a[0..] == a;
  }

  /** `sep.join(parts).split(sep) == parts` for a one-character separator that no
      part contains: splitting undoes joining. */
  lemma {:induction false} SplitJoin(parts: seq<string>, sep: string)
    requires |sep| == 1 && |parts| >= 1
    requires forall i :: 0 <= i < |parts| ==> sep[0] !in parts[i]
    ensures Split(Join(parts, sep), sep) == parts
    decreases |parts|
  {
    if |parts| == 1 {
      SplitWithoutSeparator(parts[0], sep);
    } else {
      var a := parts[0];
      var rest := Join(parts[1..], sep);
      assert Join(parts, sep) == a + sep + rest;
      forall k | 0 <= k < |a|
        ensures (a + sep + rest)[k] != sep[0]
      {
        assert (a + sep + rest)[k] == a[k];
      }
      AbsentChar(a + sep + rest, sep, |a|);
      SplitAtFirst(a, sep, rest);
      SplitJoin(parts[1..], sep);
      assert parts == [a] + parts[1..];
    }
  }
}
