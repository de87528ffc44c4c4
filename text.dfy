/** String helpers shared by the exporter model: Python's `str.split`, `"sep".join`,
    `str(n)` for a non-negative integer, ASCII `lower`, prefix/suffix tests and the
    rightmost-substring search behind `str.rfind`. */
module Text {

  import opened Wrappers

  predicate IsDigit(c: char) {
    '0' <= c <= '9'
  }

  /** What `\d` matches in a Python `re` pattern over `str`: a character of the
      Unicode category Nd (decimal digit), as listed by Unicode 15.0.0. */
  predicate IsDecimalDigit(c: char) {
    ('0' <= c <= '9') || ('\U{0660}' <= c && InDigitRuns(c, 0))
  }

  /** `c` lies in one of the runs of non-ASCII decimal digits from the `k`-th on. */
  predicate InDigitRuns(c: char, k: nat)
    decreases 63 - k
  {
    k < 63 && ((DigitRun(k).0 <= c <= DigitRun(k).1) || InDigitRuns(c, k + 1))
  }

  /** The `k`-th run of decimal digits beyond ASCII, by its first and last character,
      in ascending order. */
  function DigitRun(k: nat): (char, char)
    requires k < 63
  {
    match k
    case 0 => ('\U{0660}', '\U{0669}')
    case 1 => ('\U{06F0}', '\U{06F9}')
    case 2 => ('\U{07C0}', '\U{07C9}')
    case 3 => ('\U{0966}', '\U{096F}')
    case 4 => ('\U{09E6}', '\U{09EF}')
    case 5 => ('\U{0A66}', '\U{0A6F}')
    case 6 => ('\U{0AE6}', '\U{0AEF}')
    case 7 => ('\U{0B66}', '\U{0B6F}')
    case 8 => ('\U{0BE6}', '\U{0BEF}')
    case 9 => ('\U{0C66}', '\U{0C6F}')
    case 10 => ('\U{0CE6}', '\U{0CEF}')
    case 11 => ('\U{0D66}', '\U{0D6F}')
    case 12 => ('\U{0DE6}', '\U{0DEF}')
    case 13 => ('\U{0E50}', '\U{0E59}')
    case 14 => ('\U{0ED0}', '\U{0ED9}')
    case 15 => ('\U{0F20}', '\U{0F29}')
    case 16 => ('\U{1040}', '\U{1049}')
    case 17 => ('\U{1090}', '\U{1099}')
    case 18 => ('\U{17E0}', '\U{17E9}')
    case 19 => ('\U{1810}', '\U{1819}')
    case 20 => ('\U{1946}', '\U{194F}')
    case 21 => ('\U{19D0}', '\U{19D9}')
    case 22 => ('\U{1A80}', '\U{1A89}')
    case 23 => ('\U{1A90}', '\U{1A99}')
    case 24 => ('\U{1B50}', '\U{1B59}')
    case 25 => ('\U{1BB0}', '\U{1BB9}')
    case 26 => ('\U{1C40}', '\U{1C49}')
    case 27 => ('\U{1C50}', '\U{1C59}')
    case 28 => ('\U{A620}', '\U{A629}')
    case 29 => ('\U{A8D0}', '\U{A8D9}')
    case 30 => ('\U{A900}', '\U{A909}')
    case 31 => ('\U{A9D0}', '\U{A9D9}')
    case 32 => ('\U{A9F0}', '\U{A9F9}')
    case 33 => ('\U{AA50}', '\U{AA59}')
    case 34 => ('\U{ABF0}', '\U{ABF9}')
    case 35 => ('\U{FF10}', '\U{FF19}')
    case 36 => ('\U{104A0}', '\U{104A9}')
    case 37 => ('\U{10D30}', '\U{10D39}')
    case 38 => ('\U{11066}', '\U{1106F}')
    case 39 => ('\U{110F0}', '\U{110F9}')
    case 40 => ('\U{11136}', '\U{1113F}')
    case 41 => ('\U{111D0}', '\U{111D9}')
    case 42 => ('\U{112F0}', '\U{112F9}')
    case 43 => ('\U{11450}', '\U{11459}')
    case 44 => ('\U{114D0}', '\U{114D9}')
    case 45 => ('\U{11650}', '\U{11659}')
    case 46 => ('\U{116C0}', '\U{116C9}')
    case 47 => ('\U{11730}', '\U{11739}')
    case 48 => ('\U{118E0}', '\U{118E9}')
    case 49 => ('\U{11950}', '\U{11959}')
    case 50 => ('\U{11C50}', '\U{11C59}')
    case 51 => ('\U{11D50}', '\U{11D59}')
    case 52 => ('\U{11DA0}', '\U{11DA9}')
    case 53 => ('\U{11F50}', '\U{11F59}')
    case 54 => ('\U{16A60}', '\U{16A69}')
    case 55 => ('\U{16AC0}', '\U{16AC9}')
    case 56 => ('\U{16B50}', '\U{16B59}')
    case 57 => ('\U{1D7CE}', '\U{1D7FF}')
    case 58 => ('\U{1E140}', '\U{1E149}')
    case 59 => ('\U{1E2F0}', '\U{1E2F9}')
    case 60 => ('\U{1E4F0}', '\U{1E4F9}')
    case 61 => ('\U{1E950}', '\U{1E959}')
    case _ => ('\U{1FBF0}', '\U{1FBF9}')
  }

  function LowerChar(c: char): char {
    if 'A' <= c <= 'Z' then (c as int + 32) as char else c
  }

  /** `str.lower()` restricted to ASCII letters. */
  function Lower(s: string): (r: string)
    ensures |r| == |s|
    ensures forall i :: 0 <= i < |s| ==> r[i] == LowerChar(s[i])
  {
    seq(|s|, i requires 0 <= i < |s| => LowerChar(s[i]))
  }

  predicate StartsWith(s: string, prefix: string) {
    |prefix| <= |s| && s[..|prefix|] == prefix
  }

  predicate EndsWith(s: string, suffix: string) {
    |suffix| <= |s| && s[|s| - |suffix|..] == suffix
  }

  function DigitChar(d: nat): char
    requires d < 10
  {
    ('0' as int + d) as char
  }

  /** `str(n)` for a non-negative integer: its decimal digits, most significant first. */
  function NatToString(n: nat): (r: string)
    ensures |r| >= 1
    ensures forall i :: 0 <= i < |r| ==> IsDigit(r[i])
    ensures (|r| == 1) == (n < 10)
    decreases n
  {
    if n < 10 then [DigitChar(n)] else NatToString(n / 10) + [DigitChar(n % 10)]
  }

  /** Different numbers print differently, so a printed index identifies its attachment. */
  lemma {:induction false} NatToStringInjective(a: nat, b: nat)
    requires NatToString(a) == NatToString(b)
    ensures a == b
    decreases a
  {
    var s := NatToString(a);
    if a < 10 {
      assert b < 10;
    } else {
      assert b >= 10;
      assert s[|s| - 1] == DigitChar(a % 10) == DigitChar(b % 10);
      assert NatToString(a / 10) == s[..|s| - 1] == NatToString(b / 10);
      NatToStringInjective(a / 10, b / 10);
    }
  }

  /** `s.split(sep)` for a one-character separator. */
  function SplitOn(s: string, sep: char): (parts: seq<string>)
    ensures |parts| >= 1
    ensures forall i :: 0 <= i < |parts| ==> sep !in parts[i]
    ensures (|parts| == 1) == (sep !in s)
    ensures |parts| == 1 ==> parts[0] == s
    decreases |s|
  {
    if s == [] then [""]
    else
      var rest := SplitOn(s[1..], sep);
      if s[0] == sep then [""] + rest
      else [[s[0]] + rest[0]] + rest[1..]
  }

  /** `sep.join(parts)` for a one-character separator. */
  function JoinWith(parts: seq<string>, sep: char): (r: string)
    requires |parts| >= 1
    decreases |parts|
  {
    if |parts| == 1 then parts[0] else parts[0] + [sep] + JoinWith(parts[1..], sep)
  }

  /** Joining the pieces of a split gives back the original string. */
  lemma {:induction false} JoinSplit(s: string, sep: char)
    ensures JoinWith(SplitOn(s, sep), sep) == s
    decreases |s|
  {
    if s != [] {
      var tail := s[1..];
      var rest := SplitOn(tail, sep);
      JoinSplit(tail, sep);
      assert s == [s[0]] + tail;
      if s[0] == sep {
        SplitAtSeparator(tail, sep);
        assert ([""] + rest)[1..] == rest;
      } else {
        SplitAtOther(s[0], tail, sep);
        var parts := [[s[0]] + rest[0]] + rest[1..];
        if |rest| == 1 {
          assert parts == [[s[0]] + rest[0]];
        } else {
          JoinWithFirstChar(parts, sep);
          assert parts[0][1..] == rest[0];
          assert [rest[0]] + rest[1..] == rest;
        }
      }
    }
  }

  /** Splitting a join of separator-free pieces gives the pieces back. */
  lemma {:induction false} SplitJoin(parts: seq<string>, sep: char)
    requires |parts| >= 1
    requires forall i :: 0 <= i < |parts| ==> sep !in parts[i]
    ensures SplitOn(JoinWith(parts, sep), sep) == parts
    decreases |parts|, |parts[0]|
  {
    var p0 := parts[0];
    if |parts| == 1 {
      assert SplitOn(p0, sep) == [p0];
    } else if p0 == [] {
      var tail := JoinWith(parts[1..], sep);
      assert JoinWith(parts, sep) == [sep] + tail;
      SplitJoin(parts[1..], sep);
      SplitAtSeparator(tail, sep);
      assert parts == [""] + parts[1..];
    } else {
      var shorter := [p0[1..]] + parts[1..];
      forall i | 0 <= i < |shorter| ensures sep !in shorter[i] {
        if i == 0 {
          assert forall c :: c in p0[1..] ==> c in p0;
        } else {
          assert shorter[i] == parts[i];
        }
      }
      SplitJoin(shorter, sep);
      JoinWithFirstChar(parts, sep);
      assert p0[0] in p0;
      SplitAtOther(p0[0], JoinWith(shorter, sep), sep);
      assert [p0[0]] + p0[1..] == p0;
      assert shorter[1..] == parts[1..];
    }
  }

  /** A leading separator splits off an empty first part. */
  lemma SplitAtSeparator(s: string, sep: char)
    ensures SplitOn([sep] + s, sep) == [""] + SplitOn(s, sep)
  {
    assert ([sep] + s)[1..] == s;
  }

  /** Any other leading character joins the first part. */
  lemma SplitAtOther(c: char, s: string, sep: char)
    requires c != sep
    ensures SplitOn([c] + s, sep) == [[c] + SplitOn(s, sep)[0]] + SplitOn(s, sep)[1..]
  {
    assert ([c] + s)[1..] == s;
  }

  /** Joining starts with the first character of a non-empty first part. */
  lemma JoinWithFirstChar(parts: seq<string>, sep: char)
    requires |parts| >= 2 && parts[0] != []
    ensures JoinWith(parts, sep) == [parts[0][0]] + JoinWith([parts[0][1..]] + parts[1..], sep)
  {
    var shorter := [parts[0][1..]] + parts[1..];
    assert shorter[1..] == parts[1..];
    assert parts[0] == [parts[0][0]] + parts[0][1..];
  }

  /** Each part preceded by the separator, concatenated: what `sep.join` puts after
      its first part. */
  function Prefixed(parts: seq<string>, sep: char): string
    decreases |parts|
  {
    if parts == [] then "" else [sep] + parts[0] + Prefixed(parts[1..], sep)
  }

  lemma {:induction false} JoinWithAsPrefixed(parts: seq<string>, sep: char)
    requires |parts| >= 1
    ensures JoinWith(parts, sep) == parts[0] + Prefixed(parts[1..], sep)
    decreases |parts|
  {
    if |parts| > 1 {
      JoinWithAsPrefixed(parts[1..], sep);
      assert parts[1..][1..] == parts[2..];
    }
  }

  lemma {:induction false} PrefixedAppend(a: seq<string>, b: seq<string>, sep: char)
    ensures Prefixed(a + b, sep) == Prefixed(a, sep) + Prefixed(b, sep)
    decreases |a|
  {
    if a == [] {
      assert a + b == b;
    } else {
      assert (a + b)[1..] == a[1..] + b;
      PrefixedAppend(a[1..], b, sep);
    }
  }

  /** Joining with one more part at the end adds the separator and that part. */
  lemma JoinWithSnoc(init: seq<string>, last: string, sep: char)
    requires |init| >= 1
    ensures JoinWith(init + [last], sep) == JoinWith(init, sep) + [sep] + last
  {
    var parts := init + [last];
    JoinWithAsPrefixed(init, sep);
    JoinWithAsPrefixed(parts, sep);
    assert parts[1..] == init[1..] + [last];
    PrefixedAppend(init[1..], [last], sep);
    assert Prefixed([last], sep) == [sep] + last;
  }

  /** A join ends with the last character of its last part. */
  lemma {:induction false} JoinWithEndsLikeLast(parts: seq<string>, sep: char)
    requires |parts| >= 1 && parts[|parts| - 1] != ""
    ensures var j, last := JoinWith(parts, sep), parts[|parts| - 1];
            j != "" && j[|j| - 1] == last[|last| - 1]
    decreases |parts|
  {
    if |parts| > 1 {
      JoinWithEndsLikeLast(parts[1..], sep);
    }
  }

  /** Strings that agree outside a middle part agree in the middle. */
  lemma MiddleCancels(head: string, a: string, b: string, tail: string)
    ensures head + a + tail == head + b + tail ==> a == b
  {
    if head + a + tail == head + b + tail {
      var x, y := head + a + tail, head + b + tail;
      assert x[|head|..|x| - |tail|] == a;
      assert y[|head|..|y| - |tail|] == b;
    }
  }

  /** `sub` occurs in `s` starting at index `i`. */
  predicate OccursAt(s: string, sub: string, i: int) {
    0 <= i && i + |sub| <= |s| && s[i..i + |sub|] == sub
  }

  /** The last occurrence of `sub` that starts at or before `k`. */
  function LastOccurrenceUpTo(s: string, sub: string, k: int): (r: Option<nat>)
    requires k <= |s| - |sub|
    ensures r.Some? ==> r.value <= k && OccursAt(s, sub, r.value)
    ensures r.Some? ==> forall j :: r.value < j <= k ==> !OccursAt(s, sub, j)
    ensures r.None? ==> forall j :: 0 <= j <= k ==> !OccursAt(s, sub, j)
    decreases k + 1
  {
    if k < 0 then None
    else if s[k..k + |sub|] == sub then Some(k)
    else LastOccurrenceUpTo(s, sub, k - 1)
  }

  /** `s.rfind(sub)`, with `None` for Python's -1. */
  function RFind(s: string, sub: string): (r: Option<nat>)
    ensures r.Some? ==> OccursAt(s, sub, r.value)
    ensures r.Some? ==> forall j :: r.value < j ==> !OccursAt(s, sub, j)
    ensures r.None? ==> forall j :: !OccursAt(s, sub, j)
  {
    LastOccurrenceUpTo(s, sub, |s| - |sub|)
  }

  /** A suffix is always the rightmost occurrence of itself. */
  lemma RFindSuffix(s: string, sub: string)
    requires EndsWith(s, sub)
    ensures RFind(s, sub) == Some(|s| - |sub|)
  {
    assert OccursAt(s, sub, |s| - |sub|);
  }
}
