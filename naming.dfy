/** The pure naming functions of signal_media_exporter/attachments.py: the file-name
    sanitiser `make_fs_name`, the extension chooser `attachment_extension` and the
    export file name built at the top of `AttachmentExporter.export`. */
module Naming {

  import opened Wrappers
  import opened Text
  import opened Paths

  /** Characters that `make_fs_name` turns into `-`: `<>:/\|?*` and the control
      characters U+0000 to U+001F. */
  predicate IsForbidden(c: char) {
    c == '<' || c == '>' || c == ':' || c == '/' || c == '\\' || c == '|' || c == '?' || c == '*' ||
    c < ' '
  }

  /** First step: every `"` becomes `'`. */
  function ReplaceQuotes(s: string): (r: string)
    ensures |r| == |s|
    ensures forall i :: 0 <= i < |s| ==> r[i] == (if s[i] == '"' then '\'' else s[i])
  {
    seq(|s|, i requires 0 <= i < |s| => if s[i] == '"' then '\'' else s[i])
  }

  /** Drops the run of forbidden characters at the front of `s`. */
  function SkipForbidden(s: string): (r: string)
    ensures |r| <= |s|
    ensures s != [] && IsForbidden(s[0]) ==> |r| < |s|
    decreases |s|
  {
    if s != [] && IsForbidden(s[0]) then SkipForbidden(s[1..]) else s
  }

  /** What is left after the run is a suffix of the text. */
  lemma {:induction false} SkipForbiddenIsSuffix(s: string)
    ensures SkipForbidden(s) == s[|s| - |SkipForbidden(s)|..]
    decreases |s|
  {
    if s != [] && IsForbidden(s[0]) {
      SkipForbiddenIsSuffix(s[1..]);
      var r := SkipForbidden(s[1..]);
      assert s[1..][|s| - 1 - |r|..] == s[|s| - |r|..];
    }
  }

  /** Second step: every maximal run of forbidden characters becomes one `-`. */
  function CollapseForbidden(s: string): (r: string)
    ensures |r| <= |s|
    decreases |s|
  {
    if s == [] then []
    else if IsForbidden(s[0]) then "-" + CollapseForbidden(SkipForbidden(s))
    else [s[0]] + CollapseForbidden(s[1..])
  }

  /** The collapsed text holds no forbidden character. */
  lemma {:induction false} CollapseLeavesNoForbidden(s: string)
    ensures forall i :: 0 <= i < |CollapseForbidden(s)| ==> !IsForbidden(CollapseForbidden(s)[i])
    decreases |s|
  {
    if s == [] {
    } else if IsForbidden(s[0]) {
      CollapseLeavesNoForbidden(SkipForbidden(s));
    } else {
      CollapseLeavesNoForbidden(s[1..]);
    }
  }

  /** Collapsing brings in no `"`. */
  lemma {:induction false} CollapseAddsNoQuote(s: string)
    ensures '"' !in s ==> '"' !in CollapseForbidden(s)
    decreases |s|
  {
    if s == [] {
    } else if IsForbidden(s[0]) {
      var skipped := SkipForbidden(s);
      SkipForbiddenIsSuffix(s);
      CollapseAddsNoQuote(skipped);
      if '"' in skipped {
        var k :| 0 <= k < |skipped| && skipped[k] == '"';
        assert s[|s| - |skipped| + k] == '"';
      }
    } else {
      CollapseAddsNoQuote(s[1..]);
      assert '"' !in s ==> '"' !in s[1..];
    }
  }

  /** Each step of `MakeFsName` that sanitises characters, with its guarantees. */
  function Cleaned(name: string): (r: string)
    ensures '"' !in r
    ensures forall i :: 0 <= i < |r| ==> !IsForbidden(r[i])
    ensures name != [] && name[0] != '"' && !IsForbidden(name[0]) ==> r != [] && r[0] == name[0]
  {
    var unquoted := ReplaceQuotes(name);
    CollapseLeavesNoForbidden(unquoted);
    CollapseAddsNoQuote(unquoted);
    CollapseForbidden(unquoted)
  }

  /** Windows device names, matched case-sensitively against the whole string:
      CON, PRN, AUX, NUL, and COM or LPT followed by one character that `\d` matches,
      which takes the decimal digits of every script. */
  predicate IsReservedName(s: string) {
    s == "CON" || s == "PRN" || s == "AUX" || s == "NUL" ||
    (|s| == 4 && (s[..3] == "COM" || s[..3] == "LPT") && IsDecimalDigit(s[3]))
  }

  /** `rstrip(' .')`. */
  function TrimTrailing(s: string): (r: string)
    ensures StartsWith(s, r)
    ensures r == [] || (r[|r| - 1] != ' ' && r[|r| - 1] != '.')
    ensures forall i :: |r| <= i < |s| ==> s[i] == ' ' || s[i] == '.'
    decreases |s|
  {
    if s != [] && (s[|s| - 1] == ' ' || s[|s| - 1] == '.') then TrimTrailing(s[..|s| - 1]) else s
  }

  /** `make_fs_name`. */
  function MakeFsName(name: string): (r: string)
    ensures '"' !in r
    ensures forall i :: 0 <= i < |r| ==> !IsForbidden(r[i])
    ensures r == [] || (r[|r| - 1] != ' ' && r[|r| - 1] != '.')
  {
    var cleaned := Cleaned(name);
    var marked := if IsReservedName(cleaned) then cleaned + "-" else cleaned;
    assert '"' !in marked;
    TrimTrailing(marked)
  }

  /** A name the sanitiser has nothing to change in. */
  predicate IsPlainName(s: string) {
    && (forall i :: 0 <= i < |s| ==> s[i] != '"' && !IsForbidden(s[i]))
    && (s == [] || (s[|s| - 1] != ' ' && s[|s| - 1] != '.'))
    && !IsReservedName(s)
  }

  lemma {:induction false} CollapseKeepsClean(s: string)
    requires forall i :: 0 <= i < |s| ==> !IsForbidden(s[i])
    ensures CollapseForbidden(s) == s
    decreases |s|
  {
    if s != [] {
      CollapseKeepsClean(s[1..]);
    }
  }

  /** A permitted character is kept where it is. */
  lemma CollapseKeepsPermitted(c: char, s: string)
    requires !IsForbidden(c)
    ensures CollapseForbidden([c] + s) == [c] + CollapseForbidden(s)
  {
    assert ([c] + s)[1..] == s;
  }

  /** Text without forbidden characters in front of the rest passes through. */
  lemma {:induction false} CollapseKeepsCleanPrefix(a: string, s: string)
    requires forall i :: 0 <= i < |a| ==> !IsForbidden(a[i])
    ensures CollapseForbidden(a + s) == a + CollapseForbidden(s)
    decreases |a|
  {
    if a != [] {
      calc {
        CollapseForbidden(a + s);
        { assert a + s == [a[0]] + (a[1..] + s); }
        CollapseForbidden([a[0]] + (a[1..] + s));
        { CollapseKeepsPermitted(a[0], a[1..] + s); }
        [a[0]] + CollapseForbidden(a[1..] + s);
        { CollapseKeepsCleanPrefix(a[1..], s); }
        [a[0]] + (a[1..] + CollapseForbidden(s));
        { assert a == [a[0]] + a[1..]; }
        a + CollapseForbidden(s);
      }
    } else {
      assert a + s == s;
    }
  }

  /** A whole run of forbidden characters is skipped, and no more. */
  lemma {:induction false} SkipWholeRun(x: string, s: string)
    requires forall i :: 0 <= i < |x| ==> IsForbidden(x[i])
    requires s == [] || !IsForbidden(s[0])
    ensures SkipForbidden(x + s) == s
    decreases |x|
  {
    if x != [] {
      assert (x + s)[0] == x[0] && (x + s)[1..] == x[1..] + s;
      SkipWholeRun(x[1..], s);
    }
  }

  /** A maximal run of forbidden characters, however long, becomes a single `-`. */
  lemma RunBecomesDash(x: string, s: string)
    requires x != [] && forall i :: 0 <= i < |x| ==> IsForbidden(x[i])
    requires s == [] || !IsForbidden(s[0])
    ensures CollapseForbidden(x + s) == "-" + CollapseForbidden(s)
  {
    assert (x + s)[0] == x[0];
    SkipWholeRun(x, s);
  }

  /** Quotes and forbidden runs handled: plain text around one run of forbidden
      characters keeps both sides, with `-` in place of the run. */
  lemma CleanedAroundRun(a: string, x: string, b: string)
    requires forall i :: 0 <= i < |a| ==> a[i] != '"' && !IsForbidden(a[i])
    requires forall i :: 0 <= i < |b| ==> b[i] != '"' && !IsForbidden(b[i])
    requires x != [] && forall i :: 0 <= i < |x| ==> IsForbidden(x[i])
    ensures Cleaned(a + x + b) == a + "-" + b
  {
    var s := a + x + b;
    assert forall i :: 0 <= i < |s| ==> s[i] != '"' by {
      forall i | 0 <= i < |s| ensures s[i] != '"' {
        if i >= |a| + |x| { assert s[i] == b[i - |a| - |x|]; }
        else if i >= |a| { assert s[i] == x[i - |a|]; }
      }
    }
    calc {
      Cleaned(s);
      { QuotelessUnchanged(s); }
      CollapseForbidden(s);
      { assert s == a + (x + b); CollapseKeepsCleanPrefix(a, x + b); }
      a + CollapseForbidden(x + b);
      { RunBecomesDash(x, b); }
      a + ("-" + CollapseForbidden(b));
      { CollapseKeepsClean(b); }
      a + ("-" + b);
    }
    assert a + ("-" + b) == a + "-" + b;
  }

  lemma QuotelessUnchanged(s: string)
    requires forall i :: 0 <= i < |s| ==> s[i] != '"'
    ensures ReplaceQuotes(s) == s
  {
  }

  /** A `-` inside a four-character name rules out every device name. */
  lemma DashedNotReserved(a: string, b: string)
    ensures !IsReservedName(a + "-" + b)
  {
    var r := a + "-" + b;
    assert r[|a|] == '-';
    if |r| == 4 && |a| < 3 {
      assert r[..3][|a|] == '-';
    }
  }

  /** `make_fs_name` on plain text around one run of forbidden characters: the run
      becomes `-` and the text on both sides is kept, so `a/b` gives `a-b`. */
  lemma RunBetweenPlainTextBecomesDash(a: string, x: string, b: string)
    requires forall i :: 0 <= i < |a| ==> a[i] != '"' && !IsForbidden(a[i])
    requires forall i :: 0 <= i < |b| ==> b[i] != '"' && !IsForbidden(b[i])
    requires x != [] && forall i :: 0 <= i < |x| ==> IsForbidden(x[i])
    requires b == [] || (b[|b| - 1] != ' ' && b[|b| - 1] != '.')
    ensures MakeFsName(a + x + b) == a + "-" + b
  {
    CleanedAroundRun(a, x, b);
    DashedNotReserved(a, b);
    var r := a + "-" + b;
    assert r[|r| - 1] != ' ' && r[|r| - 1] != '.';
  }

  lemma SlashBecomesDash()
    ensures MakeFsName("a/b") == "a-b"
  {
    assert "a/b" == "a" + "/" + "b";
    RunBetweenPlainTextBecomesDash("a", "/", "b");
  }

  /** A name that is already plain is returned unchanged. */
  lemma MakeFsNameKeepsPlain(s: string)
    requires IsPlainName(s)
    ensures MakeFsName(s) == s
  {
    assert ReplaceQuotes(s) == s;
    CollapseKeepsClean(s);
  }

  /** The `-` is appended exactly when the cleaned text is a reserved name. */
  lemma ReservedGetsDash(s: string)
    ensures MakeFsName(s) == Cleaned(s) + "-" <==> IsReservedName(Cleaned(s))
  {
    var c := Cleaned(s);
    if IsReservedName(c) {
      assert (c + "-")[|c|] == '-';
    } else {
      assert |MakeFsName(s)| <= |c|;
    }
  }

  /** Sanitising twice changes nothing, unless the first result is itself a reserved
      name; the stripping that follows the reserved-name check can produce one. */
  lemma MakeFsNameIdempotentUnlessReserved(s: string)
    requires !IsReservedName(MakeFsName(s))
    ensures MakeFsName(MakeFsName(s)) == MakeFsName(s)
  {
    MakeFsNameKeepsPlain(MakeFsName(s));
  }

  lemma ReservedNameGainsDash()
    ensures MakeFsName("CON") == "CON-"
  {
    assert ReplaceQuotes("CON") == "CON";
    CollapseKeepsClean("CON");
    var marked := "CON" + "-";
    assert marked[|marked| - 1] == '-';
  }

  /** `\d` is not only `0`-`9`: COM followed by the Arabic-Indic digit one is taken
      for a device name too. */
  lemma ArabicIndicDigitIsReserved()
    ensures MakeFsName("COM\U{0661}") == "COM\U{0661}-"
  {
    assert ReplaceQuotes("COM\U{0661}") == "COM\U{0661}";
    CollapseKeepsClean("COM\U{0661}");
    assert "COM\U{0661}"[..3] == "COM" && IsDecimalDigit("COM\U{0661}"[3]);
    var marked := "COM\U{0661}" + "-";
    assert marked[|marked| - 1] == '-';
  }

  lemma LowerCaseIsNotReserved()
    ensures MakeFsName("con") == "con"
  {
    assert ReplaceQuotes("con") == "con";
    CollapseKeepsClean("con");
    assert !IsReservedName("con");
  }

  /** The reserved-name check is case-sensitive and runs before the stripping: `CON.`
      loses its dot only afterwards and so comes out as the reserved name `CON`, which
      a second pass changes again. */
  lemma StrippingCanExposeReservedName()
    ensures MakeFsName("CON.") == "CON"
    ensures MakeFsName(MakeFsName("CON.")) != MakeFsName("CON.")
  {
    assert ReplaceQuotes("CON.") == "CON.";
    CollapseKeepsClean("CON.");
    assert "CON."[3] == '.';
    assert !IsReservedName("CON.");
    assert "CON."[..3] == "CON";
    assert TrimTrailing("CON.") == TrimTrailing("CON") == "CON";
    ReservedNameGainsDash();
  }

  lemma SkipRun(f1: char, f2: char, b: string)
    requires IsForbidden(f1) && IsForbidden(f2)
    ensures SkipForbidden([f1, f2] + b) == SkipForbidden(b) == SkipForbidden([f1] + b)
  {
    var long, mid, short := [f1, f2] + b, [f2] + b, [f1] + b;
    assert long[0] == f1 && long[1..] == mid;
    assert SkipForbidden(long) == SkipForbidden(mid);
    assert mid[0] == f2 && mid[1..] == b;
    assert SkipForbidden(mid) == SkipForbidden(b);
    assert short[0] == f1 && short[1..] == b;
  }

  /** Tails that start with forbidden runs and agree after them collapse alike,
      whatever comes before. */
  lemma {:induction false} CollapseSameAfterRun(a: string, x: string, y: string)
    requires x != [] && IsForbidden(x[0]) && y != [] && IsForbidden(y[0])
    requires SkipForbidden(x) == SkipForbidden(y)
    ensures CollapseForbidden(a + x) == CollapseForbidden(a + y)
    decreases |a|, 1
  {
    if a == [] {
      assert a + x == x && a + y == y;
    } else if !IsForbidden(a[0]) {
      SameAfterPermittedHead(a, x, y);
    } else {
      SameAfterForbiddenHead(a, x, y);
    }
  }

  lemma {:induction false} SameAfterPermittedHead(a: string, x: string, y: string)
    requires x != [] && IsForbidden(x[0]) && y != [] && IsForbidden(y[0])
    requires SkipForbidden(x) == SkipForbidden(y)
    requires a != [] && !IsForbidden(a[0])
    ensures CollapseForbidden(a + x) == CollapseForbidden(a + y)
    decreases |a|, 0
  {
    var long, short := a + x, a + y;
    assert long[0] == a[0] && short[0] == a[0];
    assert long[1..] == a[1..] + x && short[1..] == a[1..] + y;
    CollapseSameAfterRun(a[1..], x, y);
  }

  lemma {:induction false} SameAfterForbiddenHead(a: string, x: string, y: string)
    requires x != [] && IsForbidden(x[0]) && y != [] && IsForbidden(y[0])
    requires SkipForbidden(x) == SkipForbidden(y)
    requires a != [] && IsForbidden(a[0])
    ensures CollapseForbidden(a + x) == CollapseForbidden(a + y)
    decreases |a|, 0
  {
    var long, short := a + x, a + y;
    assert long[0] == a[0] && short[0] == a[0];
    SkipForbiddenConcat(a, x);
    SkipForbiddenConcat(a, y);
    var rest := SkipForbidden(a);
    if rest != [] {
      CollapseSameAfterRun(rest, x, y);
    }
  }

  /** A run of two forbidden characters comes out as a single `-`, exactly as one would,
      so every maximal run becomes one dash whatever its length. */
  lemma RunCollapsesToOneDash(a: string, f1: char, f2: char, b: string)
    requires IsForbidden(f1) && IsForbidden(f2)
    ensures CollapseForbidden(a + [f1, f2] + b) == CollapseForbidden(a + [f1] + b)
  {
    SkipRun(f1, f2, b);
    var x, y := [f1, f2] + b, [f1] + b;
    assert x[0] == f1 && y[0] == f1;
    CollapseSameAfterRun(a, x, y);
    assert a + [f1, f2] + b == a + x && a + [f1] + b == a + y;
  }

  lemma {:induction false} SkipForbiddenConcat(a: string, x: string)
    ensures SkipForbidden(a + x) == if SkipForbidden(a) == [] then SkipForbidden(x) else SkipForbidden(a) + x
    decreases |a|
  {
    if a != [] {
      assert (a + x)[0] == a[0];
      if IsForbidden(a[0]) {
        assert (a + x)[1..] == a[1..] + x;
        SkipForbiddenConcat(a[1..], x);
      }
    } else {
      assert a + x == x;
    }
  }

  /** An attachment record as stored in a message: optional original file name,
      optional MIME type, the not-yet-downloaded flag and the path below the
      attachment store. */
  datatype Attachment = Attachment(
    fileName: Option<string>,
    contentType: Option<string>,
    pending: bool,
    path: Option<string>)

  datatype NamingError = ContentTypeWithoutSlash

  /** Extension of the original file name, `""` when it is missing, empty or has none. */
  function FileNameExtension(att: Attachment): (r: string)
    ensures r == "" || r[0] == '.'
  {
    if att.fileName.Some? && att.fileName.value != "" then SplitExt(att.fileName.value).1 else ""
  }

  predicate HasContentType(att: Attachment) {
    att.contentType.Some? && att.contentType.value != ""
  }

  /** What `mimetypes.guess_extension` answered, `""` standing for a falsy answer. */
  function Guessed(att: Attachment, guess: string -> Option<string>): string
    requires HasContentType(att)
  {
    guess(att.contentType.value).GetOr("")
  }

  /** `attachment_extension`. The MIME registry is the opaque parameter `guess`. The
      original file name's extension wins; then the registry's answer; then the
      content type's subtype. */
  function AttachmentExtension(att: Attachment, guess: string -> Option<string>): (r: Result<string, NamingError>)
    ensures FileNameExtension(att) != "" ==> r == Ok(FileNameExtension(att))
    ensures FileNameExtension(att) == "" && !HasContentType(att) ==> r == Ok("")
    ensures FileNameExtension(att) == "" && HasContentType(att) && Guessed(att, guess) != "" ==>
              r == Ok(Guessed(att, guess))
    ensures FileNameExtension(att) == "" && HasContentType(att) && Guessed(att, guess) == "" ==>
              r == SubtypeExtension(att.contentType.value)
    ensures r.Err? <==>
              FileNameExtension(att) == "" && HasContentType(att) && Guessed(att, guess) == "" &&
              '/' !in att.contentType.value
  {
    var fromName := FileNameExtension(att);
    if fromName != "" then Ok(fromName)
    else if HasContentType(att) then
      var guessed := Guessed(att, guess);
      if guessed != "" then Ok(guessed) else SubtypeExtension(att.contentType.value)
    else Ok("")
  }

  /** The last resort of `attachment_extension`: the lower-cased text between the first
      and the second `/` of the content type, sanitised behind a dot. A content type
      without `/` makes `split('/')[1]` raise. */
  function SubtypeExtension(ct: string): (r: Result<string, NamingError>)
    ensures r.Err? <==> '/' !in ct
    ensures r.Ok? ==> r.value == "" || r.value[0] == '.'
    ensures r.Ok? ==> forall i :: 0 <= i < |r.value| ==> !IsForbidden(r.value[i])
  {
    var parts := SplitOn(Lower(ct), '/');
    assert '/' in ct <==> '/' in Lower(ct) by {
      if '/' in ct {
        var k :| 0 <= k < |ct| && ct[k] == '/';
        assert Lower(ct)[k] == '/';
      }
      if '/' in Lower(ct) {
        var k :| 0 <= k < |Lower(ct)| && Lower(ct)[k] == '/';
        assert ct[k] == '/';
      }
    }
    if |parts| < 2 then Err(ContentTypeWithoutSlash) else Ok(FallbackExtension(parts[1]))
  }

  /** `make_fs_name('.' + subtype)`: a dot followed by the sanitised subtype, or
      nothing at all when only dots and spaces would remain. */
  function FallbackExtension(subtype: string): (r: string)
    ensures r == "" || r[0] == '.'
    ensures forall i :: 0 <= i < |r| ==> !IsForbidden(r[i])
  {
    var s := "." + subtype;
    assert ReplaceQuotes(s)[0] == '.';
    var c := Cleaned(s);
    assert c[0] == '.';
    assert !IsReservedName(c);
    MakeFsName(s)
  }

  /** A clean subtype comes through the fallback unchanged behind its dot, parameters
      included: `audio/ogg; codecs=opus` gives `.ogg; codecs=opus`, since neither `;`,
      ` ` nor `=` is forbidden. */
  lemma FallbackKeepsSubtype(major: string, minor: string)
    requires '/' !in major && minor != []
    requires forall i :: 0 <= i < |minor| ==> minor[i] != '"' && !IsForbidden(minor[i]) && !('A' <= minor[i] <= 'Z')
    requires minor[|minor| - 1] != ' ' && minor[|minor| - 1] != '.'
    ensures SubtypeExtension(major + "/" + minor) == Ok("." + minor)
  {
    var ct := major + "/" + minor;
    assert Lower(ct) == Lower(major) + "/" + minor by {
      forall i | 0 <= i < |ct| ensures Lower(ct)[i] == (Lower(major) + "/" + minor)[i] {
        if i > |major| {
          assert ct[i] == minor[i - |major| - 1];
        }
      }
    }
    assert '/' !in Lower(major) by {
      forall k | 0 <= k < |major| ensures Lower(major)[k] != '/' {
        assert major[k] != '/';
      }
    }
    var parts := [Lower(major), minor];
    assert JoinWith(parts, '/') == Lower(ct) by {
      assert parts[1..] == [minor];
    }
    SplitJoin(parts, '/');
    assert SplitOn(Lower(ct), '/')[1] == minor;
    CleanSubtypeUnchanged(minor);
  }

  lemma CleanSubtypeUnchanged(minor: string)
    requires minor != []
    requires forall i :: 0 <= i < |minor| ==> minor[i] != '"' && !IsForbidden(minor[i])
    requires minor[|minor| - 1] != ' ' && minor[|minor| - 1] != '.'
    ensures FallbackExtension(minor) == "." + minor
  {
    var s := "." + minor;
    forall i | 0 <= i < |s| ensures s[i] != '"' && !IsForbidden(s[i]) {
      if i > 0 {
        assert s[i] == minor[i - 1];
      }
    }
    assert ReplaceQuotes(s) == s;
    CollapseKeepsClean(s);
    assert s[|s| - 1] == minor[|minor| - 1];
    assert !IsReservedName(s);
  }

  /** The export file name: `signal-<timestamp>`, then `-<index>` when the message has
      more than one attachment, then the extension. */
  function ExportName(stamp: string, siblingCount: nat, idx: nat, ext: string): string {
    JoinWith(["signal", stamp] + (if siblingCount > 1 then [NatToString(idx)] else []), '-') + ext
  }

  lemma ExportNameShape(stamp: string, siblingCount: nat, idx: nat, ext: string)
    ensures ExportName(stamp, siblingCount, idx, ext) ==
            "signal-" + stamp + (if siblingCount > 1 then "-" + NatToString(idx) else "") + ext
  {
    if siblingCount > 1 {
      var n := NatToString(idx);
      var parts := ["signal", stamp, n];
      assert ["signal", stamp] + [n] == parts;
      assert parts[1..] == [stamp, n] && [stamp, n][1..] == [n];
      assert JoinWith([n], '-') == n;
      assert JoinWith([stamp, n], '-') == stamp + "-" + n;
      assert JoinWith(parts, '-') == "signal" + "-" + (stamp + "-" + n);
      assert "signal" + "-" == "signal-";
      assert "signal" + "-" + (stamp + "-" + n) + ext == "signal-" + stamp + ("-" + n) + ext;
    } else {
      assert ["signal", stamp] + [] == ["signal", stamp];
      assert ["signal", stamp][1..] == [stamp];
      assert JoinWith(["signal", stamp], '-') == "signal" + "-" + stamp;
      assert "signal" + "-" == "signal-";
      assert "signal-" + stamp + "" + ext == "signal-" + stamp + ext;
    }
  }

  /** Attachments of one message with the same extension get different names when the
      message has several attachments: the index tells them apart. */
  lemma SiblingNamesDiffer(stamp: string, siblingCount: nat, i: nat, j: nat, ext: string)
    requires siblingCount > 1 && i != j
    ensures ExportName(stamp, siblingCount, i, ext) != ExportName(stamp, siblingCount, j, ext)
  {
    ExportNameDeterminesIndex(stamp, siblingCount, i, j, ext);
  }

  lemma ExportNameDeterminesIndex(stamp: string, siblingCount: nat, i: nat, j: nat, ext: string)
    requires siblingCount > 1
    ensures ExportName(stamp, siblingCount, i, ext) == ExportName(stamp, siblingCount, j, ext) ==> i == j
  {
    ExportNameShape(stamp, siblingCount, i, ext);
    ExportNameShape(stamp, siblingCount, j, ext);
    var head := "signal-" + stamp + "-";
    var ni, nj := NatToString(i), NatToString(j);
    if ExportName(stamp, siblingCount, i, ext) == ExportName(stamp, siblingCount, j, ext) {
      var x, y := head + ni + ext, head + nj + ext;
      assert "signal-" + stamp + ("-" + ni) + ext == x;
      assert "signal-" + stamp + ("-" + nj) + ext == y;
      assert x[..|x| - |ext|] == head + ni;
      assert y[..|y| - |ext|] == head + nj;
      assert (head + ni)[|head|..] == ni;
      assert (head + nj)[|head|..] == nj;
      NatToStringInjective(i, j);
    }
  }
}
