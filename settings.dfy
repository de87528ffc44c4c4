/** The settings both scripts assemble before exporting: built-in defaults, overridden
    by the JSON config file, overridden by command-line options whose names are
    camel-cased, then phone numbers reduced to `+` and digits, and (in the packaged
    script) a negative `maxMessages` rejected. Python dictionaries are ordered, so a
    dictionary is a sequence of key/value pairs here. */
module Settings {

  import opened Wrappers
  import opened Text
  import Paths

  /** A JSON or command-line value. `Null` is Python's `None`: an option not given;
      `Real` is a JSON number with a fraction or exponent, decoded as a Python `float`;
      `List` is a JSON array. */
  datatype Value = Null | Text(s: string) | Number(n: int) | Real(x: real) | Flag(b: bool)
                 | List(items: seq<Value>) | Object(entries: seq<(string, Value)>)

  type Dict = seq<(string, Value)>

  /** Python's truth test: `None`, `''`, `0`, `0.0`, `False`, `[]` and `{}` are false. */
  predicate Falsy(v: Value) {
    match v
    case Null => true
    case Text(s) => s == ""
    case Number(n) => n == 0
    case Real(x) => x == 0.0
    case Flag(b) => !b
    case List(items) => items == []
    case Object(es) => es == []
  }

  // ---------------------------------------------------------------------------
  // Camel-casing of option names

  predicate IsLetter(c: char) {
    'a' <= c <= 'z' || 'A' <= c <= 'Z'
  }

  function UpperChar(c: char): char {
    if 'a' <= c <= 'z' then (c as int - 32) as char else c
  }

  /** `str.title()` on ASCII text: a letter is upper-cased when it does not follow a
      letter, and lower-cased when it does. */
  function Title(w: string): (r: string)
    ensures |r| == |w|
    ensures forall i :: 0 <= i < |w| ==>
              r[i] == if i > 0 && IsLetter(w[i - 1]) then LowerChar(w[i]) else UpperChar(w[i])
  {
    seq(|w|, i requires 0 <= i < |w| => if i > 0 && IsLetter(w[i - 1]) then LowerChar(w[i]) else UpperChar(w[i]))
  }

  function Concat(parts: seq<string>): string
    decreases |parts|
  {
    if parts == [] then "" else parts[0] + Concat(parts[1..])
  }

  function TitleAll(words: seq<string>): (r: seq<string>)
    ensures |r| == |words|
    ensures forall i :: 0 <= i < |words| ==> r[i] == Title(words[i])
  {
    seq(|words|, i requires 0 <= i < |words| => Title(words[i]))
  }

  /** `''.join(w.lower() if i == 0 else w.title() for i, w in enumerate(arg.split('_')))`. */
  function CamelCase(arg: string): string {
    var words := SplitOn(arg, '_');
    Lower(words[0]) + Concat(TitleAll(words[1..]))
  }

  /** `arg` without its underscores. */
  function WithoutUnderscores(s: string): (r: string)
    decreases |s|
  {
    if s == "" then "" else (if s[0] == '_' then "" else [s[0]]) + WithoutUnderscores(s[1..])
  }

  lemma LowerAppend(a: string, b: string)
    ensures Lower(a + b) == Lower(a) + Lower(b)
  {
  }

  lemma LowerTitle(w: string)
    ensures Lower(Title(w)) == Lower(w)
  {
  }

  lemma {:induction false} LowerConcatTitles(words: seq<string>)
    ensures Lower(Concat(TitleAll(words))) == Lower(Concat(words))
    decreases |words|
  {
    if words != [] {
      LowerConcatTitles(words[1..]);
      assert TitleAll(words)[1..] == TitleAll(words[1..]);
      LowerAppend(Title(words[0]), Concat(TitleAll(words[1..])));
      LowerAppend(words[0], Concat(words[1..]));
      LowerTitle(words[0]);
    }
  }

  lemma {:induction false} ConcatSplit(s: string)
    ensures Concat(SplitOn(s, '_')) == WithoutUnderscores(s)
    decreases |s|
  {
    if s != "" {
      ConcatSplit(s[1..]);
      var rest := SplitOn(s[1..], '_');
      if s[0] == '_' {
        assert SplitOn(s, '_') == [""] + rest;
        assert ([""] + rest)[1..] == rest;
      } else {
        var parts := SplitOn(s, '_');
        assert parts == [[s[0]] + rest[0]] + rest[1..];
        assert parts[1..] == rest[1..];
        assert Concat(rest) == rest[0] + Concat(rest[1..]);
      }
    }
  }

  /** Camel-casing only removes the underscores and changes the case of letters: up
      to case, an option name becomes the option name without its underscores. */
  lemma CamelCaseIsCaseOfJoinedWords(arg: string)
    ensures Lower(CamelCase(arg)) == Lower(WithoutUnderscores(arg))
  {
    var words := SplitOn(arg, '_');
    LowerAppend(Lower(words[0]), Concat(TitleAll(words[1..])));
    LowerConcatTitles(words[1..]);
    LowerAppend(words[0], Concat(words[1..]));
    assert Concat(words) == words[0] + Concat(words[1..]);
    ConcatSplit(arg);
  }

  predicate AllLowerLetters(w: string) {
    forall i :: 0 <= i < |w| ==> 'a' <= w[i] <= 'z'
  }

  /** An option name of two lower-case words becomes the first word followed by the
      second with a capital initial: `max_messages` becomes `maxMessages` and
      `own_number` becomes `ownNumber`, the keys the config files use. */
  lemma TwoWordCamelCase(a: string, b: string)
    requires AllLowerLetters(a) && AllLowerLetters(b) && |b| > 0
    ensures CamelCase(a + "_" + b) == a + [UpperChar(b[0])] + b[1..]
  {
    assert '_' !in a && '_' !in b;
    SplitJoin([a, b], '_');
    assert JoinWith([a, b], '_') == a + "_" + b;
    var words := SplitOn(a + "_" + b, '_');
    assert words[0] == a && words[1..] == [b];
    LowerOfLowerWord(a);
    assert TitleAll([b]) == [Title(b)];
    assert Concat([Title(b)]) == Title(b) + Concat([]);
    TitleOfLowerWord(b);
  }

  lemma LowerOfLowerWord(w: string)
    requires AllLowerLetters(w)
    ensures Lower(w) == w
  {
  }

  /** A lower-case word keeps all but its initial, which is capitalised. */
  lemma TitleOfLowerWord(w: string)
    requires AllLowerLetters(w) && |w| > 0
    ensures Title(w) == [UpperChar(w[0])] + w[1..]
  {
    forall i | 1 <= i < |w| ensures Title(w)[i] == w[i] {
      assert IsLetter(w[i - 1]);
    }
  }

  // ---------------------------------------------------------------------------
  // Ordered dictionaries

  /** Position of key `k` in `d`, if present. */
  function IndexOf(d: Dict, k: string): (r: Option<nat>)
    ensures r.Some? ==> r.value < |d| && d[r.value].0 == k && forall j :: 0 <= j < r.value ==> d[j].0 != k
    ensures r.None? ==> forall j :: 0 <= j < |d| ==> d[j].0 != k
    decreases |d|
  {
    if d == [] then None
    else if d[0].0 == k then Some(0)
    else match IndexOf(d[1..], k)
      case None => None
      case Some(i) => Some(i + 1)
  }

  /** `d.get(k)`. */
  function Lookup(d: Dict, k: string): Option<Value> {
    match IndexOf(d, k)
    case None => None
    case Some(i) => Some(d[i].1)
  }

  predicate UniqueKeys(d: Dict) {
    forall i, j :: 0 <= i < j < |d| ==> d[i].0 != d[j].0
  }

  /** `d[k] = v`: an existing key keeps its position and takes the new value; a new
      key goes at the end. */
  function Put(d: Dict, k: string, v: Value): (r: Dict)
    ensures Lookup(r, k) == Some(v)
    ensures forall k' :: k' != k ==> Lookup(r, k') == Lookup(d, k')
    ensures UniqueKeys(d) ==> UniqueKeys(r)
  {
    match IndexOf(d, k)
    case Some(i) =>
      var r := d[i := (k, v)];
      forall k' ensures IndexOf(r, k') == IndexOf(d, k') {
        IndexOfUpdate(d, i, v, k');
      }
      r
    case None =>
      var r := d + [(k, v)];
      assert forall k' :: k' != k ==> IndexOf(r, k') == IndexOf(d, k') by {
        forall k' | k' != k ensures IndexOf(r, k') == IndexOf(d, k') {
          IndexOfAppend(d, (k, v), k');
        }
      }
      IndexOfAppend(d, (k, v), k);
      r
  }

  lemma {:induction false} IndexOfUpdate(d: Dict, i: nat, v: Value, k: string)
    requires i < |d|
    ensures IndexOf(d[i := (d[i].0, v)], k) == IndexOf(d, k)
    decreases |d|
  {
    if i > 0 {
      assert d[i := (d[i].0, v)][1..] == d[1..][i - 1 := (d[i].0, v)];
      IndexOfUpdate(d[1..], i - 1, v, k);
    }
  }

  lemma {:induction false} IndexOfAppend(d: Dict, e: (string, Value), k: string)
    ensures IndexOf(d + [e], k) == if IndexOf(d, k).Some? then IndexOf(d, k) else if e.0 == k then Some(|d|) else None
    decreases |d|
  {
    if d != [] {
      assert (d + [e])[1..] == d[1..] + [e];
      IndexOfAppend(d[1..], e, k);
    }
  }

  /** The last value given for key `k` in a list of assignments, if any. */
  function LastFor(updates: Dict, k: string): Option<Value>
    decreases |updates|
  {
    if updates == [] then None
    else match LastFor(updates[1..], k)
      case Some(v) => Some(v)
      case None => if updates[0].0 == k then Some(updates[0].1) else None
  }

  /** `a` if it holds a value, else `b`. */
  function FirstOf(a: Option<Value>, b: Option<Value>): Option<Value> {
    if a.Some? then a else b
  }

  /** `d[k] = v` for each assignment in turn; with `updates` a dictionary this is
      `{**d, **updates}`. */
  function PutAll(d: Dict, updates: Dict): Dict
    decreases |updates|
  {
    if updates == [] then d else PutAll(Put(d, updates[0].0, updates[0].1), updates[1..])
  }

  /** After a series of assignments a key holds the last value assigned to it, or the
      value it had before when it was never assigned; keys stay unique. */
  lemma {:induction false} PutAllLookup(d: Dict, updates: Dict, k: string)
    ensures Lookup(PutAll(d, updates), k) == FirstOf(LastFor(updates, k), Lookup(d, k))
    ensures UniqueKeys(d) ==> UniqueKeys(PutAll(d, updates))
    decreases |updates|
  {
    if updates != [] {
      PutAllLookup(Put(d, updates[0].0, updates[0].1), updates[1..], k);
    }
  }

  /** `LastFor` is the value of the last assignment to `k`: one exists exactly when
      some assignment names `k`, and no later one does. */
  lemma {:induction false} LastForIsLast(updates: Dict, k: string)
    ensures LastFor(updates, k).None? <==> forall i :: 0 <= i < |updates| ==> updates[i].0 != k
    ensures LastFor(updates, k).Some? ==>
              exists i :: 0 <= i < |updates| && updates[i] == (k, LastFor(updates, k).value) &&
                          forall j :: i < j < |updates| ==> updates[j].0 != k
    decreases |updates|
  {
    if updates != [] {
      LastForIsLast(updates[1..], k);
      var rest := updates[1..];
      match LastFor(rest, k)
      case Some(v) =>
        var i :| 0 <= i < |rest| && rest[i] == (k, v) && forall j :: i < j < |rest| ==> rest[j].0 != k;
        assert updates[i + 1] == (k, v);
        assert forall j :: i + 1 < j < |updates| ==> updates[j].0 == rest[j - 1].0;
      case None =>
        assert forall i :: 1 <= i < |updates| ==> updates[i].0 == rest[i - 1].0;
        if updates[0].0 == k {
          assert updates[0] == (k, LastFor(updates, k).value);
        }
    }
  }

  // ---------------------------------------------------------------------------
  // Command-line overrides

  /** `if value is None: continue` in the packaged script; `if not value: continue`
      in the legacy one. */
  predicate Ignored(v: Value, skipFalsy: bool) {
    if skipFalsy then Falsy(v) else v.Null?
  }

  /** The assignments the override loop makes: every option not ignored, under its
      camel-cased name. */
  function Overrides(args: Dict, skipFalsy: bool): (r: Dict)
    ensures forall i :: 0 <= i < |r| ==> !Ignored(r[i].1, skipFalsy)
    decreases |args|
  {
    if args == [] then []
    else if Ignored(args[0].1, skipFalsy) then Overrides(args[1..], skipFalsy)
    else [(CamelCase(args[0].0), args[0].1)] + Overrides(args[1..], skipFalsy)
  }

  /** Every option that is not ignored ends up in the configuration under its
      camel-cased name; if two options share that name the later one wins, and an
      ignored option leaves the configured value in place. */
  lemma {:induction false} OverridesOfOption(args: Dict, skipFalsy: bool, k: string)
    ensures LastFor(Overrides(args, skipFalsy), k).None? <==>
              forall i :: 0 <= i < |args| ==> Ignored(args[i].1, skipFalsy) || CamelCase(args[i].0) != k
    ensures LastFor(Overrides(args, skipFalsy), k).Some? ==>
              exists i :: 0 <= i < |args| && !Ignored(args[i].1, skipFalsy) && CamelCase(args[i].0) == k &&
                          args[i].1 == LastFor(Overrides(args, skipFalsy), k).value
    decreases |args|
  {
    if args != [] {
      var rest := args[1..];
      OverridesOfOption(rest, skipFalsy, k);
      assert forall i :: 1 <= i < |args| ==> args[i] == rest[i - 1];
      if !Ignored(args[0].1, skipFalsy) {
        var o := Overrides(args, skipFalsy);
        assert o[1..] == Overrides(rest, skipFalsy);
      }
    }
  }

  /** The loop `for arg, value in vars(args).items(): ... config[arg_camelcase] = value`,
      updating `config` in place. */
  method ApplyOptions(config: Dict, args: Dict, skipFalsy: bool) returns (r: Dict)
    ensures r == PutAll(config, Overrides(args, skipFalsy))
  {
    r := config;
    var i := 0;
    while i < |args|
      invariant i <= |args|
      invariant PutAll(r, Overrides(args[i..], skipFalsy)) == PutAll(config, Overrides(args, skipFalsy))
    {
      assert args[i..][1..] == args[i + 1..];
      var (arg, value) := args[i];
      i := i + 1;
      if Ignored(value, skipFalsy) {
        continue;
      }
      r := Put(r, CamelCase(arg), value);
    }
    assert args[i..] == [];
  }

  // ---------------------------------------------------------------------------
  // Phone numbers

  predicate Kept(c: char) {
    c == '+' || IsDecimalDigit(c)
  }

  /** `re.sub('[^+\d]', '', no)`: keeps `+` and the decimal digits of every script. */
  function Sanitize(no: string): (r: string)
    ensures forall i :: 0 <= i < |r| ==> Kept(r[i])
    ensures |r| <= |no|
    decreases |no|
  {
    if no == "" then "" else (if Kept(no[0]) then [no[0]] else "") + Sanitize(no[1..])
  }

  predicate Clean(no: string) {
    forall i :: 0 <= i < |no| ==> Kept(no[i])
  }

  /** A number is left as it is exactly when it holds only `+` and digits, so
      sanitising twice is sanitising once. */
  lemma {:induction false} SanitizeIdentity(no: string)
    ensures Sanitize(no) == no <==> Clean(no)
    decreases |no|
  {
    if no != "" {
      SanitizeIdentity(no[1..]);
      if !Kept(no[0]) {
        assert |Sanitize(no)| <= |no[1..]| < |no|;
      }
      assert Clean(no) <==> Kept(no[0]) && Clean(no[1..]);
    }
  }

  lemma SanitizeIdempotent(no: string)
    ensures Sanitize(Sanitize(no)) == Sanitize(no)
  {
    SanitizeIdentity(Sanitize(no));
  }

  /** Digits of other scripts survive: `\d` matches the Arabic-Indic one and two. */
  lemma ArabicIndicDigitsAreKept()
    ensures Sanitize("+\U{0661} \U{0662}") == "+\U{0661}\U{0662}"
  {
    assert "+\U{0661} \U{0662}"[1..] == "\U{0661} \U{0662}";
    assert "\U{0661} \U{0662}"[1..] == " \U{0662}";
    assert " \U{0662}"[1..] == "\U{0662}";
  }

  /** Sanitising keeps every `+` and digit as often as it occurs and drops everything
      else; `SanitizeAppend` gives the order. */
  lemma {:induction false} SanitizeKeepsExactlyKept(no: string)
    ensures forall c :: Kept(c) ==> multiset(Sanitize(no))[c] == multiset(no)[c]
    ensures forall c :: !Kept(c) ==> c !in Sanitize(no)
    decreases |no|
  {
    if no != "" {
      SanitizeKeepsExactlyKept(no[1..]);
      assert no == [no[0]] + no[1..];
    }
  }

  lemma {:induction false} SanitizeAppend(a: string, b: string)
    ensures Sanitize(a + b) == Sanitize(a) + Sanitize(b)
    decreases |a|
  {
    if a == "" {
      assert a + b == b;
    } else {
      assert (a + b)[0] == a[0] && (a + b)[1..] == a[1..] + b;
      SanitizeAppend(a[1..], b);
    }
  }

  /** The pairs of the `map` dictionary with each number sanitised. */
  function SanitizedKeys(entries: Dict): (r: Dict)
    ensures |r| == |entries|
    ensures forall i :: 0 <= i < |entries| ==> r[i] == (Sanitize(entries[i].0), entries[i].1)
  {
    seq(|entries|, i requires 0 <= i < |entries| => (Sanitize(entries[i].0), entries[i].1))
  }

  /** `{ sanitize(number): name for number, name in config['map'].items() }`. */
  function SanitizeNumbers(entries: Dict): Dict {
    PutAll([], SanitizedKeys(entries))
  }

  /** Every key of the sanitised map is a clean number and appears once; a clean
      number maps to the name of the last entry whose number sanitises to it, and is
      absent when there is none. */
  lemma SanitizeNumbersMeaning(entries: Dict, k: string)
    ensures UniqueKeys(SanitizeNumbers(entries))
    ensures Lookup(SanitizeNumbers(entries), k).None? <==>
              forall i :: 0 <= i < |entries| ==> Sanitize(entries[i].0) != k
    ensures Lookup(SanitizeNumbers(entries), k).Some? ==>
              Clean(k) &&
              exists i :: 0 <= i < |entries| && Sanitize(entries[i].0) == k &&
                          entries[i].1 == Lookup(SanitizeNumbers(entries), k).value &&
                          forall j :: i < j < |entries| ==> Sanitize(entries[j].0) != k
  {
    var u := SanitizedKeys(entries);
    PutAllLookup([], u, k);
    LastForIsLast(u, k);
    if LastFor(u, k).Some? {
      var i :| 0 <= i < |u| && u[i] == (k, LastFor(u, k).value) && forall j :: i < j < |u| ==> u[j].0 != k;
      assert Sanitize(entries[i].0) == k;
    }
  }

  // ---------------------------------------------------------------------------
  // The two scripts' settings

  datatype SettingsError = MapNotAnObject | NotAString(key: string) | NotANumber(key: string)

  /** What assembling the settings ends in: the settings, `sys.exit(code)`, or an
      uncaught exception. */
  datatype Settled = Ready(config: Dict) | Exit(code: int) | Raised(error: SettingsError)

  /** The built-in defaults of the packaged script, with `home` the user's home
      directory. */
  function MainDefaults(home: string): Dict {
    [("config", Text("./config.json")),
     ("maxMessages", Number(0)),
     ("outputDir", Text("./media")),
     ("signalDir", Text(Paths.Join(home, ".config/Signal"))),
     ("sqlcipher", Object([("cipher_compatibility", Number(4))]))]
  }

  /** The built-in defaults of the legacy script. */
  function LegacyDefaults(home: string): Dict {
    [("config", Text("./config.json")),
     ("outputDir", Text("./media")),
     ("signalDir", Text(Paths.Join(home, ".config/Signal")))]
  }

  /** `try: config['map'] = {...} except KeyError: pass`; a `map` that is not a JSON
      object has no `items` and raises. */
  function SanitizeMapSetting(config: Dict): Result<Dict, SettingsError> {
    match Lookup(config, "map")
    case None => Ok(config)
    case Some(Object(entries)) => Ok(Put(config, "map", Object(SanitizeNumbers(entries))))
    case Some(_) => Err(MapNotAnObject)
  }

  /** `if config['maxMessages'] < 0: sys.exit(-1)`. An integer or a float is compared
      with zero, a boolean compares as 0 or 1; anything else (a string, `None`, a list,
      a dictionary) cannot be compared with an integer and raises `TypeError`, as a
      missing key raises `KeyError`. */
  function CheckMaxMessages(config: Dict): Settled {
    match Lookup(config, "maxMessages")
    case Some(Number(n)) => if n < 0 then Exit(-1) else Ready(config)
    case Some(Real(x)) => if x < 0.0 then Exit(-1) else Ready(config)
    case Some(Flag(_)) => Ready(config)
    case _ => Raised(NotANumber("maxMessages"))
  }

  /** `{**defaults, **file}` with the options applied. */
  function MainMerged(home: string, file: Dict, args: Dict): Dict {
    PutAll(PutAll(MainDefaults(home), file), Overrides(args, false))
  }

  /** The packaged script's settings from the decoded config file and the parsed
      options, in the order `vars(args)` lists them. */
  function MainSettings(home: string, file: Dict, args: Dict): Settled {
    match SanitizeMapSetting(MainMerged(home, file, args))
    case Err(e) => Raised(e)
    case Ok(config') => CheckMaxMessages(config')
  }

  /** `try: config['ownNumber'] = sanitize(config['ownNumber']) except KeyError: pass`;
      `re.sub` on anything but a string raises. */
  function SanitizeOwnNumber(config: Dict): Result<Dict, SettingsError> {
    match Lookup(config, "ownNumber")
    case None => Ok(config)
    case Some(Text(no)) => Ok(Put(config, "ownNumber", Text(Sanitize(no))))
    case Some(_) => Err(NotAString("ownNumber"))
  }

  /** The legacy script's settings; it has no `maxMessages`. */
  function LegacySettings(home: string, file: Dict, args: Dict): Settled {
    var config := PutAll(PutAll(LegacyDefaults(home), file), Overrides(args, true));
    match SanitizeOwnNumber(config)
    case Err(e) => Raised(e)
    case Ok(config') =>
      match SanitizeMapSetting(config')
      case Err(e) => Raised(e)
      case Ok(config'') => Ready(config'')
  }

  /** The packaged script's `main` up to the database: merge, override, sanitise and
      validate. */
  method PrepareMain(home: string, file: Dict, args: Dict) returns (r: Settled)
    ensures r == MainSettings(home, file, args)
  {
    var config := PutAll(MainDefaults(home), file);
    config := ApplyOptions(config, args, false);
    var sanitized := SanitizeMapSetting(config);
    if sanitized.Err? {
      return Raised(sanitized.error);
    }
    r := CheckMaxMessages(sanitized.value);
  }

  /** The legacy script's main block up to the database. */
  method PrepareLegacy(home: string, file: Dict, args: Dict) returns (r: Settled)
    ensures r == LegacySettings(home, file, args)
  {
    var config := PutAll(LegacyDefaults(home), file);
    config := ApplyOptions(config, args, true);
    var own := SanitizeOwnNumber(config);
    if own.Err? {
      return Raised(own.error);
    }
    var sanitized := SanitizeMapSetting(own.value);
    if sanitized.Err? {
      return Raised(sanitized.error);
    }
    r := Ready(sanitized.value);
  }

  /** The number map after sanitising: absent, or a JSON object whose numbers are
      clean and appear once. */
  predicate CleanMap(config: Dict) {
    Lookup(config, "map").Some? ==>
      && Lookup(config, "map").value.Object?
      && UniqueKeys(Lookup(config, "map").value.entries)
      && forall i :: 0 <= i < |Lookup(config, "map").value.entries| ==> Clean(Lookup(config, "map").value.entries[i].0)
  }

  /** Sanitising the map fails exactly when `map` is set to something other than a
      JSON object; otherwise it leaves every other setting alone and the map clean. */
  lemma SanitizeMapSettingMeaning(config: Dict, k: string)
    ensures SanitizeMapSetting(config).Err? <==> Lookup(config, "map").Some? && !Lookup(config, "map").value.Object?
    ensures SanitizeMapSetting(config).Ok? ==>
              && CleanMap(SanitizeMapSetting(config).value)
              && (k != "map" ==> Lookup(SanitizeMapSetting(config).value, k) == Lookup(config, k))
  {
    if Lookup(config, "map").Some? && Lookup(config, "map").value.Object? {
      var es := Lookup(config, "map").value.entries;
      var m := SanitizeNumbers(es);
      SanitizeNumbersMeaning(es, "");
      forall i | 0 <= i < |m| ensures Clean(m[i].0) {
        SanitizeNumbersMeaning(es, m[i].0);
        assert IndexOf(m, m[i].0).Some?;
      }
    }
  }

  /** The `maxMessages` in force is a negative integer or a negative float. */
  predicate NegativeLimit(config: Dict) {
    Lookup(config, "maxMessages").Some? &&
    match Lookup(config, "maxMessages").value
    case Number(n) => n < 0
    case Real(x) => x < 0.0
    case _ => false
  }

  /** The `maxMessages` in force lets the script go on: a non-negative integer or
      float, or a boolean. */
  predicate UsableLimit(config: Dict) {
    Lookup(config, "maxMessages").Some? &&
    match Lookup(config, "maxMessages").value
    case Number(n) => n >= 0
    case Real(x) => x >= 0.0
    case Flag(_) => true
    case _ => false
  }

  /** The limit check exits with -1 exactly on a negative limit, goes on unchanged
      exactly on a usable one, and otherwise raises for `maxMessages`. */
  lemma CheckMaxMessagesMeaning(config: Dict)
    ensures var r := CheckMaxMessages(config);
            && (r.Exit? <==> NegativeLimit(config))
            && (r.Exit? ==> r.code == -1)
            && (r.Ready? <==> UsableLimit(config))
            && (r.Ready? ==> r.config == config)
            && (r.Raised? ==> r.error == NotANumber("maxMessages"))
  {
  }

  /** The packaged script exits, always with -1, exactly when the number map is
      usable and the `maxMessages` in force after the overrides is negative; the
      only exceptions it raises come from a map that is not an object or a limit
      that is not a number. */
  lemma MainSettingsExit(home: string, file: Dict, args: Dict)
    ensures var config := MainMerged(home, file, args);
            var r := MainSettings(home, file, args);
            && (r.Exit? <==> SanitizeMapSetting(config).Ok? && NegativeLimit(config))
            && (r.Exit? ==> r.code == -1)
            && (r.Raised? ==> r.error == MapNotAnObject || r.error == NotANumber("maxMessages"))
  {
    var config := MainMerged(home, file, args);
    SanitizeMapSettingMeaning(config, "maxMessages");
    if SanitizeMapSetting(config).Ok? {
      CheckMaxMessagesMeaning(SanitizeMapSetting(config).value);
      assert NegativeLimit(SanitizeMapSetting(config).value) == NegativeLimit(config);
    }
  }

  /** A config file whose `maxMessages` is `-0.5` makes the packaged script exit, and
      one whose `maxMessages` is a JSON array makes it raise. */
  lemma FloatAndArrayLimits(home: string)
    ensures MainSettings(home, [("maxMessages", Real(-0.5))], []) == Exit(-1)
    ensures MainSettings(home, [("maxMessages", List([]))], []) == Raised(NotANumber("maxMessages"))
  {
    LimitFromFileAlone(home, Real(-0.5));
    LimitFromFileAlone(home, List([]));
  }

  /** With no options and a config file that sets only `maxMessages`, the check sees
      the file's value. */
  lemma LimitFromFileAlone(home: string, v: Value)
    ensures var merged := PutAll(MainDefaults(home), [("maxMessages", v)]);
            && Lookup(merged, "maxMessages") == Some(v)
            && MainSettings(home, [("maxMessages", v)], []) == CheckMaxMessages(merged)
  {
    var file := [("maxMessages", v)];
    var merged := PutAll(MainDefaults(home), file);
    assert Overrides([], false) == [];
    assert MainMerged(home, file, []) == merged;
    PutAllLookup(MainDefaults(home), file, "maxMessages");
    PutAllLookup(MainDefaults(home), file, "map");
    assert LastFor(file, "map").None?;
    DefaultsHaveNoMap(home);
    assert SanitizeMapSetting(merged) == Ok(merged);
  }

  lemma DefaultsHaveNoMap(home: string)
    ensures Lookup(MainDefaults(home), "map").None?
  {
  }

  /** When the packaged script goes on, `maxMessages` is a non-negative integer or
      float, or a boolean, and the number map is clean. */
  lemma MainSettingsReady(home: string, file: Dict, args: Dict)
    ensures var r := MainSettings(home, file, args);
            r.Ready? ==> UsableLimit(r.config) && CleanMap(r.config)
  {
    var config := MainMerged(home, file, args);
    SanitizeMapSettingMeaning(config, "maxMessages");
    if SanitizeMapSetting(config).Ok? {
      CheckMaxMessagesMeaning(SanitizeMapSetting(config).value);
    }
  }

  /** Every setting but the map is the last option given for it, else the config
      file's value, else the built-in default. */
  lemma MainSettingsPrecedence(home: string, file: Dict, args: Dict, k: string)
    requires k != "map"
    ensures var r := MainSettings(home, file, args);
            r.Ready? ==>
              Lookup(r.config, k) ==
                FirstOf(LastFor(Overrides(args, false), k), FirstOf(LastFor(file, k), Lookup(MainDefaults(home), k)))
  {
    var merged := PutAll(MainDefaults(home), file);
    PutAllLookup(merged, Overrides(args, false), k);
    PutAllLookup(MainDefaults(home), file, k);
    SanitizeMapSettingMeaning(MainMerged(home, file, args), k);
    if SanitizeMapSetting(MainMerged(home, file, args)).Ok? {
      CheckMaxMessagesMeaning(SanitizeMapSetting(MainMerged(home, file, args)).value);
    }
  }

  /** The legacy script never exits on its own; it raises only for an own number
      that is not a string or a map that is not an object, and when it goes on the
      own number (if any) and the map's numbers are clean. */
  lemma LegacySettingsMeaning(home: string, file: Dict, args: Dict)
    ensures var r := LegacySettings(home, file, args);
            && (r.Raised? ==> r.error == MapNotAnObject || r.error == NotAString("ownNumber"))
            && !r.Exit?
            && (r.Ready? && Lookup(r.config, "ownNumber").Some? ==>
                  Lookup(r.config, "ownNumber").value.Text? && Clean(Lookup(r.config, "ownNumber").value.s))
            && (r.Ready? ==> CleanMap(r.config))
  {
    var config := PutAll(PutAll(LegacyDefaults(home), file), Overrides(args, true));
    if SanitizeOwnNumber(config).Ok? {
      SanitizeMapSettingMeaning(SanitizeOwnNumber(config).value, "ownNumber");
    }
  }

  /** An empty `--own-number` is falsy: the legacy script keeps the configured value. */
  lemma EmptyOwnNumberIgnored(args: Dict)
    ensures Overrides([("own_number", Text(""))] + args, true) == Overrides(args, true)
  {
    assert ([("own_number", Text(""))] + args)[1..] == args;
  }
}
