/** The export driver of signal_media_exporter/main.py: `save_attachments` copies the
    image, video and audio attachments of one message into a directory per sender, and
    the loop in `main` runs it over every message with one shared deduplication table
    and adds up the counters. */
module MainScript {

  import opened Wrappers
  import opened Text
  import opened Paths
  import opened Naming
  import opened Dedup
  import Attachments

  /** How `os.utime` ends on a path: it sets the times, raises `PermissionError`, or
      raises any other `OSError`. */
  datatype Utime = TimesSet | PermissionDenied | OtherOSError

  /** What the driver learns from outside: Python's `hash()` on bytes, how `os.utime`
      ends on a path, and `strftime('%Y-%m-%d-%H%M%S')` of a message's `sent_at`
      milliseconds. */
  datatype Host = Host(quick: Bytes -> int, utime: Path -> Utime, stampOf: int -> string)

  /** The settings `save_attachments` reads; `numberMap` is `config['map']`, absent
      when the key is missing. */
  datatype Config = Config(signalDir: Path, outputDir: Path, numberMap: Option<map<string, string>>)

  /** A message as decoded from the database: each field may be missing from its JSON. */
  datatype Message = Message(sentAt: Option<int>, receivedAt: Option<int>, source: Option<string>,
                             kind: Option<string>, attachments: seq<Attachment>)

  /** Why `save_attachments` returned `None`: a `KeyError` whose key begins with `+` is
      logged as a number that is not mapped, any other key as a missing field. */
  datatype SkipCause = FieldMissing(key: string) | NumberNotMapped(number: string)

  /** Exceptions that leave `save_attachments`: a `KeyError` for an attachment without
      `contentType`, the `IsADirectoryError` of hashing a source that is a directory,
      and a failure of the shared store step: a recorded file that can no longer be
      opened, or an `os.utime` error other than `PermissionError`. */
  datatype SaveError = NoContentType(index: nat) | SourceIsDirectory(index: nat) | StoreError(cause: StoreError)

  datatype SaveOutcome = Saved(stats: Stats) | NotSaved(cause: SkipCause) | Crashed(error: SaveError)

  function KeyErrorCause(key: string): (r: SkipCause)
    ensures r.NumberNotMapped? <==> StartsWith(key, "+")
    ensures r.NumberNotMapped? ==> r.number == key
    ensures r.FieldMissing? ==> r.key == key
  {
    if StartsWith(key, "+") then NumberNotMapped(key) else FieldMissing(key)
  }

  /** The `try` block of `save_attachments`: read `sent_at`, `received_at` and
      `source`, then translate the number through the map when one is configured. */
  function SenderOf(config: Config, msg: Message): (r: Result<string, SkipCause>)
    ensures r.Ok? <==>
              && msg.sentAt.Some? && msg.receivedAt.Some? && msg.source.Some?
              && (config.numberMap.Some? ==> msg.source.value in config.numberMap.value)
    ensures r.Ok? && config.numberMap.None? ==> r.value == msg.source.value
    ensures r.Ok? && config.numberMap.Some? ==> r.value == config.numberMap.value[msg.source.value]
    ensures r.Err? && r.error.NumberNotMapped? ==>
              && msg.source == Some(r.error.number) && config.numberMap.Some?
              && r.error.number !in config.numberMap.value
  {
    if msg.sentAt.None? then Err(FieldMissing("sent_at"))
    else if msg.receivedAt.None? then Err(FieldMissing("received_at"))
    else if msg.source.None? then Err(FieldMissing("source"))
    else if config.numberMap.None? then Ok(msg.source.value)
    else if msg.source.value in config.numberMap.value then Ok(config.numberMap.value[msg.source.value])
    else Err(KeyErrorCause(msg.source.value))
  }

  /** The content types `save_attachments` exports, once lower-cased. */
  predicate IsMediaType(lowered: string) {
    StartsWith(lowered, "image/") || StartsWith(lowered, "video/") || StartsWith(lowered, "audio/")
  }

  /** The extension of an exported attachment: the second `/`-separated field of the
      lower-cased content type, or nothing when the type is not exported. */
  function MediaSubtype(ct: string): (r: Option<string>)
    ensures r.Some? <==> IsMediaType(Lower(ct))
    ensures r.Some? ==> '/' !in r.value
  {
    var lowered := Lower(ct);
    if IsMediaType(lowered) then
      assert lowered[5] == '/';
      Some(SplitOn(lowered, '/')[1])
    else None
  }

  /** For a content type `major/minor` with a media major type, the extension is the
      lower-cased minor type whole, parameters included (`audio/ogg; codecs=opus`
      gives `ogg; codecs=opus`). */
  lemma MediaSubtypeIsMinorType(major: string, minor: string)
    requires major == "image" || major == "video" || major == "audio"
    requires '/' !in minor
    ensures MediaSubtype(major + "/" + minor) == Some(Lower(minor))
  {
    var ct := major + "/" + minor;
    var lowered := Lower(minor);
    assert Lower(major) == major;
    assert Lower(ct) == major + "/" + lowered;
    forall k | 0 <= k < |lowered| ensures lowered[k] != '/' {
      assert minor[k] != '/';
    }
    assert StartsWith(Lower(ct), major + "/");
    assert JoinWith([lowered], '/') == lowered;
    assert JoinWith([major, lowered], '/') == major + "/" + lowered;
    SplitJoin([major, lowered], '/');
  }

  /** A content type outside the three media types is never exported. */
  lemma NonMediaTypeIsSkipped(ct: string)
    requires !StartsWith(Lower(ct), "image/") && !StartsWith(Lower(ct), "video/")
    requires !StartsWith(Lower(ct), "audio/")
    ensures MediaSubtype(ct) == None
  {
  }

  /** Each character of a string as a one-character string: `list += str(idx)`
      extends the name parts by the digits of the index, one part per digit. */
  function DigitParts(s: string): (r: seq<string>)
    ensures |r| == |s|
    ensures forall i :: 0 <= i < |s| ==> r[i] == [s[i]]
  {
    seq(|s|, i requires 0 <= i < |s| => [s[i]])
  }

  /** The file name `save_attachments` gives an attachment. */
  function MainName(stamp: string, siblingCount: nat, idx: nat, ext: string): string {
    JoinWith(["signal", stamp] + (if siblingCount > 1 then DigitParts(NatToString(idx)) else []), '-') + "." + ext
  }

  /** Every digit of the index is preceded by its own dash. */
  lemma {:induction false} PrefixedDigits(s: string)
    ensures |Prefixed(DigitParts(s), '-')| == 2 * |s|
    ensures forall k :: 0 <= k < |s| ==> Prefixed(DigitParts(s), '-')[2 * k] == '-'
    ensures forall k :: 0 <= k < |s| ==> Prefixed(DigitParts(s), '-')[2 * k + 1] == s[k]
    decreases |s|
  {
    if s != [] {
      PrefixedDigits(s[1..]);
      assert DigitParts(s)[1..] == DigitParts(s[1..]);
      var tail := Prefixed(DigitParts(s[1..]), '-');
      assert Prefixed(DigitParts(s), '-') == ['-', s[0]] + tail;
      forall k | 1 <= k < |s|
        ensures Prefixed(DigitParts(s), '-')[2 * k] == '-'
        ensures Prefixed(DigitParts(s), '-')[2 * k + 1] == s[k]
      {
        assert Prefixed(DigitParts(s), '-')[2 * k] == tail[2 * (k - 1)];
        assert Prefixed(DigitParts(s), '-')[2 * k + 1] == tail[2 * (k - 1) + 1];
      }
    }
  }

  lemma MainNameShape(stamp: string, siblingCount: nat, idx: nat, ext: string)
    ensures MainName(stamp, siblingCount, idx, ext) ==
            "signal-" + stamp + (if siblingCount > 1 then Prefixed(DigitParts(NatToString(idx)), '-') else "") + ("." + ext)
  {
    var digits := if siblingCount > 1 then DigitParts(NatToString(idx)) else [];
    var parts := ["signal", stamp] + digits;
    JoinWithAsPrefixed(parts, '-');
    assert parts[1..] == [stamp] + digits;
    PrefixedAppend([stamp], digits, '-');
    assert Prefixed([stamp], '-') == "-" + stamp;
    assert Prefixed([], '-') == "";
    assert "signal" + ("-" + stamp + Prefixed(digits, '-')) == "signal-" + stamp + Prefixed(digits, '-');
    assert "signal-" + stamp + Prefixed(digits, '-') + "." + ext == "signal-" + stamp + Prefixed(digits, '-') + ("." + ext);
  }

  /** For the first ten siblings the name is the one the exporter class builds with
      the extension `.` + subtype. */
  lemma MainNameMatchesExportName(stamp: string, siblingCount: nat, idx: nat, ext: string)
    requires idx < 10
    ensures MainName(stamp, siblingCount, idx, ext) == ExportName(stamp, siblingCount, idx, "." + ext)
  {
    MainNameShape(stamp, siblingCount, idx, ext);
    ExportNameShape(stamp, siblingCount, idx, "." + ext);
    var n := NatToString(idx);
    var middle := if siblingCount > 1 then "-" + n else "";
    if siblingCount > 1 {
      assert n == [n[0]];
      assert DigitParts(n) == [n];
      assert Prefixed([n], '-') == "-" + n;
    }
    assert MainName(stamp, siblingCount, idx, ext) == "signal-" + stamp + middle + ("." + ext);
    assert ExportName(stamp, siblingCount, idx, "." + ext) == "signal-" + stamp + middle + ("." + ext);
  }

  /** From the eleventh sibling on, every digit gets its own dash: index 12 is
      written `-1-2`. */
  lemma TwoDigitIndexIsSplit(stamp: string, ext: string)
    ensures MainName(stamp, 13, 12, ext) == "signal-" + stamp + "-1-2." + ext
  {
    MainNameShape(stamp, 13, 12, ext);
    assert NatToString(12) == "12";
    assert DigitParts("12") == ["1", "2"];
    assert Prefixed(["1", "2"], '-') == "-1-2";
  }

  /** The dashed digits still identify the index, so siblings of one type get
      different names. */
  lemma MainSiblingNamesDiffer(stamp: string, siblingCount: nat, i: nat, j: nat, ext: string)
    requires siblingCount > 1 && i != j
    ensures MainName(stamp, siblingCount, i, ext) != MainName(stamp, siblingCount, j, ext)
  {
    MainNameDeterminesIndex(stamp, siblingCount, i, j, ext);
  }

  lemma MainNameDeterminesIndex(stamp: string, siblingCount: nat, i: nat, j: nat, ext: string)
    requires siblingCount > 1
    ensures MainName(stamp, siblingCount, i, ext) == MainName(stamp, siblingCount, j, ext) ==> i == j
  {
    var si, sj := NatToString(i), NatToString(j);
    var di, dj := Prefixed(DigitParts(si), '-'), Prefixed(DigitParts(sj), '-');
    var head, tail := "signal-" + stamp, "." + ext;
    MainNameShape(stamp, siblingCount, i, ext);
    MainNameShape(stamp, siblingCount, j, ext);
    assert MainName(stamp, siblingCount, i, ext) == head + di + tail;
    assert MainName(stamp, siblingCount, j, ext) == head + dj + tail;
    MiddleCancels(head, di, dj, tail);
    if di == dj {
      DashedDigitsInjective(si, sj);
      NatToStringInjective(i, j);
    }
  }

  lemma DashedDigitsInjective(a: string, b: string)
    requires Prefixed(DigitParts(a), '-') == Prefixed(DigitParts(b), '-')
    ensures a == b
  {
    var d := Prefixed(DigitParts(a), '-');
    PrefixedDigits(a);
    PrefixedDigits(b);
    forall k | 0 <= k < |a| ensures a[k] == b[k] {
      assert d[2 * k + 1] == a[k];
    }
  }

  /** `os.path.join(*path.split('\\'))` when the path holds a backslash, as written by
      Signal Desktop on Windows; other paths are kept. */
  function LocalPath(p: Path): (r: Path)
    ensures '\\' !in r
    ensures '\\' !in p ==> r == p
  {
    if '\\' in p then
      var parts := SplitOn(p, '\\');
      JoinAllAddsNoBackslash(parts);
      JoinAll(parts)
    else p
  }

  /** Plain names separated by backslashes become the same names separated by `/`. */
  lemma {:induction false} BackslashesBecomeSlashes(parts: seq<string>)
    requires |parts| >= 2
    requires forall i :: 0 <= i < |parts| ==> parts[i] != "" && '\\' !in parts[i] && '/' !in parts[i]
    ensures LocalPath(JoinWith(parts, '\\')) == JoinWith(parts, '/')
  {
    SplitJoin(parts, '\\');
    var p := JoinWith(parts, '\\');
    assert '\\' in p by {
      JoinWithAsPrefixed(parts, '\\');
      assert p[|parts[0]|] == '\\';
    }
    JoinAllIsSlashJoin(parts);
  }

  lemma {:induction false} JoinAllIsSlashJoin(parts: seq<string>)
    requires |parts| >= 1
    requires forall i :: 0 <= i < |parts| ==> parts[i] != "" && '/' !in parts[i]
    ensures JoinAll(parts) == JoinWith(parts, '/')
    decreases |parts|
  {
    if |parts| > 1 {
      var init, last := parts[..|parts| - 1], parts[|parts| - 1];
      assert parts == init + [last];
      JoinAllIsSlashJoin(init);
      JoinWithSnoc(init, last, '/');
      var a := JoinWith(init, '/');
      JoinWithEndsLikeLast(init, '/');
      var before := init[|init| - 1];
      assert before[|before| - 1] in before;
      assert last[0] in last;
    }
  }

  function Destination(config: Config, sender: string, name: string): Path {
    Join(Join(config.outputDir, sender), name)
  }

  /** What one attachment of the loop does to the store and the counters, and the
      exception it raises, if any. */
  function SaveOne(config: Config, host: Host, sender: string, stamp: string, siblingCount: nat, idx: nat,
                   at: Attachment, st: Store)
    : (r: (Store, Stats, Option<SaveError>))
    ensures at.contentType.None? ==> r == (st, NoStats, Some(NoContentType(idx)))
    ensures at.contentType.Some? && (MediaSubtype(at.contentType.value).None? || Attachments.NotDownloaded(at)) ==>
              r == (st, NoStats, None)
    ensures at.contentType.Some? && MediaSubtype(at.contentType.value).Some? && !Attachments.NotDownloaded(at) ==>
              var src := Attachments.SourcePath(config.signalDir, LocalPath(at.path.value));
              var dst := Destination(config, sender, MainName(stamp, siblingCount, idx, MediaSubtype(at.contentType.value).value));
              && (src !in st.files && !IsDirectory(st.files, src) ==> r == (st, NoStats, None))
              && (src !in st.files && IsDirectory(st.files, src) ==> r == (st, NoStats, Some(SourceIsDirectory(idx))))
              && (src in st.files ==> r.1.attachments == 1 && r.1.attachmentsSize == |st.files[src]|)
              && (r.2 == Some(StoreError(TimesNotSet)) ==>
                    host.utime(dst) == OtherOSError && r.0.files == st.files[dst := st.files[src]])
  {
    match at.contentType
    case None => (st, NoStats, Some(NoContentType(idx)))
    case Some(ct) =>
      match MediaSubtype(ct)
      case None => (st, NoStats, None)
      case Some(ext) =>
        if Attachments.NotDownloaded(at) then (st, NoStats, None)
        else
          var src := Attachments.SourcePath(config.signalDir, LocalPath(at.path.value));
          var dst := Destination(config, sender, MainName(stamp, siblingCount, idx, ext));
          if src in st.files then SaveStore(st, host.quick, src, dst, host.utime(dst))
          else if IsDirectory(st.files, src) then (st, NoStats, Some(SourceIsDirectory(idx)))
          else (st, NoStats, None)
  }

  /** The store step of `save_attachments`, where a `PermissionError` from `os.utime`
      is ignored and any other `OSError` propagates. */
  function SaveStore(st: Store, h: Bytes -> int, src: Path, dst: Path, utime: Utime)
    : (Store, Stats, Option<SaveError>)
    requires src in st.files
  {
    var (outcome, st', added) := StoreSource(st, h, src, dst, utime == TimesSet, utime == OtherOSError);
    (st', added, if outcome.StoreFailed? then Some(StoreError(outcome.error)) else None)
  }

  /** A `PermissionError` from `os.utime` leaves the step exactly as if the times had
      been set; any other `OSError` raises exactly when the file was copied, leaving the
      copy on disk and its source unrecorded, and changes nothing otherwise. */
  lemma UtimeFailureKinds(st: Store, h: Bytes -> int, src: Path, dst: Path)
    requires src in st.files
    ensures SaveStore(st, h, src, dst, PermissionDenied) == SaveStore(st, h, src, dst, TimesSet)
    ensures var ok := SaveStore(st, h, src, dst, TimesSet);
            var failed := SaveStore(st, h, src, dst, OtherOSError);
            && (failed.2 == Some(StoreError(TimesNotSet)) <==> ok.1.savedAttachments == 1)
            && (failed.2 == Some(StoreError(TimesNotSet)) ==>
                  failed.0 == Store(ok.0.files, st.hashes) && failed.1.savedAttachments == 0)
            && (failed.2 != Some(StoreError(TimesNotSet)) ==> failed == ok)
  {
  }

  lemma SaveStoreKeepsRunInvariant(files0: Fs, st: Store, h: Bytes -> int, src: Path, dst: Path, utime: Utime)
    requires src in st.files && RunInvariant(files0, st.files, st.hashes, h)
    ensures var r := SaveStore(st, h, src, dst, utime);
            && Preserves(st.files, r.0.files)
            && (r.2.Some? ==> r.2 == Some(StoreError(TimesNotSet)) && utime == OtherOSError &&
                              CreatedDistinct(files0, r.0.files))
            && (r.2.None? ==>
                  RunInvariant(files0, r.0.files, r.0.hashes, h) &&
                  r.1.savedAttachments == |r.0.files.Keys - st.files.Keys|)
            && r.1.Bounded() && r.1.attachments <= 1
  {
    StoreKeepsRunInvariant(files0, st, h, src, dst, utime == TimesSet, utime == OtherOSError);
  }

  /** An exception raised by the shared store step; after the other steps of the model
      it can only be an `os.utime` failure. */
  predicate StoreCrash(e: Option<SaveError>) {
    e.Some? && e.value.StoreError?
  }

  /** Where the loop stands: the store, the counters so far, and the exception that
      stopped it. */
  datatype Progress = Progress(st: Store, stats: Stats, error: Option<SaveError>)

  /** One turn of the loop, on attachment `k`. */
  function Advance(config: Config, host: Host, sender: string, stamp: string, atts: seq<Attachment>,
                   k: nat, p: Progress): Progress
    requires k < |atts|
  {
    var r := SaveOne(config, host, sender, stamp, |atts|, k, atts[k], p.st);
    Progress(r.0, p.stats.Plus(r.1), r.2)
  }

  /** The loop from attachment `k` on, until the attachments run out or an exception
      is raised. */
  function SaveFrom(config: Config, host: Host, sender: string, stamp: string, atts: seq<Attachment>,
                    k: nat, p: Progress): Progress
    requires k <= |atts|
    decreases |atts| - k
  {
    if k == |atts| || p.error.Some? then p
    else SaveFrom(config, host, sender, stamp, atts, k + 1, Advance(config, host, sender, stamp, atts, k, p))
  }

  /** `save_attachments(config, hashes, id, msg)`: the outcome and the new store. */
  function SaveSpec(config: Config, host: Host, st: Store, msg: Message): (SaveOutcome, Store) {
    match SenderOf(config, msg)
    case Err(cause) => (NotSaved(cause), st)
    case Ok(sender) =>
      var p := SaveFrom(config, host, sender, host.stampOf(msg.sentAt.value), msg.attachments, 0, Progress(st, NoStats, None));
      (if p.error.Some? then Crashed(p.error.value) else Saved(p.stats), p.st)
  }

  /** One attachment never meets an unreadable recorded file and counts at most its
      own source; unless `os.utime` raised, it keeps the run invariant and saves exactly
      the file it creates, and if it did, the created files are still distinct. */
  lemma SaveOneKeepsRunInvariant(files0: Fs, config: Config, host: Host, sender: string, stamp: string,
                                 siblingCount: nat, idx: nat, at: Attachment, st: Store)
    requires RunInvariant(files0, st.files, st.hashes, host.quick)
    ensures var r := SaveOne(config, host, sender, stamp, siblingCount, idx, at, st);
            && Preserves(st.files, r.0.files)
            && (StoreCrash(r.2) ==> r.2.value.cause == TimesNotSet && CreatedDistinct(files0, r.0.files))
            && (!StoreCrash(r.2) ==>
                  RunInvariant(files0, r.0.files, r.0.hashes, host.quick) &&
                  r.1.savedAttachments == |r.0.files.Keys - st.files.Keys|)
            && r.1.Bounded() && r.1.attachments <= 1
  {
    var r := SaveOne(config, host, sender, stamp, siblingCount, idx, at, st);
    if at.contentType.Some? && MediaSubtype(at.contentType.value).Some? && !Attachments.NotDownloaded(at) {
      var ext := MediaSubtype(at.contentType.value).value;
      var src := Attachments.SourcePath(config.signalDir, LocalPath(at.path.value));
      var dst := Destination(config, sender, MainName(stamp, siblingCount, idx, ext));
      if src in st.files {
        assert r == SaveStore(st, host.quick, src, dst, host.utime(dst));
        SaveStoreKeepsRunInvariant(files0, st, host.quick, src, dst, host.utime(dst));
      } else {
        assert r.0 == st && r.1 == NoStats;
      }
    } else {
      assert r.0 == st && r.1 == NoStats;
    }
  }

  /** What the loop of `save_attachments` keeps after `k` attachments, for a run that
      started with `files0` and a message that started with `st0`: the files of `st0`
      unchanged and at most one source counted per attachment; unless `os.utime`
      raised, the run invariant and exactly the created files saved; if it did, created
      files that are still distinct. */
  ghost predicate LoopKept(files0: Fs, st0: Store, h: Bytes -> int, p: Progress, k: nat) {
    && Preserves(st0.files, p.st.files)
    && (StoreCrash(p.error) ==> p.error.value.cause == TimesNotSet && CreatedDistinct(files0, p.st.files))
    && (!StoreCrash(p.error) ==>
          RunInvariant(files0, p.st.files, p.st.hashes, h) &&
          p.stats.savedAttachments == |p.st.files.Keys - st0.files.Keys|)
    && p.stats.Bounded() && p.stats.attachments <= k
  }

  lemma AdvanceKeeps(files0: Fs, config: Config, host: Host, sender: string, stamp: string,
                     atts: seq<Attachment>, st0: Store, k: nat, p: Progress)
    requires k < |atts| && p.error.None? && LoopKept(files0, st0, host.quick, p, k)
    ensures LoopKept(files0, st0, host.quick, Advance(config, host, sender, stamp, atts, k, p), k + 1)
  {
    var r := SaveOne(config, host, sender, stamp, |atts|, k, atts[k], p.st);
    SaveOneKeepsRunInvariant(files0, config, host, sender, stamp, |atts|, k, atts[k], p.st);
    assert Advance(config, host, sender, stamp, atts, k, p) == Progress(r.0, p.stats.Plus(r.1), r.2);
    StepKeeps(files0, st0, host.quick, p, k, r);
  }

  /** Folding one attachment's outcome `r` into the loop keeps `LoopKept`. */
  lemma StepKeeps(files0: Fs, st0: Store, h: Bytes -> int, p: Progress, k: nat, r: (Store, Stats, Option<SaveError>))
    requires p.error.None? && LoopKept(files0, st0, h, p, k)
    requires Preserves(p.st.files, r.0.files)
    requires StoreCrash(r.2) ==> r.2.value.cause == TimesNotSet && CreatedDistinct(files0, r.0.files)
    requires !StoreCrash(r.2) ==>
               RunInvariant(files0, r.0.files, r.0.hashes, h) &&
               r.1.savedAttachments == |r.0.files.Keys - p.st.files.Keys|
    requires r.1.Bounded() && r.1.attachments <= 1
    ensures LoopKept(files0, st0, h, Progress(r.0, p.stats.Plus(r.1), r.2), k + 1)
  {
    assert Preserves(st0.files, r.0.files) by {
      forall q | q in st0.files ensures q in r.0.files && r.0.files[q] == st0.files[q] {
        assert q in p.st.files;
      }
    }
    if !StoreCrash(r.2) {
      CreatedAddsUp(st0.files.Keys, p.st.files.Keys, r.0.files.Keys);
    }
  }

  /** The loop never meets an unreadable recorded file and counts at most one source
      per attachment; unless `os.utime` raised, it keeps the run invariant and saves
      exactly the files it creates. */
  lemma {:induction false} SaveFromKeepsRunInvariant(files0: Fs, config: Config, host: Host, sender: string, stamp: string,
                                                     atts: seq<Attachment>, st0: Store, k: nat, p: Progress)
    requires k <= |atts| && LoopKept(files0, st0, host.quick, p, k)
    ensures LoopKept(files0, st0, host.quick, SaveFrom(config, host, sender, stamp, atts, k, p), |atts|)
    decreases |atts| - k
  {
    if k < |atts| && p.error.None? {
      AdvanceKeeps(files0, config, host, sender, stamp, atts, st0, k, p);
      SaveFromKeepsRunInvariant(files0, config, host, sender, stamp, atts, st0, k + 1,
                                Advance(config, host, sender, stamp, atts, k, p));
    }
  }

  /** `save_attachments` keeps the run invariant unless `os.utime` raised, and then
      still leaves the created files distinct; when it returns counters, they say how
      many files it created. */
  lemma SaveKeepsRunInvariant(files0: Fs, config: Config, host: Host, st: Store, msg: Message)
    requires RunInvariant(files0, st.files, st.hashes, host.quick)
    ensures var (outcome, st') := SaveSpec(config, host, st, msg);
            && (outcome.Crashed? && outcome.error.StoreError? ==>
                  outcome.error.cause == TimesNotSet && CreatedDistinct(files0, st'.files))
            && (outcome.NotSaved? ==> st' == st)
            && Preserves(st.files, st'.files)
            && (!(outcome.Crashed? && outcome.error.StoreError?) ==> RunInvariant(files0, st'.files, st'.hashes, host.quick))
            && (outcome.Saved? ==>
                  && outcome.stats.savedAttachments == |st'.files.Keys - st.files.Keys|
                  && outcome.stats.Bounded() && outcome.stats.attachments <= |msg.attachments|)
  {
    if SenderOf(config, msg).Ok? {
      SaveFromKeepsRunInvariant(files0, config, host, SenderOf(config, msg).value, host.stampOf(msg.sentAt.value),
                                msg.attachments, st, 0, Progress(st, NoStats, None));
    }
  }

  /** The body of the loop of `save_attachments` for attachment `idx`; each
      `continue` of the loop is a return here. */
  method SaveOneAttachment(config: Config, host: Host, disk: FileSystem, table: HashTable, sender: string,
                           stamp: string, siblingCount: nat, idx: nat, at: Attachment)
    returns (added: Stats, error: Option<SaveError>)
    modifies disk, table
    ensures (Store(disk.files, table.entries), added, error) ==
            SaveOne(config, host, sender, stamp, siblingCount, idx, at, old(Store(disk.files, table.entries)))
  {
    added, error := NoStats, None;
    if at.contentType.None? {
      return NoStats, Some(NoContentType(idx));
    }
    var ext := MediaSubtype(at.contentType.value);
    if ext.None? {
      return;
    }
    var name := MainName(stamp, siblingCount, idx, ext.value);

    if at.pending || at.path.None? || at.path.value == "" {
      return;
    }
    var src := Attachments.SourcePath(config.signalDir, LocalPath(at.path.value));
    var dst := Destination(config, sender, name);
    if src !in disk.files {
      if IsDirectory(disk.files, src) {
        error := Some(SourceIsDirectory(idx));
      }
      return;
    }

    var stored;
    var utime := host.utime(dst);
    stored, added := StoreFile(disk, table, host.quick, src, dst, utime == TimesSet, utime == OtherOSError);
    if stored.StoreFailed? {
      error := Some(StoreError(stored.error));
    }
  }

  /** `save_attachments(config, hashes, id, msg)` on the shared filesystem and the
      caller's table. */
  method SaveAttachments(config: Config, host: Host, disk: FileSystem, table: HashTable, msg: Message)
    returns (outcome: SaveOutcome)
    modifies disk, table
    ensures (outcome, Store(disk.files, table.entries)) == SaveSpec(config, host, old(Store(disk.files, table.entries)), msg)
  {
    var sender: string;
    match SenderOf(config, msg) {
      case Err(cause) =>
        return NotSaved(cause);
      case Ok(s) =>
        sender := s;
    }
    var stamp := host.stampOf(msg.sentAt.value);
    var atts := msg.attachments;
    ghost var start := Progress(Store(disk.files, table.entries), NoStats, None);
    var stats := NoStats;

    var idx := 0;
    while idx < |atts|
      invariant idx <= |atts|
      invariant SaveFrom(config, host, sender, stamp, atts, idx, Progress(Store(disk.files, table.entries), stats, None)) ==
                SaveFrom(config, host, sender, stamp, atts, 0, start)
    {
      ghost var before := Progress(Store(disk.files, table.entries), stats, None);
      var added, error := SaveOneAttachment(config, host, disk, table, sender, stamp, |atts|, idx, atts[idx]);
      stats := stats.Plus(added);
      ghost var after := Progress(Store(disk.files, table.entries), stats, error);
      assert Advance(config, host, sender, stamp, atts, idx, before) == after;
      if error.Some? {
        assert SaveFrom(config, host, sender, stamp, atts, idx + 1, after) == after;
        return Crashed(error.value);
      }
      idx := idx + 1;
    }
    return Saved(stats);
  }

  /** How `main` ends after the export loop: with the totals, with exit code -1 when
      no message returned counters, or with an exception from message `index`. */
  datatype RunOutcome = Finished(totals: Stats) | NoMediaMessages | RunCrashed(index: nat, error: SaveError)

  /** The loop of `main` over the first `k` messages: the store, the `stats`
      dictionary (`None` while it is still empty), and the exception that stopped it. */
  datatype RunProgress = RunProgress(st: Store, totals: Option<Stats>, crash: Option<(nat, SaveError)>)

  /** One turn of the loop of `main`, on message `k`: `stats[key] = stats.setdefault(key, 0) + value`
      for each counter of a message that returned counters. */
  function RunStep(config: Config, host: Host, msgs: seq<Message>, k: nat, p: RunProgress): RunProgress
    requires k < |msgs|
  {
    if p.crash.Some? then p else Accumulate(p, k, SaveSpec(config, host, p.st, msgs[k]))
  }

  /** Folds the outcome `s` of message `k` into the loop's state. */
  function Accumulate(p: RunProgress, k: nat, s: (SaveOutcome, Store)): RunProgress {
    match s.0
    case Saved(added) => RunProgress(s.1, Some(p.totals.GetOr(NoStats).Plus(added)), None)
    case NotSaved(_) => RunProgress(s.1, p.totals, None)
    case Crashed(e) => RunProgress(s.1, p.totals, Some((k, e)))
  }

  /** The loop of `main` over the first `k` messages, starting from a fresh table. */
  function RunUpTo(config: Config, host: Host, files: Fs, msgs: seq<Message>, k: nat): RunProgress
    requires k <= |msgs|
  {
    if k == 0 then RunProgress(Store(files, map[]), None, None)
    else RunStep(config, host, msgs, k - 1, RunUpTo(config, host, files, msgs, k - 1))
  }

  function RunSpec(config: Config, host: Host, files: Fs, msgs: seq<Message>): (RunOutcome, Fs) {
    var p := RunUpTo(config, host, files, msgs, |msgs|);
    var outcome :=
      if p.crash.Some? then RunCrashed(p.crash.value.0, p.crash.value.1)
      else if p.totals.None? then NoMediaMessages
      else Finished(p.totals.value);
    (outcome, p.st.files)
  }

  /** The outcome of message `i` in the loop. */
  function OutcomeAt(config: Config, host: Host, files: Fs, msgs: seq<Message>, i: nat): SaveOutcome
    requires i < |msgs|
  {
    SaveSpec(config, host, RunUpTo(config, host, files, msgs, i).st, msgs[i]).0
  }

  /** What the loop of `main` keeps after `k` messages of a run that started with
      `files`: the run invariant unless `os.utime` raised, and distinct created files if
      it did; an exception from an earlier message; and totals that count exactly the
      files created, never more saved than seen. */
  ghost predicate RunKept(files: Fs, h: Bytes -> int, p: RunProgress, k: nat) {
    && (p.crash.Some? && p.crash.value.1.StoreError? ==>
          p.crash.value.1.cause == TimesNotSet && CreatedDistinct(files, p.st.files))
    && (!(p.crash.Some? && p.crash.value.1.StoreError?) ==> RunInvariant(files, p.st.files, p.st.hashes, h))
    && (p.crash.Some? ==> p.crash.value.0 < k)
    && (p.crash.None? && p.totals.Some? ==>
          p.totals.value.savedAttachments == |p.st.files.Keys - files.Keys| && p.totals.value.Bounded())
  }

  lemma RunStepKeeps(config: Config, host: Host, files: Fs, msgs: seq<Message>, k: nat, p: RunProgress)
    requires k < |msgs| && RunKept(files, host.quick, p, k)
    requires p.crash.None? && p.totals.None? ==> p.st.files == files
    ensures RunKept(files, host.quick, RunStep(config, host, msgs, k, p), k + 1)
  {
    if p.crash.None? {
      SaveKeepsRunInvariant(files, config, host, p.st, msgs[k]);
      AccumulateKeeps(files, host.quick, p, k, SaveSpec(config, host, p.st, msgs[k]));
    }
  }

  lemma AccumulateKeeps(files: Fs, h: Bytes -> int, p: RunProgress, k: nat, s: (SaveOutcome, Store))
    requires p.crash.None? && RunKept(files, h, p, k)
    requires p.totals.None? ==> p.st.files == files
    requires s.0.Crashed? && s.0.error.StoreError? ==> s.0.error.cause == TimesNotSet && CreatedDistinct(files, s.1.files)
    requires !(s.0.Crashed? && s.0.error.StoreError?) ==> RunInvariant(files, s.1.files, s.1.hashes, h)
    requires s.0.NotSaved? ==> s.1 == p.st
    requires Preserves(p.st.files, s.1.files)
    requires s.0.Saved? ==> s.0.stats.savedAttachments == |s.1.files.Keys - p.st.files.Keys| && s.0.stats.Bounded()
    ensures RunKept(files, h, Accumulate(p, k, s), k + 1)
  {
    assert files.Keys <= p.st.files.Keys <= s.1.files.Keys;
    CreatedAddsUp(files.Keys, p.st.files.Keys, s.1.files.Keys);
    if s.0.Saved? && p.totals.None? {
      assert p.st.files.Keys - files.Keys == {};
    }
  }

  /** Until some message returns counters, the `stats` dictionary stays empty and no
      file is created; it is empty after the loop exactly when no message returned
      counters. */
  lemma {:induction false} EmptyStatsMeansNothingSaved(config: Config, host: Host, files: Fs, msgs: seq<Message>, k: nat)
    requires k <= |msgs|
    ensures var p := RunUpTo(config, host, files, msgs, k);
            && (p.crash.None? && p.totals.None? ==> p.st.files == files)
            && (p.crash.None? ==>
                  (p.totals.None? <==> forall i :: 0 <= i < k ==> !OutcomeAt(config, host, files, msgs, i).Saved?))
    decreases k
  {
    if k > 0 {
      EmptyStatsMeansNothingSaved(config, host, files, msgs, k - 1);
      var p := RunUpTo(config, host, files, msgs, k - 1);
      assert OutcomeAt(config, host, files, msgs, k - 1) == SaveSpec(config, host, p.st, msgs[k - 1]).0;
    }
  }

  /** Over the whole loop no recorded file is ever unreadable, the run invariant holds
      until an `os.utime` failure ends it, and the totals count exactly the files
      created. */
  lemma {:induction false} RunUpToKeepsRunInvariant(config: Config, host: Host, files: Fs, msgs: seq<Message>, k: nat)
    requires k <= |msgs|
    ensures RunKept(files, host.quick, RunUpTo(config, host, files, msgs, k), k)
    decreases k
  {
    if k == 0 {
      ConsistentAtStart(files, host.quick);
    } else {
      RunUpToKeepsRunInvariant(config, host, files, msgs, k - 1);
      EmptyStatsMeansNothingSaved(config, host, files, msgs, k - 1);
      RunStepKeeps(config, host, files, msgs, k - 1, RunUpTo(config, host, files, msgs, k - 1));
    }
  }

  /** `main` from the creation of the table to the end of the loop, on the shared
      filesystem. */
  method ExportAll(config: Config, host: Host, disk: FileSystem, msgs: seq<Message>) returns (r: RunOutcome)
    modifies disk
    ensures (r, disk.files) == RunSpec(config, host, old(disk.files), msgs)
  {
    var table := new HashTable();
    ghost var files0 := disk.files;
    var totals: Option<Stats> := None;
    var i := 0;
    while i < |msgs|
      invariant i <= |msgs|
      invariant RunUpTo(config, host, files0, msgs, i) == RunProgress(Store(disk.files, table.entries), totals, None)
    {
      ghost var before := RunProgress(Store(disk.files, table.entries), totals, None);
      var outcome := SaveAttachments(config, host, disk, table, msgs[i]);
      ghost var after := RunStep(config, host, msgs, i, before);
      if outcome.Crashed? {
        assert after == RunProgress(Store(disk.files, table.entries), totals, Some((i, outcome.error)));
        CrashStops(config, host, files0, msgs, i + 1, |msgs|);
        return RunCrashed(i, outcome.error);
      }
      if outcome.Saved? {
        totals := Some(totals.GetOr(NoStats).Plus(outcome.stats));
      }
      assert after == RunProgress(Store(disk.files, table.entries), totals, None);
      i := i + 1;
    }
    if totals.None? {
      return NoMediaMessages;
    }
    return Finished(totals.value);
  }

  lemma {:induction false} CrashStops(config: Config, host: Host, files: Fs, msgs: seq<Message>, k: nat, m: nat)
    requires k <= m <= |msgs|
    requires RunUpTo(config, host, files, msgs, k).crash.Some?
    ensures RunUpTo(config, host, files, msgs, m) == RunUpTo(config, host, files, msgs, k)
    decreases m - k
  {
    if k < m {
      CrashStops(config, host, files, msgs, k, m - 1);
    }
  }

  /** The run as a whole: files that existed keep their bytes and no two files it
      created are identical; an export that finishes reports exactly the files it
      created; it ends with exit code -1 exactly when no message returned counters;
      and the only exceptions it can end with are a missing content type, a source that
      is a directory, and an `os.utime` error other than `PermissionError`. */
  lemma RunOutcomeMeaning(config: Config, host: Host, files: Fs, msgs: seq<Message>)
    ensures var (outcome, files') := RunSpec(config, host, files, msgs);
            && Preserves(files, files')
            && (forall w1, w2 :: w1 in files'.Keys - files.Keys && w2 in files'.Keys - files.Keys && w1 != w2 ==>
                  files'[w1] != files'[w2])
            && (outcome.RunCrashed? ==>
                  (outcome.error.NoContentType? || outcome.error.SourceIsDirectory? ||
                   outcome.error == StoreError(TimesNotSet)) && outcome.index < |msgs|)
            && (outcome.Finished? ==>
                  outcome.totals.savedAttachments == |files'.Keys - files.Keys| && outcome.totals.Bounded())
            && (!outcome.RunCrashed? ==>
                  (outcome == NoMediaMessages <==>
                     forall i :: 0 <= i < |msgs| ==> !OutcomeAt(config, host, files, msgs, i).Saved?))
  {
    RunUpToKeepsRunInvariant(config, host, files, msgs, |msgs|);
    EmptyStatsMeansNothingSaved(config, host, files, msgs, |msgs|);
  }
}
