/** The first, stand-alone script export.py: its `save_attachments` names every
    attachment of a message after the message alone, falls back to the configured own
    number as the sender of outgoing messages, has no check for pending downloads, and
    lets a failing `os.utime` escape. */
module Legacy {

  import opened Wrappers
  import opened Text
  import opened Paths
  import opened Naming
  import opened Dedup
  import Attachments
  import MainScript

  /** The settings the legacy `save_attachments` reads: `ownNumber` and `map` may be
      missing. */
  datatype LegacyConfig = LegacyConfig(signalDir: Path, outputDir: Path, ownNumber: Option<string>,
                                       numberMap: Option<map<string, string>>)

  /** The three ways the `KeyError` handler words its skip. */
  datatype SkipCause = OwnNumberNotSet | NumberNotMapped(number: string) | FieldMissing(key: string)

  /** Who `sender` is after the `try` block: a name, or no value at all when the
      message has neither `source` nor type `outgoing`. */
  datatype Sender = Bound(name: string) | Unbound

  /** Exceptions that leave the legacy `save_attachments`: an attachment without
      `contentType` or `path`, a use of the unassigned `sender`, or a failure of the
      shared store step (including `os.utime`). */
  datatype SaveError =
    NoContentType(index: nat) | NoPath(index: nat) | SenderUnbound | SourceIsDirectory(index: nat) | StoreError(cause: StoreError)

  datatype Refusal = Skip(cause: SkipCause) | Raise(error: SaveError)

  datatype SaveOutcome = Saved(stats: Stats) | NotSaved(cause: SkipCause) | Crashed(error: SaveError)

  /** The handler tests the key for `ownNumber` first, then for a leading `+`. */
  function KeyErrorCause(key: string): (r: SkipCause)
    ensures r == OwnNumberNotSet <==> key == "ownNumber"
    ensures r.NumberNotMapped? <==> key != "ownNumber" && StartsWith(key, "+")
    ensures r.NumberNotMapped? ==> r.number == key
    ensures r.FieldMissing? ==> r.key == key
  {
    if key == "ownNumber" then OwnNumberNotSet
    else if StartsWith(key, "+") then NumberNotMapped(key)
    else FieldMissing(key)
  }

  /** The `try` block: `sent_at`, `received_at`, then `source`, or `ownNumber` for an
      outgoing message, then the map. Looking up an unassigned `sender` in the map
      raises an error the `KeyError` handler does not catch. */
  function SenderOf(config: LegacyConfig, msg: MainScript.Message): (r: Result<Sender, Refusal>)
    ensures r.Ok? && r.value.Bound? <==>
              && msg.sentAt.Some? && msg.receivedAt.Some?
              && (msg.source.Some? || (msg.kind == Some("outgoing") && config.ownNumber.Some?))
              && (config.numberMap.Some? ==> Number(config, msg) in config.numberMap.value)
    ensures r.Ok? && r.value.Bound? ==>
              r.value.name == if config.numberMap.Some? then config.numberMap.value[Number(config, msg)]
                              else Number(config, msg)
    ensures r == Ok(Unbound) <==>
              && msg.sentAt.Some? && msg.receivedAt.Some? && msg.source.None? && msg.kind.Some?
              && msg.kind.value != "outgoing" && config.numberMap.None?
    ensures r == Err(Raise(SenderUnbound)) <==>
              && msg.sentAt.Some? && msg.receivedAt.Some? && msg.source.None? && msg.kind.Some?
              && msg.kind.value != "outgoing" && config.numberMap.Some?
    ensures r.Err? && r.error.Raise? ==> r.error.error == SenderUnbound
    ensures (msg.sentAt.Some? && msg.receivedAt.Some? && msg.source.None? && msg.kind == Some("outgoing") &&
             config.ownNumber.None?) ==> r == Err(Skip(OwnNumberNotSet))
    ensures r.Err? && r.error.Skip? && r.error.cause.NumberNotMapped? ==>
              config.numberMap.Some? && r.error.cause.number !in config.numberMap.value &&
              StartsWith(r.error.cause.number, "+")
  {
    if msg.sentAt.None? then Err(Skip(FieldMissing("sent_at")))
    else if msg.receivedAt.None? then Err(Skip(FieldMissing("received_at")))
    else
      var found: Result<Sender, Refusal> :=
        if msg.source.Some? then Ok(Bound(msg.source.value))
        else if msg.kind.None? then Err(Skip(FieldMissing("type")))
        else if msg.kind.value != "outgoing" then Ok(Unbound)
        else if config.ownNumber.None? then Err(Skip(KeyErrorCause("ownNumber")))
        else Ok(Bound(config.ownNumber.value));
      if found.Err? || config.numberMap.None? then found
      else if found.value.Unbound? then Err(Raise(SenderUnbound))
      else if found.value.name in config.numberMap.value then Ok(Bound(config.numberMap.value[found.value.name]))
      else Err(Skip(KeyErrorCause(found.value.name)))
  }

  /** The number the sender is looked up by: `source`, else the own number. */
  function Number(config: LegacyConfig, msg: MainScript.Message): string {
    if msg.source.Some? then msg.source.value
    else if config.ownNumber.Some? then config.ownNumber.value
    else ""
  }

  /** `'signal-{}.{}'.format(sent.strftime(...), ext)`: no sibling index. */
  function LegacyName(stamp: string, ext: string): string {
    "signal-" + stamp + "." + ext
  }

  function LegacyDestination(config: LegacyConfig, sender: string, stamp: string, ext: string): Path {
    Join(Join(config.outputDir, sender), LegacyName(stamp, ext))
  }

  /** What one attachment of the loop does to the store and the counters, and the
      exception it raises, if any. */
  function SaveOne(config: LegacyConfig, host: MainScript.Host, sender: Sender, stamp: string, idx: nat,
                   at: Attachment, st: Store)
    : (r: (Store, Stats, Option<SaveError>))
    ensures at.contentType.None? ==> r == (st, NoStats, Some(NoContentType(idx)))
    ensures at.contentType.Some? && MainScript.MediaSubtype(at.contentType.value).None? ==> r == (st, NoStats, None)
    ensures at.contentType.Some? && MainScript.MediaSubtype(at.contentType.value).Some? ==>
              && (at.path.None? ==> r == (st, NoStats, Some(NoPath(idx))))
              && (at.path.Some? && sender.Unbound? ==> r == (st, NoStats, Some(SenderUnbound)))
              && (at.path.Some? && sender.Bound? ==>
                    var src := Attachments.SourcePath(config.signalDir, at.path.value);
                    && (src !in st.files && !IsDirectory(st.files, src) ==> r == (st, NoStats, None))
                    && (src !in st.files && IsDirectory(st.files, src) ==>
                          r == (st, NoStats, Some(SourceIsDirectory(idx))))
                    && (src in st.files ==> r.1.attachments == 1 && r.1.attachmentsSize == |st.files[src]|))
  {
    match at.contentType
    case None => (st, NoStats, Some(NoContentType(idx)))
    case Some(ct) =>
      match MainScript.MediaSubtype(ct)
      case None => (st, NoStats, None)
      case Some(ext) =>
        if at.path.None? then (st, NoStats, Some(NoPath(idx)))
        else if sender.Unbound? then (st, NoStats, Some(SenderUnbound))
        else
          var src := Attachments.SourcePath(config.signalDir, at.path.value);
          var dst := LegacyDestination(config, sender.name, stamp, ext);
          if src in st.files then SaveStore(st, host.quick, src, dst, host.utime(dst) == MainScript.TimesSet)
          else if IsDirectory(st.files, src) then (st, NoStats, Some(SourceIsDirectory(idx)))
          else (st, NoStats, None)
  }

  /** An empty `path` names the attachment directory itself. Once any attachment was
      downloaded that directory exists, so the attachment passes the existence check
      and hashing it raises `IsADirectoryError`. */
  lemma EmptyPathHitsAttachmentDirectory(config: LegacyConfig, host: MainScript.Host, sender: string, stamp: string,
                                         idx: nat, at: Attachment, st: Store, stored: Path)
    requires at.contentType.Some? && MainScript.MediaSubtype(at.contentType.value).Some? && at.path == Some("")
    requires stored in st.files && StartsWith(stored, Join(config.signalDir, "attachments.noindex") + "/")
    requires Attachments.SourcePath(config.signalDir, "") !in st.files
    ensures SaveOne(config, host, Bound(sender), stamp, idx, at, st) == (st, NoStats, Some(SourceIsDirectory(idx)))
  {
    var dir := Join(config.signalDir, "attachments.noindex");
    assert dir[|dir| - 1] == 'x';
    var src := Attachments.SourcePath(config.signalDir, "");
    assert src == dir + "/" && src[..|src| - 1] == dir;
    assert StripTrailingSlashes(src) == dir;
  }

  /** The store step, where a failing `os.utime` propagates. */
  function SaveStore(st: Store, h: Bytes -> int, src: Path, dst: Path, timesSettable: bool)
    : (r: (Store, Stats, Option<SaveError>))
    requires src in st.files
    ensures r.2.Some? ==> r.2.value.StoreError?
  {
    var (outcome, st', added) := StoreSource(st, h, src, dst, timesSettable, true);
    (st', added, if outcome.StoreFailed? then Some(StoreError(outcome.error)) else None)
  }

  lemma SaveStoreKeepsRunInvariant(files0: Fs, st: Store, h: Bytes -> int, src: Path, dst: Path, timesSettable: bool)
    requires src in st.files && RunInvariant(files0, st.files, st.hashes, h)
    ensures var r := SaveStore(st, h, src, dst, timesSettable);
            && (r.2.Some? ==> r.2.value == StoreError(TimesNotSet))
            && Preserves(st.files, r.0.files)
            && (r.2.None? ==>
                  && RunInvariant(files0, r.0.files, r.0.hashes, h)
                  && r.1.savedAttachments == |r.0.files.Keys - st.files.Keys|)
            && r.1.Bounded() && r.1.attachments == 1
  {
    StoreKeepsRunInvariant(files0, st, h, src, dst, timesSettable, true);
  }

  /** The legacy script has no pending check: whether the download is pending makes
      no difference to what it does with an attachment. */
  lemma PendingIsIgnored(config: LegacyConfig, host: MainScript.Host, sender: Sender, stamp: string, idx: nat,
                         at: Attachment, st: Store)
    ensures SaveOne(config, host, sender, stamp, idx, at.(pending := !at.pending), st) ==
            SaveOne(config, host, sender, stamp, idx, at, st)
  {
  }

  /** The name depends on the message alone, so attachments of one message with the
      same media subtype share one destination. */
  lemma SiblingsShareDestination(config: LegacyConfig, sender: string, stamp: string, a: Attachment, b: Attachment)
    requires a.contentType.Some? && b.contentType.Some?
    requires MainScript.MediaSubtype(a.contentType.value).Some?
    requires MainScript.MediaSubtype(a.contentType.value) == MainScript.MediaSubtype(b.contentType.value)
    ensures var ext := MainScript.MediaSubtype(a.contentType.value).value;
            LegacyDestination(config, sender, stamp, ext) == LegacyDestination(config, sender, stamp, MainScript.MediaSubtype(b.contentType.value).value)
  {
  }

  /** Once the first of such siblings is at the shared destination, a later one is
      never written: it is dropped as identical, or recorded as already present with
      its own bytes lost. */
  lemma LaterSiblingNotWritten(config: LegacyConfig, host: MainScript.Host, sender: string, stamp: string, idx: nat,
                               at: Attachment, st: Store)
    requires at.contentType.Some? && MainScript.MediaSubtype(at.contentType.value).Some?
    requires PathExists(st.files, LegacyDestination(config, sender, stamp, MainScript.MediaSubtype(at.contentType.value).value))
    ensures var r := SaveOne(config, host, Bound(sender), stamp, idx, at, st);
            r.0.files == st.files && r.1.savedAttachments == 0
  {
  }

  /** Where the loop stands: the store, the counters so far, and the exception that
      stopped it. */
  datatype Progress = Progress(st: Store, stats: Stats, error: Option<SaveError>)

  function Advance(config: LegacyConfig, host: MainScript.Host, sender: Sender, stamp: string,
                   atts: seq<Attachment>, k: nat, p: Progress): Progress
    requires k < |atts|
  {
    var r := SaveOne(config, host, sender, stamp, k, atts[k], p.st);
    Progress(r.0, p.stats.Plus(r.1), r.2)
  }

  function SaveFrom(config: LegacyConfig, host: MainScript.Host, sender: Sender, stamp: string,
                    atts: seq<Attachment>, k: nat, p: Progress): Progress
    requires k <= |atts|
    decreases |atts| - k
  {
    if k == |atts| || p.error.Some? then p
    else SaveFrom(config, host, sender, stamp, atts, k + 1, Advance(config, host, sender, stamp, atts, k, p))
  }

  /** The legacy `save_attachments(config, hashes, id, msg)`: the outcome and the new
      store. */
  function SaveSpec(config: LegacyConfig, host: MainScript.Host, st: Store, msg: MainScript.Message)
    : (SaveOutcome, Store)
  {
    match SenderOf(config, msg)
    case Err(Skip(cause)) => (NotSaved(cause), st)
    case Err(Raise(e)) => (Crashed(e), st)
    case Ok(sender) =>
      var p := SaveFrom(config, host, sender, host.stampOf(msg.sentAt.value), msg.attachments, 0,
                        Progress(st, NoStats, None));
      (if p.error.Some? then Crashed(p.error.value) else Saved(p.stats), p.st)
  }

  /** What the loop keeps after `k` attachments: files that existed keep their bytes,
      a recorded file that cannot be read is never met, and unless `os.utime` failed
      the run invariant holds and the counters say how many files were created. */
  ghost predicate LoopKept(files0: Fs, st0: Store, h: Bytes -> int, p: Progress, k: nat) {
    && Preserves(st0.files, p.st.files)
    && !(p.error.Some? && p.error.value.StoreError? && p.error.value.cause.RecordedFileUnreadable?)
    && (p.error != Some(StoreError(TimesNotSet)) ==>
          && RunInvariant(files0, p.st.files, p.st.hashes, h)
          && p.stats.savedAttachments == |p.st.files.Keys - st0.files.Keys|
          && p.stats.Bounded() && p.stats.attachments <= k)
  }

  lemma SaveOneKeeps(files0: Fs, config: LegacyConfig, host: MainScript.Host, sender: Sender, stamp: string,
                     idx: nat, at: Attachment, st: Store)
    requires RunInvariant(files0, st.files, st.hashes, host.quick)
    ensures var r := SaveOne(config, host, sender, stamp, idx, at, st);
            && Preserves(st.files, r.0.files)
            && !(r.2.Some? && r.2.value.StoreError? && r.2.value.cause.RecordedFileUnreadable?)
            && (r.2 != Some(StoreError(TimesNotSet)) ==>
                  && RunInvariant(files0, r.0.files, r.0.hashes, host.quick)
                  && r.1.savedAttachments == |r.0.files.Keys - st.files.Keys|
                  && r.1.Bounded() && r.1.attachments <= 1)
  {
    var r := SaveOne(config, host, sender, stamp, idx, at, st);
    if at.contentType.Some? && MainScript.MediaSubtype(at.contentType.value).Some? && at.path.Some? && sender.Bound? {
      var ext := MainScript.MediaSubtype(at.contentType.value).value;
      var src := Attachments.SourcePath(config.signalDir, at.path.value);
      var dst := LegacyDestination(config, sender.name, stamp, ext);
      if src in st.files {
        assert r == SaveStore(st, host.quick, src, dst, host.utime(dst) == MainScript.TimesSet);
        SaveStoreKeepsRunInvariant(files0, st, host.quick, src, dst, host.utime(dst) == MainScript.TimesSet);
      } else {
        assert r.0 == st && r.1 == NoStats;
      }
    } else {
      assert r.0 == st && r.1 == NoStats;
    }
  }

  lemma AdvanceKeeps(files0: Fs, config: LegacyConfig, host: MainScript.Host, sender: Sender, stamp: string,
                     atts: seq<Attachment>, st0: Store, k: nat, p: Progress)
    requires k < |atts| && p.error.None? && LoopKept(files0, st0, host.quick, p, k)
    ensures LoopKept(files0, st0, host.quick, Advance(config, host, sender, stamp, atts, k, p), k + 1)
  {
    var r := SaveOne(config, host, sender, stamp, k, atts[k], p.st);
    SaveOneKeeps(files0, config, host, sender, stamp, k, atts[k], p.st);
    assert Preserves(st0.files, r.0.files);
    if r.2 != Some(StoreError(TimesNotSet)) {
      CreatedAddsUp(st0.files.Keys, p.st.files.Keys, r.0.files.Keys);
    }
    assert Advance(config, host, sender, stamp, atts, k, p) == Progress(r.0, p.stats.Plus(r.1), r.2);
  }

  lemma {:induction false} SaveFromKeeps(files0: Fs, config: LegacyConfig, host: MainScript.Host, sender: Sender,
                                         stamp: string, atts: seq<Attachment>, st0: Store, k: nat, p: Progress)
    requires k <= |atts| && LoopKept(files0, st0, host.quick, p, k)
    ensures LoopKept(files0, st0, host.quick, SaveFrom(config, host, sender, stamp, atts, k, p), |atts|)
    decreases |atts| - k
  {
    if k < |atts| && p.error.None? {
      AdvanceKeeps(files0, config, host, sender, stamp, atts, st0, k, p);
      SaveFromKeeps(files0, config, host, sender, stamp, atts, st0, k + 1, Advance(config, host, sender, stamp, atts, k, p));
    }
  }

  /** The legacy `save_attachments` never changes a file that existed and never
      meets an unreadable recorded file; a skipped message changes nothing; and
      unless `os.utime` failed it keeps the run invariant and its counters say how
      many files it created. */
  lemma SaveKeepsRunInvariant(files0: Fs, config: LegacyConfig, host: MainScript.Host, st: Store, msg: MainScript.Message)
    requires RunInvariant(files0, st.files, st.hashes, host.quick)
    ensures var (outcome, st') := SaveSpec(config, host, st, msg);
            && Preserves(st.files, st'.files)
            && !(outcome.Crashed? && outcome.error.StoreError? && outcome.error.cause.RecordedFileUnreadable?)
            && (outcome.NotSaved? ==> st' == st)
            && (outcome != Crashed(StoreError(TimesNotSet)) ==> RunInvariant(files0, st'.files, st'.hashes, host.quick))
            && (outcome.Saved? ==>
                  && outcome.stats.savedAttachments == |st'.files.Keys - st.files.Keys|
                  && outcome.stats.Bounded() && outcome.stats.attachments <= |msg.attachments|)
  {
    if SenderOf(config, msg).Ok? {
      SaveFromKeeps(files0, config, host, SenderOf(config, msg).value, host.stampOf(msg.sentAt.value),
                    msg.attachments, st, 0, Progress(st, NoStats, None));
    }
  }

  /** A message that is neither from a known `source` nor outgoing, with no map
      configured, stops at its first media attachment `i`: with `KeyError` when that
      attachment has no `path`, otherwise with `UnboundLocalError`. The attachments
      before it change neither the store nor the counters. */
  lemma {:induction false} UnboundSenderCrashesAtFirstMedia(config: LegacyConfig, host: MainScript.Host, stamp: string,
                                                            atts: seq<Attachment>, k: nat, i: nat, p: Progress)
    requires k <= i < |atts| && p.error.None?
    requires forall j :: k <= j <= i ==> atts[j].contentType.Some?
    requires forall j :: k <= j < i ==> MainScript.MediaSubtype(atts[j].contentType.value).None?
    requires MainScript.MediaSubtype(atts[i].contentType.value).Some?
    ensures SaveFrom(config, host, Unbound, stamp, atts, k, p) ==
            Progress(p.st, p.stats, Some(if atts[i].path.None? then NoPath(i) else SenderUnbound))
    decreases i - k
  {
    var next := Advance(config, host, Unbound, stamp, atts, k, p);
    assert next.st == p.st && next.stats == p.stats;
    if k < i {
      assert next.error.None?;
      UnboundSenderCrashesAtFirstMedia(config, host, stamp, atts, k + 1, i, next);
    }
  }

  /** The body of the loop for attachment `idx`; each `continue` is a return here. */
  method SaveOneAttachment(config: LegacyConfig, host: MainScript.Host, disk: FileSystem, table: HashTable,
                           sender: Sender, stamp: string, idx: nat, at: Attachment)
    returns (added: Stats, error: Option<SaveError>)
    modifies disk, table
    ensures (Store(disk.files, table.entries), added, error) ==
            SaveOne(config, host, sender, stamp, idx, at, old(Store(disk.files, table.entries)))
  {
    added, error := NoStats, None;
    if at.contentType.None? {
      return NoStats, Some(NoContentType(idx));
    }
    var ext := MainScript.MediaSubtype(at.contentType.value);
    if ext.None? {
      return;
    }
    var name := LegacyName(stamp, ext.value);
    if at.path.None? {
      return NoStats, Some(NoPath(idx));
    }
    var src := Attachments.SourcePath(config.signalDir, at.path.value);
    if sender.Unbound? {
      return NoStats, Some(SenderUnbound);
    }
    var dst := Join(Join(config.outputDir, sender.name), name);
    if src !in disk.files {
      if IsDirectory(disk.files, src) {
        error := Some(SourceIsDirectory(idx));
      }
      return;
    }

    var stored;
    stored, added := StoreFile(disk, table, host.quick, src, dst, host.utime(dst) == MainScript.TimesSet, true);
    if stored.StoreFailed? {
      error := Some(StoreError(stored.error));
    }
  }

  /** The legacy `save_attachments(config, hashes, id, msg)` on the shared filesystem
      and the caller's table. */
  method SaveAttachments(config: LegacyConfig, host: MainScript.Host, disk: FileSystem, table: HashTable,
                         msg: MainScript.Message)
    returns (outcome: SaveOutcome)
    modifies disk, table
    ensures (outcome, Store(disk.files, table.entries)) == SaveSpec(config, host, old(Store(disk.files, table.entries)), msg)
  {
    var sender: Sender;
    var found := SenderOf(config, msg);
    if found.Err? {
      if found.error.Skip? {
        return NotSaved(found.error.cause);
      }
      return Crashed(found.error.error);
    }
    sender := found.value;
    var stamp := host.stampOf(msg.sentAt.value);
    var atts := msg.attachments;
    ghost var start := Progress(Store(disk.files, table.entries), NoStats, None);
    var stats := NoStats;

    var idx := 0;
    while idx < |atts|
      invariant idx <= |atts|
      invariant SaveFrom(config, host, sender, stamp, atts, idx, Progress(Store(disk.files, table.entries), stats, None)) ==
                SaveFrom(config, host, sender, stamp, atts, 0, start)
    {
      ghost var before := Progress(Store(disk.files, table.entries), stats, None);
      var added, error := SaveOneAttachment(config, host, disk, table, sender, stamp, idx, atts[idx]);
      stats := stats.Plus(added);
      ghost var after := Progress(Store(disk.files, table.entries), stats, error);
      assert Advance(config, host, sender, stamp, atts, idx, before) == after;
      if error.Some? {
        assert SaveFrom(config, host, sender, stamp, atts, idx + 1, after) == after;
        return Crashed(error.value);
      }
      idx := idx + 1;
    }
    return Saved(stats);
  }
}
