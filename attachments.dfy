/** `AttachmentExporter.export` from signal_media_exporter/attachments.py: one
    attachment of one message is copied below the export directory, unless it was
    never downloaded, its file is gone, or an identical file was already saved. The
    table of handled sources is shared by every exporter (a class attribute), and so
    are the counters (a module-level dictionary) and the filesystem. */
module Attachments {

  import opened Wrappers
  import opened Text
  import opened Paths
  import opened Naming
  import opened Dedup

  /** What the exporter learns from outside: the MIME registry, Python's `hash()` on
      bytes, whether `os.utime` succeeds on a path, and the size `os.path.getsize`
      reports for a directory. */
  datatype Environment = Environment(
    guess: string -> Option<string>,
    quick: Bytes -> int,
    timesSettable: Path -> bool,
    dirSize: Path -> nat)

  datatype SkipReason = MediaNotDownloaded | MediaNotFound | IdenticalSaved

  /** Exceptions that leave `export`: a `KeyError` for an unknown sender, an
      `IndexError` for a content type without `/`, the `IsADirectoryError` of hashing a
      source that is a directory, a recorded file that can no longer be opened, and a
      failing `os.utime`. */
  datatype ExportError = UnknownSender | NoSubtype | SourceIsDirectory | StoreError(cause: StoreError)

  /** `export` returns a path relative to the base directory, or `None` after a skip,
      or raises. */
  datatype ExportResult = Exported(path: Path) | Skipped(reason: SkipReason) | Raised(error: ExportError)

  predicate NotDownloaded(att: Attachment) {
    att.pending || att.path.None? || att.path.value == ""
  }

  /** The attachment's file in the Signal profile. */
  function SourcePath(signalDir: Path, path: Path): Path {
    Join(Join(signalDir, "attachments.noindex"), path)
  }

  function DestinationPath(baseDir: Path, sender: string, purposeDir: Path, name: string): Path {
    Join(Join(Join(baseDir, sender), purposeDir), name)
  }

  function RelativePath(sender: string, purposeDir: Path, name: string): Path {
    Join(Join(sender, purposeDir), name)
  }

  /** The returned relative path leads back to the destination from the base directory. */
  lemma RelativePathLeadsToDestination(baseDir: Path, sender: string, purposeDir: Path, name: string)
    ensures Join(baseDir, RelativePath(sender, purposeDir, name)) == DestinationPath(baseDir, sender, purposeDir, name)
  {
    JoinAssociative(baseDir, Join(sender, purposeDir), name);
    JoinAssociative(baseDir, sender, purposeDir);
  }

  /** The file name `export` builds before anything else, or the error that raises. */
  function NameFor(att: Attachment, stamp: string, siblingCount: nat, idx: nat, guess: string -> Option<string>)
    : Result<string, ExportError>
  {
    match AttachmentExtension(att, guess)
    case Ok(ext) => Ok(ExportName(stamp, siblingCount, idx, ext))
    case Err(_) => Err(NoSubtype)
  }

  /** The effect of one `export` call: its result, the new store, and what it adds to
      the counters. */
  function ExportSpec(baseDir: Path, signalDir: Path, contacts: map<string, string>, st: Store,
                      att: Attachment, senderNumber: string, stamp: string, siblingCount: nat, idx: nat,
                      purposeDir: Path, env: Environment)
    : (r: (ExportResult, Store, Stats))
    ensures senderNumber !in contacts ==> r == (Raised(UnknownSender), st, NoStats)
    ensures senderNumber in contacts && NameFor(att, stamp, siblingCount, idx, env.guess).Err? ==>
              r == (Raised(NoSubtype), st, NoStats)
    ensures r.0 == Skipped(MediaNotDownloaded) <==>
              senderNumber in contacts && NameFor(att, stamp, siblingCount, idx, env.guess).Ok? && NotDownloaded(att)
    ensures r.0 == Skipped(MediaNotFound) <==>
              && senderNumber in contacts && NameFor(att, stamp, siblingCount, idx, env.guess).Ok?
              && !NotDownloaded(att) && SourcePath(signalDir, att.path.value) !in st.files
              && !IsDirectory(st.files, SourcePath(signalDir, att.path.value))
    ensures r.0 == Skipped(MediaNotDownloaded) || r.0 == Skipped(MediaNotFound) ==> r.1 == st && r.2 == NoStats
    ensures r.0 == Raised(SourceIsDirectory) <==>
              && senderNumber in contacts && NameFor(att, stamp, siblingCount, idx, env.guess).Ok?
              && !NotDownloaded(att) && SourcePath(signalDir, att.path.value) !in st.files
              && IsDirectory(st.files, SourcePath(signalDir, att.path.value))
    ensures r.0 == Raised(SourceIsDirectory) ==>
              r.1 == st && r.2 == Stats(1, env.dirSize(SourcePath(signalDir, att.path.value)), 0, 0)
    ensures r.0 == Skipped(IdenticalSaved) ==>
              var src := SourcePath(signalDir, att.path.value);
              src in st.files && Recorded(st.files, st.hashes, st.files[src]) && r.1 == st &&
              r.2 == Stats(1, |st.files[src]|, 0, 0)
    ensures r.2.savedAttachments != 0 ==> r.0.Exported? && r.1.files != st.files
  {
    if senderNumber !in contacts then (Raised(UnknownSender), st, NoStats)
    else
      var sender := contacts[senderNumber];
      match NameFor(att, stamp, siblingCount, idx, env.guess)
      case Err(e) => (Raised(e), st, NoStats)
      case Ok(name) =>
        if NotDownloaded(att) then (Skipped(MediaNotDownloaded), st, NoStats)
        else
          var src := SourcePath(signalDir, att.path.value);
          var dst := DestinationPath(baseDir, sender, purposeDir, name);
          if src in st.files then
            ExportStore(st, env.quick, src, dst, env.timesSettable(dst), RelativePath(sender, purposeDir, name))
          else if IsDirectory(st.files, src) then (Raised(SourceIsDirectory), st, Stats(1, env.dirSize(src), 0, 0))
          else (Skipped(MediaNotFound), st, NoStats)
  }

  /** The store step of `export`, whose `os.utime` failure propagates. */
  function ExportStore(st: Store, h: Bytes -> int, src: Path, dst: Path, timesSettable: bool, relative: Path)
    : (ExportResult, Store, Stats)
    requires src in st.files
  {
    var (outcome, st', added) := StoreSource(st, h, src, dst, timesSettable, true);
    (ResultOf(outcome, relative), st', added)
  }

  /** What `export` returns after the store step: `None` for an identical file, the
      relative path once the destination exists, or the exception. */
  function ResultOf(outcome: Stored, relative: Path): ExportResult {
    match outcome
    case StoredDuplicate => Skipped(IdenticalSaved)
    case StoredExisting => Exported(relative)
    case StoredCopy => Exported(relative)
    case StoreFailed(cause) => Raised(StoreError(cause))
  }

  /** An export that returns a path has made a file of that name exist below the base
      directory: either one was there already, or the source's bytes were copied to a
      destination that did not exist. Either way the source is now recorded. */
  lemma ExportedLandsAtDestination(baseDir: Path, signalDir: Path, contacts: map<string, string>, st: Store,
                                   att: Attachment, senderNumber: string, stamp: string, siblingCount: nat, idx: nat,
                                   purposeDir: Path, env: Environment)
    ensures var r := ExportSpec(baseDir, signalDir, contacts, st, att, senderNumber, stamp, siblingCount, idx, purposeDir, env);
            r.0.Exported? ==>
              && senderNumber in contacts && NameFor(att, stamp, siblingCount, idx, env.guess).Ok?
              && var src := SourcePath(signalDir, att.path.value);
                 var dst := DestinationPath(baseDir, contacts[senderNumber], purposeDir,
                                            NameFor(att, stamp, siblingCount, idx, env.guess).value);
                 && !NotDownloaded(att) && src in st.files
                 && Join(baseDir, r.0.path) == dst
                 && PathExists(r.1.files, dst)
                 && (r.1.files == st.files || (!PathExists(st.files, dst) && r.1.files == st.files[dst := st.files[src]]))
                 && r.1.hashes == Record(st.hashes, QuickHash(env.quick, st.files[src]), src)
  {
    var r := ExportSpec(baseDir, signalDir, contacts, st, att, senderNumber, stamp, siblingCount, idx, purposeDir, env);
    if r.0.Exported? {
      var name := NameFor(att, stamp, siblingCount, idx, env.guess).value;
      var src := SourcePath(signalDir, att.path.value);
      var dst := DestinationPath(baseDir, contacts[senderNumber], purposeDir, name);
      var s := StoreSource(st, env.quick, src, dst, env.timesSettable(dst), true);
      RelativePathLeadsToDestination(baseDir, contacts[senderNumber], purposeDir, name);
      assert r == (ResultOf(s.0, RelativePath(contacts[senderNumber], purposeDir, name)), s.1, s.2);
      if s.0 == StoredCopy {
        assert dst in r.1.files;
      }
    }
  }

  /** An export that does not end in the `os.utime` failure keeps the run invariant:
      files that existed keep their bytes, the table stays valid, every file this run
      created holds bytes recorded in the table, and no two of them are identical. The
      saved count grows by exactly the number of files created, and a recorded file
      that cannot be opened is never met. */
  lemma ExportKeepsRunInvariant(baseDir: Path, signalDir: Path, contacts: map<string, string>, files0: Fs, st: Store,
                                att: Attachment, senderNumber: string, stamp: string, siblingCount: nat, idx: nat,
                                purposeDir: Path, env: Environment)
    requires RunInvariant(files0, st.files, st.hashes, env.quick)
    ensures var r :=
              ExportSpec(baseDir, signalDir, contacts, st, att, senderNumber, stamp, siblingCount, idx, purposeDir, env);
            && !(r.0.Raised? && r.0.error.StoreError? && r.0.error.cause.RecordedFileUnreadable?)
            && Preserves(st.files, r.1.files)
            && (r.0 != Raised(StoreError(TimesNotSet)) ==>
                  RunInvariant(files0, r.1.files, r.1.hashes, env.quick) &&
                  r.2.savedAttachments == |r.1.files.Keys - st.files.Keys|)
  {
    var r := ExportSpec(baseDir, signalDir, contacts, st, att, senderNumber, stamp, siblingCount, idx, purposeDir, env);
    if senderNumber in contacts && NameFor(att, stamp, siblingCount, idx, env.guess).Ok? && !NotDownloaded(att) {
      var name := NameFor(att, stamp, siblingCount, idx, env.guess).value;
      var src := SourcePath(signalDir, att.path.value);
      var dst := DestinationPath(baseDir, contacts[senderNumber], purposeDir, name);
      if src in st.files {
        var rel := RelativePath(contacts[senderNumber], purposeDir, name);
        assert r == ExportStore(st, env.quick, src, dst, env.timesSettable(dst), rel);
        ExportStoreKeepsRunInvariant(files0, st, env.quick, src, dst, env.timesSettable(dst), rel);
      }
    }
  }

  lemma ExportStoreKeepsRunInvariant(files0: Fs, st: Store, h: Bytes -> int, src: Path, dst: Path,
                                     timesSettable: bool, relative: Path)
    requires src in st.files && RunInvariant(files0, st.files, st.hashes, h)
    ensures var r := ExportStore(st, h, src, dst, timesSettable, relative);
            && !(r.0.Raised? && r.0.error.StoreError? && r.0.error.cause.RecordedFileUnreadable?)
            && Preserves(st.files, r.1.files)
            && (r.0 != Raised(StoreError(TimesNotSet)) ==>
                  RunInvariant(files0, r.1.files, r.1.hashes, h) &&
                  r.2.savedAttachments == |r.1.files.Keys - st.files.Keys|)
  {
    StoreKeepsRunInvariant(files0, st, h, src, dst, timesSettable, true);
  }

  /** The module-level `stats` dictionary. `messages` is counted by the conversation
      renderer, which is not part of this model; `export` leaves it alone. */
  class Counters {
    var messages: nat
    var totals: Stats

    constructor ()
      ensures messages == 0 && totals == NoStats
    {
      messages := 0;
      totals := NoStats;
    }
  }

  /** An exporter for one base directory. The table, the counters and the filesystem
      are shared by every exporter of the process. */
  class AttachmentExporter {
    const baseDir: Path
    const signalDir: Path
    const contactsByNumber: map<string, string>
    const disk: FileSystem
    const hashes: HashTable
    const stats: Counters

    constructor (baseDir: Path, signalDir: Path, contactsByNumber: map<string, string>,
                 disk: FileSystem, hashes: HashTable, stats: Counters)
      ensures this.baseDir == baseDir && this.signalDir == signalDir
      ensures this.contactsByNumber == contactsByNumber
      ensures this.disk == disk && this.hashes == hashes && this.stats == stats
    {
      this.baseDir := baseDir;
      this.signalDir := signalDir;
      this.contactsByNumber := contactsByNumber;
      this.disk := disk;
      this.hashes := hashes;
      this.stats := stats;
    }

    /** `export(att, sender_number, sent_at, msg, idx, purpose_dir)`. `stamp` is
        `sent_at` formatted for the file name and `siblingCount` the number of
        attachments of `msg`. */
    method Export(att: Attachment, senderNumber: string, stamp: string, siblingCount: nat, idx: nat,
                  purposeDir: Path, env: Environment)
      returns (r: ExportResult)
      modifies disk, hashes, stats
      ensures var (result, st', added) :=
                ExportSpec(baseDir, signalDir, contactsByNumber, old(Store(disk.files, hashes.entries)),
                           att, senderNumber, stamp, siblingCount, idx, purposeDir, env);
              && r == result
              && Store(disk.files, hashes.entries) == st'
              && stats.totals == old(stats.totals).Plus(added)
      ensures stats.messages == old(stats.messages)
    {
      if senderNumber !in contactsByNumber {
        return Raised(UnknownSender);
      }
      var sender := contactsByNumber[senderNumber];
      var ext := AttachmentExtension(att, env.guess);
      if ext.Err? {
        return Raised(NoSubtype);
      }
      var name := ExportName(stamp, siblingCount, idx, ext.value);

      if att.pending || att.path.None? || att.path.value == "" {
        return Skipped(MediaNotDownloaded);
      }
      var src := SourcePath(signalDir, att.path.value);
      var dst := DestinationPath(baseDir, sender, purposeDir, name);
      if src !in disk.files {
        if IsDirectory(disk.files, src) {
          stats.totals := stats.totals.Plus(Stats(1, env.dirSize(src), 0, 0));
          return Raised(SourceIsDirectory);
        }
        return Skipped(MediaNotFound);
      }

      var outcome, added := StoreFile(disk, hashes, env.quick, src, dst, env.timesSettable(dst), true);
      stats.totals := stats.totals.Plus(added);
      match outcome
      case StoredDuplicate => r := Skipped(IdenticalSaved);
      case StoredExisting => r := Exported(RelativePath(sender, purposeDir, name));
      case StoredCopy => r := Exported(RelativePath(sender, purposeDir, name));
      case StoreFailed(cause) => r := Raised(StoreError(cause));
    }
  }
}
