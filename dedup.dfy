/** The content store the exporters write into and the table they deduplicate with.
    The filesystem is a map from a file's path to its bytes; a directory exists when
    some file lies below it. Python's per-process `hash()` of a file's first 1024 bytes
    is an uninterpreted function of those bytes, and the SHA-256 comparison is equality
    of the full contents. */
module Dedup {

  import opened Text
  import opened Paths

  newtype byte = x: int | 0 <= x < 256

  type Bytes = seq<byte>

  type Fs = map<Path, Bytes>

  /** The deduplication table: a quick hash maps to the source paths already handled
      under it, in the order they were appended. */
  type Hashes = map<int, seq<Path>>

  /** The four counters every exporter keeps. */
  datatype Stats = Stats(attachments: nat, attachmentsSize: nat, savedAttachments: nat, savedAttachmentsSize: nat)
  {
    function Plus(other: Stats): (r: Stats)
      ensures r.attachments >= attachments && r.savedAttachments >= savedAttachments
    {
      Stats(attachments + other.attachments, attachmentsSize + other.attachmentsSize,
            savedAttachments + other.savedAttachments, savedAttachmentsSize + other.savedAttachmentsSize)
    }

    /** Saving is counted only for attachments that were counted first. */
    predicate Bounded() {
      savedAttachments <= attachments && savedAttachmentsSize <= attachmentsSize
    }
  }

  const NoStats := Stats(0, 0, 0, 0)

  /** The bytes `hash_file_quick` reads: at most the first 1024. */
  function Head(data: Bytes): (r: Bytes)
    ensures |r| <= 1024 && StartsWithBytes(data, r)
    ensures |data| <= 1024 ==> r == data
  {
    if |data| <= 1024 then data else data[..1024]
  }

  predicate StartsWithBytes(data: Bytes, prefix: Bytes) {
    |prefix| <= |data| && data[..|prefix|] == prefix
  }

  function QuickHash(h: Bytes -> int, data: Bytes): int {
    h(Head(data))
  }

  /** Files that agree in their first 1024 bytes share a quick hash, whatever their tails. */
  lemma QuickHashSeesOnlyHead(h: Bytes -> int, a: Bytes, b: Bytes)
    requires |a| >= 1024 && |b| >= 1024 && a[..1024] == b[..1024]
    ensures QuickHash(h, a) == QuickHash(h, b)
  {
  }

  /** `os.path.exists`: a file at `p`, or a directory holding some file. */
  predicate PathExists(fs: Fs, p: Path) {
    p in fs || exists q :: q in fs && StartsWith(q, p + "/")
  }

  /** A path naming a directory, which `os.path.exists` accepts like a file: some file
      lies below `p` once its trailing `/` are dropped. */
  predicate IsDirectory(fs: Fs, p: Path) {
    exists q :: q in fs && StartsWith(q, StripTrailingSlashes(p) + "/")
  }

  /** Every path in the table exists and is filed under its own quick hash. */
  predicate HashesValid(fs: Fs, hashes: Hashes, h: Bytes -> int) {
    forall q, p :: q in hashes && p in hashes[q] ==> p in fs && QuickHash(h, fs[p]) == q
  }

  /** Some path in the table holds exactly `data`. */
  predicate Recorded(fs: Fs, hashes: Hashes, data: Bytes) {
    exists q, p :: q in hashes && p in hashes[q] && p in fs && fs[p] == data
  }

  datatype Scan = Match | NoMatch | Unreadable(path: Path)

  /** The generator `hash_file_sha256(src) in (hash_file_sha256(f) for f in paths)`:
      paths are read front to back and the first equal one stops the scan; a path that
      can no longer be opened raises before any later one is read. */
  function ScanRecorded(fs: Fs, paths: seq<Path>, data: Bytes): (r: Scan)
    ensures r == Match ==> exists p :: p in paths && p in fs && fs[p] == data
    ensures r == NoMatch ==> forall p :: p in paths ==> p in fs && fs[p] != data
    ensures r.Unreadable? ==> r.path in paths && r.path !in fs
    decreases |paths|
  {
    if paths == [] then NoMatch
    else if paths[0] !in fs then Unreadable(paths[0])
    else if fs[paths[0]] == data then Match
    else
      var rest := ScanRecorded(fs, paths[1..], data);
      assert forall p :: p in paths[1..] ==> p in paths;
      assert forall p :: p in paths ==> p == paths[0] || p in paths[1..];
      rest
  }

  /** The three-way choice every exporter makes once the source is known to exist. */
  datatype Decision = Duplicate | RecordedFileGone(path: Path) | DestinationExists | Copy

  function Decide(fs: Fs, hashes: Hashes, h: Bytes -> int, src: Path, dst: Path): (r: Decision)
    requires src in fs
    ensures r == Duplicate ==>
              var q := QuickHash(h, fs[src]);
              q in hashes && exists p :: p in hashes[q] && p in fs && fs[p] == fs[src]
    ensures HashesValid(fs, hashes, h) ==> !r.RecordedFileGone? && (r == Duplicate <==> Recorded(fs, hashes, fs[src]))
    ensures r == DestinationExists ==> PathExists(fs, dst)
    ensures r == Copy ==> !PathExists(fs, dst)
  {
    var q := QuickHash(h, fs[src]);
    var scan := if q in hashes then ScanRecorded(fs, hashes[q], fs[src]) else NoMatch;
    if scan == Match then Duplicate
    else if scan.Unreadable? then RecordedFileGone(scan.path)
    else
      assert HashesValid(fs, hashes, h) ==> !Recorded(fs, hashes, fs[src]) by {
        if HashesValid(fs, hashes, h) {
          forall q', p | q' in hashes && p in hashes[q'] && p in fs ensures fs[p] != fs[src] {
            if q' == q {
              assert p in hashes[q];
            } else {
              assert QuickHash(h, fs[p]) != QuickHash(h, fs[src]);
            }
          }
        }
      }
      if PathExists(fs, dst) then DestinationExists else Copy
  }

  /** `hashes.setdefault(q, []).append(p)`. */
  function Record(hashes: Hashes, q: int, p: Path): (r: Hashes)
    ensures r.Keys == hashes.Keys + {q}
    ensures r[q] == (if q in hashes then hashes[q] else []) + [p]
    ensures forall k :: k in hashes && k != q ==> r[k] == hashes[k]
  {
    hashes[q := (if q in hashes then hashes[q] else []) + [p]]
  }

  /** The table only grows: every list keeps what it had, in order. */
  predicate Extends(before: Hashes, after: Hashes) {
    forall q :: q in before ==> q in after && |before[q]| <= |after[q]| && after[q][..|before[q]|] == before[q]
  }

  lemma RecordExtends(hashes: Hashes, q: int, p: Path)
    ensures Extends(hashes, Record(hashes, q, p))
  {
    var r := Record(hashes, q, p);
    if q in hashes {
      assert r[q][..|hashes[q]|] == hashes[q];
    }
  }

  /** The consistency the exporters keep over a run: the table is valid, every file
      created in this run holds content found in the table, and no two created files
      hold the same bytes. */
  ghost predicate Consistent(fs: Fs, hashes: Hashes, h: Bytes -> int, created: set<Path>) {
    && HashesValid(fs, hashes, h)
    && (forall w :: w in created ==> w in fs && Recorded(fs, hashes, fs[w]))
    && (forall w1, w2 :: w1 in created && w2 in created && w1 != w2 ==> fs[w1] != fs[w2])
  }

  lemma ConsistentAtStart(fs: Fs, h: Bytes -> int)
    ensures Consistent(fs, map[], h, {})
  {
  }

  /** Recording an existing source keeps the store consistent. */
  lemma RecordKeepsConsistent(fs: Fs, hashes: Hashes, h: Bytes -> int, created: set<Path>, src: Path)
    requires Consistent(fs, hashes, h, created) && src in fs
    ensures Consistent(fs, Record(hashes, QuickHash(h, fs[src]), src), h, created)
  {
    var q := QuickHash(h, fs[src]);
    var r := Record(hashes, q, src);
    forall k, p | k in r && p in r[k] ensures p in fs && QuickHash(h, fs[p]) == k {
      if k == q && p !in hashes[q := if q in hashes then hashes[q] else []][q] {
        assert p == src;
      }
    }
    forall w | w in created ensures Recorded(fs, r, fs[w]) {
      var k, p :| k in hashes && p in hashes[k] && p in fs && fs[p] == fs[w];
      if k == q {
        assert p in r[q];
      } else {
        assert r[k] == hashes[k];
      }
    }
  }

  /** The copy branch keeps the store consistent: `dst` is new, so nothing recorded is
      overwritten, and the source's bytes were in no recorded file, so the new file
      differs from every file created before it. */
  lemma CopyKeepsConsistent(fs: Fs, hashes: Hashes, h: Bytes -> int, created: set<Path>, src: Path, dst: Path)
    requires Consistent(fs, hashes, h, created) && src in fs
    requires !PathExists(fs, dst) && !Recorded(fs, hashes, fs[src])
    ensures dst !in created
    ensures Consistent(fs[dst := fs[src]], Record(hashes, QuickHash(h, fs[src]), src), h, created + {dst})
  {
    var fs' := fs[dst := fs[src]];
    assert dst !in fs;
    forall q, p | q in hashes && p in hashes[q] ensures p in fs' && fs'[p] == fs[p] {
      assert p != dst;
    }
    assert HashesValid(fs', hashes, h);
    forall w | w in created ensures w in fs' && fs'[w] == fs[w] && Recorded(fs', hashes, fs'[w]) {
      assert w != dst;
      var k, p :| k in hashes && p in hashes[k] && p in fs && fs[p] == fs[w];
      assert p in fs' && fs'[p] == fs'[w];
    }
    forall w | w in created ensures fs'[w] != fs'[dst] {
      var k, p :| k in hashes && p in hashes[k] && p in fs && fs[p] == fs[w];
      assert fs[w] != fs[src];
    }
    RecordKeepsConsistentAfterCopy(fs', hashes, h, created, src, dst);
  }

  /** After the copy the source itself is recorded, which covers the new file. */
  lemma RecordKeepsConsistentAfterCopy(fs: Fs, hashes: Hashes, h: Bytes -> int, created: set<Path>, src: Path, dst: Path)
    requires src in fs && dst in fs && fs[dst] == fs[src] && dst !in created
    requires HashesValid(fs, hashes, h)
    requires forall w :: w in created ==> w in fs && Recorded(fs, hashes, fs[w])
    requires forall w1, w2 :: w1 in created + {dst} && w2 in created + {dst} && w1 != w2 ==> fs[w1] != fs[w2]
    ensures Consistent(fs, Record(hashes, QuickHash(h, fs[src]), src), h, created + {dst})
  {
    var q := QuickHash(h, fs[src]);
    var r := Record(hashes, q, src);
    assert Consistent(fs, hashes, h, created);
    RecordKeepsConsistent(fs, hashes, h, created, src);
    assert src in r[q];
    assert Recorded(fs, r, fs[dst]);
  }

  /** Files present at the start of a run keep their bytes. */
  predicate Preserves(before: Fs, after: Fs) {
    forall p :: p in before ==> p in after && after[p] == before[p]
  }

  /** What a run keeps from its start `files0`: nothing that existed is changed, and
      the files it created are consistent with the table. */
  ghost predicate RunInvariant(files0: Fs, files: Fs, hashes: Hashes, h: Bytes -> int) {
    Preserves(files0, files) && Consistent(files, hashes, h, files.Keys - files0.Keys)
  }

  /** What a run keeps even when it stops right after a copy it could not record:
      files that existed keep their bytes and no two files it created are identical. */
  ghost predicate CreatedDistinct(files0: Fs, files: Fs) {
    && Preserves(files0, files)
    && (forall w1, w2 :: w1 in files.Keys - files0.Keys && w2 in files.Keys - files0.Keys && w1 != w2 ==>
          files[w1] != files[w2])
  }

  /** The content store and the table together. */
  datatype Store = Store(files: Fs, hashes: Hashes)

  datatype StoreError = RecordedFileUnreadable(path: Path) | TimesNotSet

  /** How the handling of an existing source ended. */
  datatype Stored = StoredDuplicate | StoredExisting | StoredCopy | StoreFailed(error: StoreError)

  /** The part every exporter shares once `src` is known to exist: count the source,
      skip it when an identical file is recorded under its quick hash, record it when
      `dst` already exists, and otherwise copy it to `dst`, set the times and record it.
      `timesSettable` says whether `os.utime` succeeds on `dst`; `utimeFatal` whether
      its failure propagates. Returns the outcome, the new store and the counter
      increments. */
  function StoreSource(st: Store, h: Bytes -> int, src: Path, dst: Path, timesSettable: bool, utimeFatal: bool)
    : (r: (Stored, Store, Stats))
    requires src in st.files
    ensures var (outcome, st', added) := r;
            && added.attachments == 1 && added.attachmentsSize == |st.files[src]|
            && (outcome == StoredCopy <==> added.savedAttachments == 1)
            && (outcome == StoredCopy ==> added.savedAttachmentsSize == |st.files[src]|)
            && (outcome != StoredCopy ==> added.savedAttachments == 0 && added.savedAttachmentsSize == 0)
    ensures var (outcome, st', _) := r;
            outcome == StoredDuplicate ==> st' == st && Recorded(st.files, st.hashes, st.files[src])
    ensures var (outcome, st', _) := r;
            outcome == StoredCopy ==>
              && !PathExists(st.files, dst)
              && (HashesValid(st.files, st.hashes, h) ==> !Recorded(st.files, st.hashes, st.files[src]))
              && st'.files == st.files[dst := st.files[src]]
    ensures var (outcome, st', _) := r;
            outcome == StoredExisting ==> PathExists(st.files, dst) && st'.files == st.files
    ensures var (outcome, st', _) := r;
            outcome == StoredCopy || outcome == StoredExisting ==>
              st'.hashes == Record(st.hashes, QuickHash(h, st.files[src]), src)
    ensures var (outcome, st', _) := r;
            outcome.StoreFailed? ==>
              || (outcome.error.RecordedFileUnreadable? && st' == st && !HashesValid(st.files, st.hashes, h))
              || (outcome.error == TimesNotSet && utimeFatal && !timesSettable && st'.hashes == st.hashes &&
                  st'.files == st.files[dst := st.files[src]] && !PathExists(st.files, dst) &&
                  (HashesValid(st.files, st.hashes, h) ==> !Recorded(st.files, st.hashes, st.files[src])))
  {
    var data := st.files[src];
    var counted := Stats(1, |data|, 0, 0);
    var q := QuickHash(h, data);
    match Decide(st.files, st.hashes, h, src, dst)
    case Duplicate =>
      assert Recorded(st.files, st.hashes, data) by {
        var p :| p in st.hashes[q] && p in st.files && st.files[p] == data;
      }
      (StoredDuplicate, st, counted)
    case RecordedFileGone(p) => (StoreFailed(RecordedFileUnreadable(p)), st, counted)
    case DestinationExists => (StoredExisting, st.(hashes := Record(st.hashes, q, src)), counted)
    case Copy =>
      var copied := st.files[dst := data];
      if utimeFatal && !timesSettable then (StoreFailed(TimesNotSet), st.(files := copied), counted)
      else (StoredCopy, Store(copied, Record(st.hashes, q, src)), Stats(1, |data|, 1, |copied[dst]|))
  }

  /** A step that does not fail keeps the run invariant and saves exactly the files it
      creates; it cannot meet an unreadable recorded file; and a step whose `os.utime`
      failure propagates still leaves the created files pairwise distinct. */
  lemma StoreKeepsRunInvariant(files0: Fs, st: Store, h: Bytes -> int, src: Path, dst: Path, timesSettable: bool, utimeFatal: bool)
    requires src in st.files && RunInvariant(files0, st.files, st.hashes, h)
    ensures var (outcome, st', added) := StoreSource(st, h, src, dst, timesSettable, utimeFatal);
            && !(outcome.StoreFailed? && outcome.error.RecordedFileUnreadable?)
            && Preserves(st.files, st'.files)
            && (!outcome.StoreFailed? ==>
                  RunInvariant(files0, st'.files, st'.hashes, h) &&
                  added.savedAttachments == |st'.files.Keys - st.files.Keys|)
            && (outcome.StoreFailed? ==> CreatedDistinct(files0, st'.files))
  {
    var (outcome, st', added) := StoreSource(st, h, src, dst, timesSettable, utimeFatal);
    var created := st.files.Keys - files0.Keys;
    if outcome == StoredCopy {
      CopiedKeepsRunInvariant(files0, st, h, src, dst, st');
    } else if outcome == StoredExisting {
      RecordKeepsConsistent(st.files, st.hashes, h, created, src);
      assert st'.files.Keys - st.files.Keys == {};
    } else if outcome.StoreFailed? && outcome.error == TimesNotSet {
      assert dst !in st.files;
      CopiedKeepsRunInvariant(files0, st, h, src, dst,
                              Store(st'.files, Record(st.hashes, QuickHash(h, st.files[src]), src)));
    } else {
      assert st'.files.Keys - st.files.Keys == {};
    }
  }

  /** A copy to a new destination of bytes recorded nowhere keeps the run invariant and
      creates exactly one file. */
  lemma CopiedKeepsRunInvariant(files0: Fs, st: Store, h: Bytes -> int, src: Path, dst: Path, st': Store)
    requires src in st.files && RunInvariant(files0, st.files, st.hashes, h)
    requires !PathExists(st.files, dst) && !Recorded(st.files, st.hashes, st.files[src])
    requires st' == Store(st.files[dst := st.files[src]], Record(st.hashes, QuickHash(h, st.files[src]), src))
    ensures Preserves(st.files, st'.files) && RunInvariant(files0, st'.files, st'.hashes, h)
    ensures |st'.files.Keys - st.files.Keys| == 1
  {
    var created := st.files.Keys - files0.Keys;
    CopyKeepsConsistent(st.files, st.hashes, h, created, src, dst);
    assert dst !in st.files;
    assert st'.files.Keys - files0.Keys == created + {dst};
    assert st'.files.Keys - st.files.Keys == {dst};
  }

  /** Keys only ever added: the files created across two stretches of a run are those
      of the first plus those of the second. */
  lemma CreatedAddsUp(k0: set<Path>, k1: set<Path>, k2: set<Path>)
    requires k0 <= k1 <= k2
    ensures |k2 - k0| == |k1 - k0| + |k2 - k1|
  {
    assert k2 - k0 == (k1 - k0) + (k2 - k1);
    assert (k1 - k0) * (k2 - k1) == {};
  }

  /** The filesystem the exporters read and write. */
  class FileSystem {
    var files: Fs

    constructor (files: Fs)
      ensures this.files == files
    {
      this.files := files;
    }
  }

  /** A deduplication table that the exporters update in place. */
  class HashTable {
    var entries: Hashes

    constructor ()
      ensures entries == map[]
    {
      entries := map[];
    }
  }

  /** The steps every exporter takes once the source exists, on the shared filesystem
      and table: count the source, scan the paths recorded under its quick hash, record
      it when `dst` exists, and otherwise copy it, set the times and record it. The
      counter increments are returned for the caller's own counters. */
  method StoreFile(disk: FileSystem, table: HashTable, h: Bytes -> int, src: Path, dst: Path,
                   timesSettable: bool, utimeFatal: bool)
    returns (outcome: Stored, added: Stats)
    requires src in disk.files
    modifies disk, table
    ensures (outcome, Store(disk.files, table.entries), added) ==
            StoreSource(old(Store(disk.files, table.entries)), h, src, dst, timesSettable, utimeFatal)
  {
    var data := disk.files[src];
    added := Stats(1, |data|, 0, 0);

    var quick := QuickHash(h, data);
    if quick in table.entries {
      var scan := ScanRecorded(disk.files, table.entries[quick], data);
      if scan == Match {
        return StoredDuplicate, added;
      } else if scan.Unreadable? {
        return StoreFailed(RecordedFileUnreadable(scan.path)), added;
      }
    }

    if PathExists(disk.files, dst) {
      table.entries := Record(table.entries, quick, src);
      return StoredExisting, added;
    }

    disk.files := disk.files[dst := data];
    if utimeFatal && !timesSettable {
      return StoreFailed(TimesNotSet), added;
    }
    var size := |disk.files[dst]|;
    added := added.(savedAttachments := 1, savedAttachmentsSize := size);
    table.entries := Record(table.entries, quick, src);
    return StoredCopy, added;
  }
}
