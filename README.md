# signal-media-exporter, modelled in Dafny

signal-media-exporter copies the media attachments of a Signal Desktop profile into
an output directory. Each file lands in a directory named after the sender, under a
file name built from the message's timestamp, the attachment's index when the message
has several, and the attachment's extension (`signal-<stamp>[-<idx>]<ext>`). A per-process table of quick hashes
ensures that the same content is never saved twice. This project models the
exporter's core and proves what the core guarantees:

- `naming.dfy` (module `Naming`) covers `make_fs_name` and `attachment_extension`
  from `signal_media_exporter/attachments.py`. It also covers the export file name
  `signal-<timestamp>[-<index>]<ext>`.
- `dedup.dfy` (module `Dedup`) holds what every exporter shares:
  - a content store (a map from path to bytes);
  - the quick-hash table;
  - the counters;
  - the three-way decision every exporter makes: skip an identical file, record an
    existing destination, or copy.

  The table and the filesystem are classes (`HashTable`, `FileSystem`) because the
  source updates them in place.
- `attachments.dfy` (module `Attachments`) holds `AttachmentExporter.export`. The
  class-level `hashes` and the module-level `stats` are shared objects in the model.
- `mainscript.dfy` (module `MainScript`) covers, from
  `signal_media_exporter/main.py`:
  - `save_attachments`, including its Windows path fix;
  - the loop of `main` that sums each message's counters and exits with -1 when
    there are none.
- `legacy.dfy` (module `Legacy`) covers `save_attachments` of the older top-level
  script `export.py`. That version has an own-number fallback and no index in the
  file name.
- `settings.dfy` (module `Settings`) covers how both scripts assemble their
  configuration:
  - defaults, then the config file, then command-line options;
  - options camel-cased from their names;
  - phone numbers reduced to `+` and decimal digits;
  - the `maxMessages` check.
- `previous.py` is modelled in `previous.dfy` (module `Previous`). It handles
  re-exports:
  - it finds each previously exported conversation by the `data-conversation-id`
    of its page and the `conversationId.txt` of its sender directories;
  - it moves everything recorded for a renamed conversation to the new name, sender
    directories first.
- `text.dfy`, `paths.dfy` and `wrappers.dfy` hold the Python string and `posixpath`
  operations the core relies on: `split`, `join`, `rfind`, `str(n)`, `os.path.join`,
  `basename`, `dirname` and `splitext`.

Outside influences are parameters:

- the MIME registry (`mimetypes.guess_extension`);
- Python's per-process `hash()`;
- how `os.utime` ends on a path. For the packaged script the model distinguishes success, `PermissionError` and any other `OSError`. The library and the legacy script let every failure propagate, so for them it only records whether the call succeeds;
- the size `os.path.getsize` reports for a directory;
- the formatted timestamp;
- the tokens the HTML parser reports;
- the files `glob` finds, in the order it returns them;
- the decoded config file and the parsed command line.

SHA-256 equality is modelled as equality of file contents. The exported tree that
the rename step moves around is modelled as a set of paths.

In `main.py` the line `name += str(idx)` extends a list of strings with the
*characters* of the index. Index 12 of a 13-attachment message is therefore named
`signal-<stamp>-1-2.<ext>`. The model keeps that behaviour (`MainScript.MainName`,
`MainScript.TwoDigitIndexIsSplit`), and the names stay distinct
(`MainScript.MainNameDeterminesIndex`).

Renames substitute the rightmost occurrence of the old name in a recorded path
(`replace_rightmost`). That is right for sender and conversation directories, whose
last component is the name. It goes wrong for a conversation exported as a single
HTML page, where the rightmost occurrence can fall inside the `.html` extension. The
model states `replace_rightmost` as written (`Previous.ReplaceRightmost`). It moves
paths with the evidently intended target `Previous.RenameTarget`, and the difference
is listed under Findings.

## Model

| member | source | states |
|---|---|---|
| Text.NatToString | signal_media_exporter/attachments.py:88-89 | `str(idx)` is a non-empty run of digits, a single digit exactly when `idx < 10` |
| Text.NatToStringInjective | signal_media_exporter/attachments.py:88-89 | different indices are written differently |
| Text.SplitOn | signal_media_exporter/main.py:123-124 | `str.split(sep)` gives at least one part, none containing `sep`, and a single part (the string itself) exactly when `sep` does not occur |
| Text.JoinSplit | signal_media_exporter/main.py:123-124 | joining the parts of a split with the same separator gives back the string |
| Text.SplitJoin | signal_media_exporter/main.py:123-124 | splitting a join of separator-free parts gives back the parts |
| Text.RFind | signal_media_exporter/previous.py:83 | `rfind` finds an occurrence with no later occurrence, and fails exactly when there is none |
| Text.RFindSuffix | signal_media_exporter/previous.py:83 | a string ending in `sub` has its last occurrence at the very end |
| Paths.JoinAssociative | signal_media_exporter/attachments.py:96 | `os.path.join(a, join(b, c)) == join(join(a, b), c)`: grouping a join does not matter |
| Paths.JoinKeepsLast | signal_media_exporter/attachments.py:96 | joining a non-empty relative path keeps that path's trailing separator |
| Paths.JoinKeepsRelative | signal_media_exporter/attachments.py:115 | joining relative paths gives a relative path |
| Paths.JoinAllAddsNoBackslash | signal_media_exporter/main.py:124 | `os.path.join(*parts)` of backslash-free parts contains no backslash |
| Paths.Basename | signal_media_exporter/previous.py:53 | `basename` is a suffix of the path with no `/` |
| Paths.Dirname | signal_media_exporter/previous.py:52 | `dirname` is a prefix of the path |
| Paths.StripTrailingSlashes | signal_media_exporter/previous.py:69 | the result is a prefix that does not end in `/` |
| Paths.SplitExt | signal_media_exporter/attachments.py:37 | `splitext` splits the path into root and extension, and the extension is empty or a dot followed by no `.` or `/` |
| Naming.CollapseForbidden | signal_media_exporter/attachments.py:28 | replacing forbidden runs never lengthens the name |
| Naming.CollapseLeavesNoForbidden | signal_media_exporter/attachments.py:28 | no character of `<>:/\|?*` or a control character survives the substitution |
| Naming.CollapseAddsNoQuote | signal_media_exporter/attachments.py:27-28 | the run substitution introduces no `"` |
| Naming.RunCollapsesToOneDash | signal_media_exporter/attachments.py:28 | a run of two forbidden characters is treated exactly like one, because the pattern ends in `+` |
| Naming.CollapseKeepsPermitted | signal_media_exporter/attachments.py:28 | a permitted character is kept in place, wherever it stands |
| Naming.CollapseKeepsCleanPrefix | signal_media_exporter/attachments.py:28 | text without forbidden characters passes through unchanged in front of whatever follows |
| Naming.RunBecomesDash | signal_media_exporter/attachments.py:28 | a maximal run of forbidden characters of any length becomes exactly one `-` |
| Naming.CleanedAroundRun | signal_media_exporter/attachments.py:27-28 | plain text around one forbidden run keeps both sides, with `-` in place of the run |
| Naming.DashedNotReserved | signal_media_exporter/attachments.py:29 | a name containing `-` is never a device name |
| Naming.RunBetweenPlainTextBecomesDash | signal_media_exporter/attachments.py:21-31 | `make_fs_name(a + run + b)` is `a-b` for plain `a` and `b` with `b` not ending in a space or dot |
| Naming.SlashBecomesDash | signal_media_exporter/attachments.py:21-31 | `make_fs_name('a/b')` is `a-b` |
| Naming.Cleaned | signal_media_exporter/attachments.py:27-28 | after both substitutions the name has no `"` and no forbidden character, and a permitted first character is kept |
| Naming.TrimTrailing | signal_media_exporter/attachments.py:30 | `rstrip(' .')` leaves a prefix that does not end in a space or dot, having removed only spaces and dots |
| Naming.MakeFsName | signal_media_exporter/attachments.py:21-31 | the file-system name has no `"`, no forbidden character, and no trailing space or dot |
| Naming.MakeFsNameKeepsPlain | signal_media_exporter/attachments.py:21-31 | a name that is already valid and not reserved is returned unchanged |
| Naming.ReservedGetsDash | signal_media_exporter/attachments.py:29 | a `-` is appended exactly when the cleaned name is a reserved device name (`CON`, `PRN`, `AUX`, `NUL`, `COM<d>`, `LPT<d>`, where `<d>` is anything `\d` matches: a decimal digit of any script) |
| Naming.ArabicIndicDigitIsReserved | signal_media_exporter/attachments.py:29 | `COM` followed by the Arabic-Indic digit one is treated as a device name and gains a `-` |
| Naming.MakeFsNameIdempotentUnlessReserved | signal_media_exporter/attachments.py:21-31 | applying `make_fs_name` twice changes nothing, unless the first result is a reserved name |
| Naming.ReservedNameGainsDash | signal_media_exporter/attachments.py:29 | `CON` becomes `CON-` |
| Naming.LowerCaseIsNotReserved | signal_media_exporter/attachments.py:29 | the pattern is case-sensitive: `con` stays `con` |
| Naming.StrippingCanExposeReservedName | signal_media_exporter/attachments.py:29-30 | `CON.` becomes `CON`, because the stripping runs after the reserved-name check, so the function is not idempotent there |
| Naming.FileNameExtension | signal_media_exporter/attachments.py:36-39 | the extension taken from `fileName` is empty or starts with a dot |
| Naming.AttachmentExtension | signal_media_exporter/attachments.py:34-49 | one case per branch: the file name's extension if any; else `''` without a content type; else the registry's guess; else the cleaned subtype; and it raises exactly when the content type has no `/` |
| Naming.SubtypeExtension | signal_media_exporter/attachments.py:47 | `make_fs_name('.' + subtype)` fails exactly when there is no `/`, and otherwise gives a dotted extension with no forbidden character |
| Naming.FallbackExtension | signal_media_exporter/attachments.py:47 | the fallback extension is empty or dotted, with no forbidden character |
| Naming.FallbackKeepsSubtype | signal_media_exporter/attachments.py:47 | for `major/minor` with a clean lower-case `minor`, the extension is `.minor` |
| Naming.CleanSubtypeUnchanged | signal_media_exporter/attachments.py:47 | `make_fs_name` leaves a clean dotted subtype alone |
| Naming.ExportNameShape | signal_media_exporter/attachments.py:87-90 | the name is `signal-<stamp>`, then `-<idx>` only for several attachments, then the extension |
| Naming.SiblingNamesDiffer | signal_media_exporter/attachments.py:88-89 | attachments of one message get distinct names |
| Naming.ExportNameDeterminesIndex | signal_media_exporter/attachments.py:88-89 | for a multi-attachment message the name determines the index |
| Dedup.Head | signal_media_exporter/attachments.py:52-56 | the quick hash reads at most the first 1024 bytes, and all of a shorter file |
| Dedup.QuickHashSeesOnlyHead | signal_media_exporter/attachments.py:52-56 | files that agree on their first 1024 bytes share a quick hash |
| Dedup.ScanRecorded | signal_media_exporter/attachments.py:106 | the scan of the paths under a quick hash finds identical content, finds none with every path readable, or reports a path that cannot be opened |
| Dedup.Decide | signal_media_exporter/attachments.py:104-115 | the decision skips as a duplicate exactly when identical content is recorded (given a valid table), records when the destination exists, and copies only onto a destination that does not exist |
| Dedup.Record | signal_media_exporter/attachments.py:114 | `hashes.setdefault(q, []).append(src)` adds `src` at the end of `q`'s list and leaves other keys alone |
| Dedup.RecordExtends | signal_media_exporter/attachments.py:114 | recording only extends lists, never drops an entry |
| Dedup.ConsistentAtStart | signal_media_exporter/attachments.py:74 | an empty table is consistent with any filesystem |
| Dedup.RecordKeepsConsistent | signal_media_exporter/attachments.py:111-115 | recording a source whose destination exists keeps the table consistent |
| Dedup.CopyKeepsConsistent | signal_media_exporter/attachments.py:117-125 | copying to a fresh destination and recording the source keeps the table consistent, and the new file duplicates no file created before |
| Dedup.RecordKeepsConsistentAfterCopy | signal_media_exporter/attachments.py:125 | recording after the copy keeps every created file's content in the table |
| Dedup.StoreSource | signal_media_exporter/attachments.py:101-125 | a source is always counted; a copy is counted as saved, with the source's size, and a skip or an existing destination is not; a duplicate changes nothing; a copy writes the source's bytes to a destination that did not exist; a failing `os.utime` leaves the copy in place unrecorded |
| Dedup.StoreKeepsRunInvariant | signal_media_exporter/attachments.py:101-125 | storing never changes an existing file and never meets an unreadable recorded file; a step that does not fail keeps the run invariant and counts as saved exactly the files it creates; a step stopped by `os.utime` still leaves the created files pairwise distinct |
| Dedup.StoreFile | signal_media_exporter/attachments.py:101-125 | the in-place steps on the shared filesystem and table do what `StoreSource` specifies |
| Attachments.RelativePathLeadsToDestination | signal_media_exporter/attachments.py:96-115 | the returned `join(sender, purpose_dir, name)`, joined to the base directory, is the destination |
| Attachments.ExportSpec | signal_media_exporter/attachments.py:81-127 | an unknown sender raises `KeyError` and an unusable content type raises before anything changes; skips for a missing download or a missing source happen exactly in their cases and change nothing; a source that is a directory passes `os.path.exists`, is counted with the size reported for it, and then raises `IsADirectoryError` from hashing, exactly in that case; an identical-file skip is counted but not saved; saving implies a returned path and a new file |
| Attachments.ExportedLandsAtDestination | signal_media_exporter/attachments.py:111-127 | a returned path names the destination, which now exists: either it already did, or it holds the source's bytes and did not exist before; the source is recorded |
| Attachments.ExportKeepsRunInvariant | signal_media_exporter/attachments.py:81-127 | `export` never changes an existing file and never meets an unreadable recorded file; unless `os.utime` failed, the table stays consistent, created files are pairwise distinct, and the saved count equals the files created |
| Attachments.ExportStoreKeepsRunInvariant | signal_media_exporter/attachments.py:101-127 | the same for the store step alone |
| Attachments.AttachmentExporter.Export | signal_media_exporter/attachments.py:81-127 | the method updates the shared filesystem, table and `stats` exactly as `ExportSpec` says, and leaves `messages` alone |
| MainScript.KeyErrorCause | signal_media_exporter/main.py:101-106 | a missing key starting with `+` is an unmapped number, and any other key is a missing field |
| MainScript.SenderOf | signal_media_exporter/main.py:92-106 | the sender is found exactly when `sent_at`, `received_at` and `source` are present and the number is mapped (if a map exists); it is then the source or its mapped name; an unmapped number is reported as such |
| MainScript.MediaSubtype | signal_media_exporter/main.py:109-112 | an extension exists exactly for lower-cased `image/`, `video/` and `audio/` types, and contains no `/` |
| MainScript.MediaSubtypeIsMinorType | signal_media_exporter/main.py:110 | for `image/x`, `video/x` and `audio/x` the extension is `x` lower-cased |
| MainScript.NonMediaTypeIsSkipped | signal_media_exporter/main.py:109-112 | other content types are skipped |
| MainScript.PrefixedDigits | signal_media_exporter/main.py:115-117 | after `'-'.join`, the index appears as `-d` for each of its digits |
| MainScript.MainNameShape | signal_media_exporter/main.py:114-117 | the name is `signal-<stamp>`, then `-d` per digit of the index only for several attachments, then `.ext` |
| MainScript.MainNameMatchesExportName | signal_media_exporter/main.py:114-117 | for indices below 10 the name is the one `AttachmentExporter.export` builds |
| MainScript.TwoDigitIndexIsSplit | signal_media_exporter/main.py:116 | index 12 of 13 attachments gives `signal-<stamp>-1-2.<ext>` |
| MainScript.MainSiblingNamesDiffer | signal_media_exporter/main.py:114-117 | attachments of one message get distinct names |
| MainScript.MainNameDeterminesIndex | signal_media_exporter/main.py:114-117 | for several attachments the name determines the index |
| MainScript.DashedDigitsInjective | signal_media_exporter/main.py:116-117 | different digit strings give different dashed forms |
| MainScript.LocalPath | signal_media_exporter/main.py:123-126 | the fixed path has no backslash, and a path without one is unchanged |
| MainScript.BackslashesBecomeSlashes | signal_media_exporter/main.py:123-124 | a Windows path `a\b\c` becomes `a/b/c` |
| MainScript.JoinAllIsSlashJoin | signal_media_exporter/main.py:124 | `os.path.join` of plain components is their `/`-join |
| MainScript.SaveOne | signal_media_exporter/main.py:108-158 | a missing content type raises; a non-media or undownloaded attachment changes nothing; a missing source is skipped and changes nothing; a source that is a directory raises `IsADirectoryError`; a present source is counted as one attachment of its own size; an `os.utime` failure propagates only when it is not a `PermissionError`, and then the copy stays on disk |
| MainScript.UtimeFailureKinds | signal_media_exporter/main.py:147-158 | a `PermissionError` from `os.utime` leaves the step exactly as if the times were set; any other `OSError` raises exactly when the file was copied, leaves the copy on disk with its source unrecorded, and changes nothing otherwise |
| MainScript.SaveStoreKeepsRunInvariant | signal_media_exporter/main.py:133-158 | the store step raises only an `os.utime` error other than `PermissionError`, and then the created files stay distinct; otherwise it keeps the run invariant and counts as saved exactly the files it creates; it saves no more than it counts |
| MainScript.SaveOneKeepsRunInvariant | signal_media_exporter/main.py:108-158 | one attachment never meets an unreadable recorded file; unless `os.utime` raised, it keeps the run invariant and saves exactly the file it creates; if it did, the created files stay distinct |
| MainScript.AdvanceKeeps | signal_media_exporter/main.py:108-158 | one loop turn keeps the loop invariant |
| MainScript.SaveFromKeepsRunInvariant | signal_media_exporter/main.py:108-158 | the loop from any point keeps the loop invariant to the end |
| MainScript.SaveKeepsRunInvariant | signal_media_exporter/main.py:84-160 | the only store error `save_attachments` raises is an `os.utime` failure, after which the created files stay distinct; it changes nothing when it skips the message; otherwise it keeps the run invariant, and its counters equal the files it created, with no more attachments than the message has |
| MainScript.SaveOneAttachment | signal_media_exporter/main.py:108-158 | the loop body on the shared filesystem and table does what `SaveOne` specifies |
| MainScript.SaveAttachments | signal_media_exporter/main.py:84-160 | the method does what the specification of `save_attachments` says |
| MainScript.RunStepKeeps | signal_media_exporter/main.py:216-219 | one turn of the main loop keeps the run invariant |
| MainScript.AccumulateKeeps | signal_media_exporter/main.py:217-219 | adding a message's counters keeps the totals equal to the files created |
| MainScript.EmptyStatsMeansNothingSaved | signal_media_exporter/main.py:218-225 | `stats` stays empty exactly while no message has returned counters, and no file is created meanwhile |
| MainScript.RunUpToKeepsRunInvariant | signal_media_exporter/main.py:213-221 | after any number of messages the run invariant holds unless an `os.utime` failure stopped the run, the created files are pairwise distinct either way, and the totals count the files created |
| MainScript.CrashStops | signal_media_exporter/main.py:216-217 | once a message raises, the later messages do nothing |
| MainScript.ExportAll | signal_media_exporter/main.py:213-225 | the loop of `main` on the shared filesystem ends as the run specification says |
| MainScript.RunOutcomeMeaning | signal_media_exporter/main.py:213-225 | existing files keep their bytes; no two files the run created are identical; a finished run reports exactly the files it created; it exits with -1 exactly when no message returned counters; the only exceptions are a missing content type, a source that is a directory, and an `os.utime` error other than `PermissionError` |
| Legacy.KeyErrorCause | export.py:87-94 | the `KeyError` is an unset own number exactly for key `ownNumber`, an unmapped number for another key starting with `+`, and a missing field otherwise |
| Legacy.SenderOf | export.py:74-94 | the sender is bound exactly when the timestamps are present, the number comes from `source` or from `ownNumber` of an outgoing message, and it is mapped (if a map exists); it is left unbound for a non-outgoing message without `source` and no map, and raises when such a message meets a map; an outgoing message without `ownNumber` is skipped |
| Legacy.SaveOne | export.py:96-131 | a missing `contentType` raises; a non-media type changes nothing; a missing `path` raises; an unbound sender raises; a missing source is skipped and changes nothing; a source that is a directory raises `IsADirectoryError`; a present source is counted as one attachment of its own size |
| Legacy.EmptyPathHitsAttachmentDirectory | export.py:103-112 | an empty `path` names the attachment directory itself, which exists once anything was downloaded, so the attachment raises `IsADirectoryError` |
| Legacy.SaveStore | export.py:109-131 | the only exception of the store step is a store error |
| Legacy.SaveStoreKeepsRunInvariant | export.py:109-131 | the store step keeps existing files, and keeps the invariant unless `os.utime` fails |
| Legacy.PendingIsIgnored | export.py:96-107 | the legacy script treats pending downloads like any other |
| Legacy.SiblingsShareDestination | export.py:102-104 | two attachments of one message with the same subtype get the same destination |
| Legacy.LaterSiblingNotWritten | export.py:113-121 | once that destination exists, a later sibling writes nothing and is not counted as saved |
| Legacy.SaveOneKeeps | export.py:96-131 | one attachment keeps the run invariant unless `os.utime` fails |
| Legacy.AdvanceKeeps | export.py:96-131 | one loop turn keeps the loop invariant |
| Legacy.SaveFromKeeps | export.py:96-131 | the loop from any point keeps the loop invariant |
| Legacy.SaveKeepsRunInvariant | export.py:66-133 | the legacy `save_attachments` never changes an existing file, changes nothing when it skips, keeps the invariant unless `os.utime` failed, and counts the files it created |
| Legacy.UnboundSenderCrashesAtFirstMedia | export.py:96-104 | for a message neither from a `source` nor outgoing, the loop stops at its first media attachment: with `KeyError` when that attachment has no `path`, otherwise with `UnboundLocalError`; the store and the counters are as before the loop |
| Legacy.SaveOneAttachment | export.py:96-131 | the loop body on the shared objects does what `SaveOne` specifies |
| Legacy.SaveAttachments | export.py:66-133 | the method does what the legacy specification says |
| Settings.TitleOfLowerWord | signal_media_exporter/main.py:197 | `str.title()` of a lower-case word capitalises its initial and keeps the rest |
| Settings.LowerTitle | signal_media_exporter/main.py:197 | title-casing changes only case |
| Settings.LowerConcatTitles | signal_media_exporter/main.py:197 | the joined title-cased words differ from the joined words only in case |
| Settings.CamelCaseIsCaseOfJoinedWords | signal_media_exporter/main.py:197 | camel-casing an option name only drops its underscores and changes case |
| Settings.TwoWordCamelCase | signal_media_exporter/main.py:197 | `output_dir` becomes `outputDir` |
| Settings.Put | signal_media_exporter/main.py:198 | `d[k] = v` gives `k` the value `v`, leaves other keys alone, and keeps keys unique |
| Settings.PutAllLookup | signal_media_exporter/main.py:190 | after `{**defaults, **file}` or a series of assignments a key holds its last assigned value, else its old one |
| Settings.LastForIsLast | signal_media_exporter/main.py:190 | the last assigned value is that of the last assignment to the key |
| Settings.Overrides | signal_media_exporter/main.py:194-198 | no ignored value is assigned |
| Settings.OverridesOfOption | signal_media_exporter/main.py:194-198 | an option lands under its camel-cased name exactly when it is not ignored |
| Settings.ApplyOptions | signal_media_exporter/main.py:194-198 | the override loop performs those assignments in order |
| Settings.Sanitize | signal_media_exporter/main.py:201 | the sanitised number holds only `+` and decimal digits of any script, and is no longer than the original |
| Settings.SanitizeIdentity | signal_media_exporter/main.py:201 | a number is unchanged exactly when it is already clean |
| Settings.SanitizeIdempotent | signal_media_exporter/main.py:201 | sanitising twice is sanitising once |
| Settings.SanitizeKeepsExactlyKept | signal_media_exporter/main.py:201 | every `+` and decimal digit of any script is kept, as often as it occurs, and everything else is dropped |
| Settings.ArabicIndicDigitsAreKept | signal_media_exporter/main.py:201 | Arabic-Indic digits survive sanitising, as `\d` matches them |
| Settings.SanitizeAppend | signal_media_exporter/main.py:201 | sanitising works character by character |
| Settings.SanitizeNumbersMeaning | signal_media_exporter/main.py:202 | the sanitised map has unique clean keys; a key maps to the name of the last entry that sanitises to it, and is absent when none does |
| Settings.SanitizeMapSettingMeaning | signal_media_exporter/main.py:202-203 | sanitising fails exactly for a `map` that is not an object, otherwise leaves the map clean and every other setting alone |
| Settings.PrepareMain | signal_media_exporter/main.py:164-208 | the packaged script's setup gives the settings its specification describes |
| Settings.PrepareLegacy | export.py:137-174 | the legacy setup gives the settings its specification describes |
| Settings.CheckMaxMessagesMeaning | signal_media_exporter/main.py:205-208 | the limit check exits with -1 exactly on a negative integer or float, goes on with the settings unchanged exactly on a non-negative number or a boolean, and otherwise raises for `maxMessages` |
| Settings.MainSettingsExit | signal_media_exporter/main.py:205-208 | the script exits, always with -1, exactly when the map is usable and `maxMessages` is a negative integer or float; the only exceptions come from a non-object map or a limit that cannot be compared with 0 (a string, `null`, an array or an object) |
| Settings.MainSettingsReady | signal_media_exporter/main.py:200-208 | when the script goes on, `maxMessages` is a non-negative integer or float, or a boolean, and the map is clean |
| Settings.FloatAndArrayLimits | signal_media_exporter/main.py:205-208 | a `maxMessages` of `-0.5` in the config file makes the script exit with -1, and a JSON array there makes it raise |
| Settings.MainSettingsPrecedence | signal_media_exporter/main.py:187-198 | every setting but the map is the last option given, else the config file's value, else the default |
| Settings.LegacySettingsMeaning | export.py:156-174 | the legacy script never exits on its own, raises only for a non-string own number or a non-object map, and when it goes on the own number and the map are clean |
| Settings.EmptyOwnNumberIgnored | export.py:163-164 | an empty `--own-number` is skipped as falsy |
| Previous.FirstIdAttribute | signal_media_exporter/previous.py:21-23 | the first `data-conversation-id` attribute of a tag, or none |
| Previous.FirstCarrier | signal_media_exporter/previous.py:19-23 | the first `html` start tag that carries the attribute, or none |
| Previous.ConversationIdStopsAtFirstCarrier | signal_media_exporter/previous.py:23-29 | the id is that of the first carrier, and tokens after it do not matter (the `Found` exception stops the parser) |
| Previous.NoCarrierNoId | signal_media_exporter/previous.py:30-31 | without a carrier there is no id |
| Previous.GetPreviousConversationId | signal_media_exporter/previous.py:14-31 | the parsing loop returns the id of the first carrier |
| Previous.ReplaceRightmost | signal_media_exporter/previous.py:82-87 | fails exactly when `old` does not occur; otherwise replaces the last occurrence, keeping everything before and after it |
| Previous.RenameTarget | signal_media_exporter/previous.py:114 | the corrected target keeps the directory part and changes the length by the difference of the names |
| Previous.RenameTargetBasename | signal_media_exporter/previous.py:114 | the target's last component is the new name followed by what followed the old name, in the same directory |
| Previous.ReplaceRightmostRenamesLastComponent | signal_media_exporter/previous.py:101 | when the last component is the old name, as for every sender directory, `replace_rightmost` gives the corrected target |
| Previous.PageRenameHitsExtension | signal_media_exporter/previous.py:114 | `out/ml.html` renamed from `ml` to `Bob` becomes `out/ml.htBob` as written, where `out/Bob.html` is meant |
| Previous.Kept | signal_media_exporter/previous.py:50 | an id counts exactly when it is present and non-empty |
| Previous.PageRecordNamed | signal_media_exporter/previous.py:51-63 | a page's record has a path whose last component starts with its name, and no sender paths |
| Previous.ScanPagesMeaning | signal_media_exporter/previous.py:48-63 | the page scan succeeds exactly when no id occurs twice, and then holds exactly the ids found, each with its page's record |
| Previous.SenderDirsForMembers | signal_media_exporter/previous.py:77 | the sender paths collected for an id are the directories of its files, and there is one whenever such a file exists |
| Previous.ScanSendersMeaning | signal_media_exporter/previous.py:66-77 | the sender scan fails exactly when some file's directory name disagrees with the name recorded for its id; otherwise every id has its expected record |
| Previous.PreviousConversationsWellFormed | signal_media_exporter/previous.py:34-79 | every page path is named after its conversation, and every sender directory is named exactly so |
| Previous.ScanPreviousPages | signal_media_exporter/previous.py:48-63 | the page loop computes the page scan |
| Previous.ScanPreviousSenders | signal_media_exporter/previous.py:66-77 | the sender loop computes the sender scan |
| Previous.GetPreviousConversationsById | signal_media_exporter/previous.py:34-79 | the scan returns a well-formed index of previous conversations, or the duplicate that stops the program |
| Previous.MovesFor | signal_media_exporter/previous.py:100-101 | one move per recorded path, each from that path |
| Previous.MovesForAt | signal_media_exporter/previous.py:100-101 | the move for a path goes to its renamed target |
| Previous.MoveTreeMeaning | signal_media_exporter/previous.py:105 | `shutil.move` keeps the paths outside the source, relocates those inside it under the target, and adds nothing else |
| Previous.PlanMovesSendersFirst | signal_media_exporter/previous.py:94-118 | every sender move comes before every conversation move |
| Previous.PlanMovesOnlyRenamed | signal_media_exporter/previous.py:95-118 | every move renames a path recorded for a conversation whose name changed |
| Previous.PlanMovesEveryRenamed | signal_media_exporter/previous.py:95-118 | every recorded path of a renamed conversation is moved to its target |
| Previous.ExecuteMeaning | signal_media_exporter/previous.py:95-118 | the moves either all happen, each onto a free destination, or stop at the first whose destination exists or whose source is gone, with exactly the earlier moves made |
| Previous.MovePaths | signal_media_exporter/previous.py:100-105 | the inner loop moves the paths in order on the tree, as the plan says |
| Previous.MoveSenderDirectoriesOf | signal_media_exporter/previous.py:96-105 | one conversation's sender directories are moved as planned |
| Previous.MoveSenderDirectories | signal_media_exporter/previous.py:95-105 | the first loop makes the sender moves of the plan |
| Previous.MoveConversationEntries | signal_media_exporter/previous.py:108-118 | the second loop makes the conversation moves of the plan |
| Previous.RenamePreviousConversations | signal_media_exporter/previous.py:90-118 | `rename_previous_conversations` ends, and leaves the tree, as the rename specification says |

## Left out

- Reading the encrypted database is not modelled: `get_key` and `get_messages` in `signal_media_exporter/main.py`, including the `limit` that `maxMessages` puts on the query and the filling-in of `source` for outgoing messages. Messages are given as a list.
- `signal_media_exporter/conversations.py`, which renders the conversations and counts `messages`, is not part of this model. `AttachmentExporter.export` leaves that counter alone.
- Reading the config file and its `FileNotFoundError` handling are left out. The decoded file is a parameter. Its values are `null`, strings, integers, finite floats, booleans, arrays and objects. The non-standard `NaN` and `Infinity`, which Python's `json` module also accepts, are not modelled.
- Command-line parsing is left out. The parsed options are an ordered list of name and value pairs.
- Logging, `coloredlogs` and the progress messages are left out, because they change no state.
- Python's `hash()` is an uninterpreted function. SHA-256 equality is content equality, so a SHA-256 collision is not modelled.
- `mimetypes.guess_extension` is an arbitrary function, because its table is platform data.
- `strftime` and the timestamps are left out. The formatted stamp is a parameter. `os.utime` is modelled by how it ends on a path: it succeeds, raises `PermissionError`, or raises another `OSError`.
- HTML tokenising and `glob` are left out. The model takes the tokens of each page and the list of files found, in the order found. File reads that fail in `get_previous_conversation_id` or on `conversationId.txt` are not modelled.
- Directory creation (`os.makedirs`), permissions and cross-device moves are left out. The attachment store is a map from file to bytes, and the renamed tree is a set of paths.
- A message without an `attachments` field is not modelled. A message's attachments are a list, so the `KeyError` that escapes both scripts is not modelled.
- The legacy script's main loop (`export.py:179-196`) is not modelled. It sums each message's counters like the loop of `main` in `signal_media_exporter/main.py`, but it has no exit when no message returned counters: the final log line then reads `stats['attachments']` from an empty dictionary and raises `KeyError` (`export.py:192`). Only the legacy `save_attachments` is modelled.
- Naming.SubtypeExtension: `str.lower()` is modelled on ASCII letters only. Python also lower-cases other letters, maps `İ` to two characters and a final `Σ` to `ς`, so a subtype with such letters gets a different extension in the source.
- MainScript.MediaSubtype: the same ASCII-only `str.lower()`. The extension of a subtype with non-ASCII capital letters keeps those capitals in the model.
- Naming.MakeFsName: `\d` in the reserved-name pattern is the Unicode category Nd as of Unicode 15.0.0 (`Text.IsDecimalDigit`). A Python built with another Unicode version can differ for digits added since.
- Settings.Sanitize: `\d` is the same Unicode 15.0.0 digit table; other Unicode versions can differ. `Text.IsDigit`, which is ASCII only, serves `str(n)`, whose digits are ASCII.
- Attachments.ExportSpec: a source path is looked up as written, with only its trailing `/` ignored for a directory. `os.path.exists` also resolves `.`, `..`, repeated `/` and symbolic links, which the store of files does not have.
- MainScript.SaveOne: the same lookup of the source path as written.
- Legacy.SaveOne: the same lookup of the source path as written.
- The TODO in `rename_previous_conversations` (a previous conversation with the same name but an unknown id) is not implemented in the source, so it is not modelled.
- Previous.RenamePreviousConversations: it makes the moves with the corrected target `RenameTarget`, not with `replace_rightmost` as written. The two agree for sender directories and conversation directories, whose last component is the name; see Findings.

## Findings

| source | as written | input that shows it | evidently intended | confidence | as-written member | corrected member |
|---|---|---|---|---|---|---|
| signal_media_exporter/previous.py:114 | `replace_rightmost(old_conv['fsName'], new_conv['fsName'], old_path)` replaces the rightmost occurrence of the old name anywhere in the page path, so with one HTML file per conversation the extension can be hit | conversation `ml` renamed to `Bob`, page `out/ml.html`: the page is moved to `out/ml.htBob` | the page becomes `out/Bob.html`: the name at the start of the last component is replaced and the extension is kept | high; not executed | Previous.PageRenameHitsExtension | Previous.RenameTargetBasename |
