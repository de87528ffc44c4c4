/** Renaming what an earlier run exported (signal_media_exporter/previous.py): find
    the conversation id in each exported HTML page and in each sender's
    `conversationId.txt`, and when a conversation's file-system name has changed since,
    move its sender directories and then its page or directory to the new name. */
module Previous {

  import opened Wrappers
  import opened Text
  import opened Paths

  // ---------------------------------------------------------------------------
  // get_previous_conversation_id

  /** What the HTML tokenizer reports: a start tag with its lower-cased name and its
      attributes (an attribute written without a value has none), or anything else. */
  datatype Token = StartTag(name: string, attrs: seq<(string, Option<string>)>) | OtherToken

  const IdAttribute := "data-conversation-id"

  /** Index of the first `data-conversation-id` attribute, if any. */
  function FirstIdAttribute(attrs: seq<(string, Option<string>)>): (r: Option<nat>)
    ensures r.Some? ==> r.value < |attrs| && attrs[r.value].0 == IdAttribute &&
                        forall j :: 0 <= j < r.value ==> attrs[j].0 != IdAttribute
    ensures r.None? ==> forall j :: 0 <= j < |attrs| ==> attrs[j].0 != IdAttribute
    decreases |attrs|
  {
    if attrs == [] then None
    else if attrs[0].0 == IdAttribute then Some(0)
    else match FirstIdAttribute(attrs[1..])
      case None => None
      case Some(j) => Some(j + 1)
  }

  /** An `html` start tag that carries the id attribute. */
  predicate CarriesId(t: Token) {
    t.StartTag? && t.name == "html" && FirstIdAttribute(t.attrs).Some?
  }

  /** Index of the first token that carries the id, if any. */
  function FirstCarrier(tokens: seq<Token>): (r: Option<nat>)
    ensures r.Some? ==> r.value < |tokens| && CarriesId(tokens[r.value]) &&
                        forall i :: 0 <= i < r.value ==> !CarriesId(tokens[i])
    ensures r.None? ==> forall i :: 0 <= i < |tokens| ==> !CarriesId(tokens[i])
    decreases |tokens|
  {
    if tokens == [] then None
    else if CarriesId(tokens[0]) then Some(0)
    else match FirstCarrier(tokens[1..])
      case None => None
      case Some(i) => Some(i + 1)
  }

  /** The value `Found` carries out of the parser, or `None` when the page ends first. */
  function ConversationIdOf(tokens: seq<Token>): Option<string> {
    match FirstCarrier(tokens)
    case None => None
    case Some(i) => tokens[i].attrs[FirstIdAttribute(tokens[i].attrs).value].1
  }

  /** The id is that of the first `html` tag carrying the attribute, from its first
      such attribute: nothing after that tag matters. */
  lemma ConversationIdStopsAtFirstCarrier(tokens: seq<Token>, i: nat, rest: seq<Token>)
    requires i < |tokens| && CarriesId(tokens[i]) && forall j :: 0 <= j < i ==> !CarriesId(tokens[j])
    ensures ConversationIdOf(tokens[..i + 1] + rest) == ConversationIdOf(tokens)
    ensures ConversationIdOf(tokens) == tokens[i].attrs[FirstIdAttribute(tokens[i].attrs).value].1
  {
    var t := tokens[..i + 1] + rest;
    assert forall j :: 0 <= j <= i ==> t[j] == tokens[j];
    assert FirstCarrier(t) == Some(i);
    assert FirstCarrier(tokens) == Some(i);
  }

  /** A page in which no `html` tag carries the attribute has no id. */
  lemma NoCarrierNoId(tokens: seq<Token>)
    requires forall i :: 0 <= i < |tokens| ==> !CarriesId(tokens[i])
    ensures ConversationIdOf(tokens) == None
  {
  }

  /** `get_previous_conversation_id`: the parser's callback looks at each `html`
      start tag's attributes in order and stops the whole parse at the first id. */
  method GetPreviousConversationId(tokens: seq<Token>) returns (r: Option<string>)
    ensures r == ConversationIdOf(tokens)
  {
    var i := 0;
    while i < |tokens|
      invariant i <= |tokens|
      invariant forall k :: 0 <= k < i ==> !CarriesId(tokens[k])
    {
      var t := tokens[i];
      if t.StartTag? && t.name == "html" {
        var j := 0;
        while j < |t.attrs|
          invariant j <= |t.attrs|
          invariant forall k :: 0 <= k < j ==> t.attrs[k].0 != IdAttribute
        {
          if t.attrs[j].0 == IdAttribute {
            assert FirstIdAttribute(t.attrs) == Some(j);
            ConversationIdStopsAtFirstCarrier(tokens, i, []);
            return t.attrs[j].1;
          }
          j := j + 1;
        }
      }
      i := i + 1;
    }
    return None;
  }

  // ---------------------------------------------------------------------------
  // replace_rightmost

  /** `replace_rightmost(old, new, string)`; `None` is the `Exception('Substring not
      found')` it raises. */
  function ReplaceRightmost(before: string, after: string, s: string): (r: Option<string>)
    ensures r.None? <==> forall j :: !OccursAt(s, before, j)
    ensures r.Some? ==>
              var i := RFind(s, before).value;
              && OccursAt(s, before, i) && (forall j :: i < j ==> !OccursAt(s, before, j))
              && |r.value| == |s| - |before| + |after|
              && r.value[..i] == s[..i]
              && r.value[i..i + |after|] == after
              && r.value[i + |after|..] == s[i + |before|..]
  {
    match RFind(s, before)
    case None => None
    case Some(i) => Some(s[..i] + after + s[i + |before|..])
  }

  /** The last path component of `path` begins with `before`. */
  predicate NamedAfter(path: Path, before: string) {
    StartsWith(Basename(path), before)
  }

  /** The intended target of a rename: the last component's leading `before` becomes
      `after`, and the rest of the component (such as `.html`) and the directory stay. */
  function RenameTarget(before: string, after: string, path: Path): (r: Path)
    requires NamedAfter(path, before)
    ensures |r| == |path| - |before| + |after|
    ensures r[..SlashEnd(path)] == path[..SlashEnd(path)]
  {
    path[..SlashEnd(path)] + after + Basename(path)[|before|..]
  }

  /** With a new name free of `/`, the target stays in the same directory and its last
      component is the new name followed by what came after the old one. */
  lemma RenameTargetBasename(before: string, after: string, path: Path)
    requires NamedAfter(path, before) && '/' !in after
    ensures Basename(RenameTarget(before, after, path)) == after + Basename(path)[|before|..]
    ensures Dirname(RenameTarget(before, after, path)) == Dirname(path)
  {
    var dir, rest := path[..SlashEnd(path)], Basename(path)[|before|..];
    var tail := after + rest;
    assert '/' !in rest;
    assert '/' !in tail;
    assert RenameTarget(before, after, path) == dir + tail;
    BasenameAfterSlash(dir, tail);
    BasenameAfterSlash(dir, Basename(path));
    assert dir + Basename(path) == path;
  }

  lemma BasenameAfterSlash(dir: Path, tail: string)
    requires dir == "" || dir[|dir| - 1] == '/'
    requires '/' !in tail
    ensures SlashEnd(dir + tail) == |dir|
    ensures Basename(dir + tail) == tail
    ensures Dirname(dir + tail) == Dirname(dir)
  {
    var p := dir + tail;
    assert forall k :: |dir| <= k < |p| ==> p[k] == tail[k - |dir|];
    assert dir != "" ==> p[|dir| - 1] == '/';
    assert p[..SlashEnd(p)] == dir;
    assert dir[..SlashEnd(dir)] == dir by {
      if dir != "" {
        assert SlashEnd(dir) == |dir|;
      }
    }
  }

  /** Where the last component is exactly the old name (a sender directory, or a
      conversation directory), the rightmost occurrence is that component and
      `replace_rightmost` gives the intended target. */
  lemma ReplaceRightmostRenamesLastComponent(before: string, after: string, path: Path)
    requires Basename(path) == before
    ensures NamedAfter(path, before)
    ensures ReplaceRightmost(before, after, path) == Some(RenameTarget(before, after, path))
  {
    assert EndsWith(path, Basename(path));
    RFindSuffix(path, before);
    assert SlashEnd(path) == |path| - |before|;
  }

  /** A conversation page `ml.html` renamed to `Bob`: the rightmost `ml` is the one in
      `.html`, so the page is moved to `ml.htBob` rather than to `Bob.html`. */
  lemma PageRenameHitsExtension(before: string, after: string, path: Path)
    requires before == "ml" && after == "Bob" && path == "out/ml.html"
    ensures ReplaceRightmost(before, after, path) == Some("out/ml.htBob")
    ensures NamedAfter(path, before) && RenameTarget(before, after, path) == "out/Bob.html"
  {
    assert OccursAt(path, before, 9);
    assert RFind(path, before) == Some(9);
    assert path[..9] + after + path[11..] == "out/ml.htBob";
    assert SlashEnd(path) == 4 by {
      assert path[3] == '/';
      assert forall k :: 4 <= k < |path| ==> path[k] != '/';
    }
    assert Basename(path) == "ml.html";
    assert path[..4] + after + ".html" == "out/Bob.html";
  }

  // ---------------------------------------------------------------------------
  // get_previous_conversations_by_id

  /** An exported conversation page found by the glob (`index.html` one level down with
      conversation directories, any `.html` file otherwise), with its tokens. */
  datatype Page = Page(path: Path, tokens: seq<Token>)

  /** A sender directory's `conversationId.txt` and its whole content. */
  datatype IdFile = IdFile(path: Path, content: string)

  /** What is known about one conversation id; the two paths are absent when no page,
      respectively no sender directory, carries the id. */
  datatype Record = Record(fsName: string, conversationPath: Option<Path>, senderPaths: Option<seq<Path>>)

  /** Both end the program with exit status 1 after logging the two names. */
  datatype ScanError = DuplicateConversation(id: string) | SenderNameMismatch(id: string)

  /** A page's id as read from it, with the record it would start. */
  datatype PageEntry = PageEntry(id: Option<string>, record: Record)

  /** Reading every page, in order. */
  function ReadPages(dirs: bool, pages: seq<Page>): (r: seq<PageEntry>)
    ensures |r| == |pages|
    ensures forall i :: 0 <= i < |pages| ==>
              r[i] == PageEntry(ConversationIdOf(pages[i].tokens), PageRecord(dirs, pages[i].path))
  {
    seq(|pages|, i requires 0 <= i < |pages| =>
      PageEntry(ConversationIdOf(pages[i].tokens), PageRecord(dirs, pages[i].path)))
  }

  /** `if conversation_id:` -- a missing or empty id is skipped. */
  function Kept(id: Option<string>): (r: Option<string>)
    ensures r.Some? <==> id.Some? && id.value != ""
    ensures r.Some? ==> r == id
  {
    if id == Some("") then None else id
  }

  /** The record a page starts: its directory and that directory's name with
      conversation directories, otherwise the page and its name without extension. */
  function PageRecord(dirs: bool, file: Path): Record {
    if dirs then Record(Basename(Dirname(file)), Some(Dirname(file)), None)
    else Record(SplitExt(Basename(file)).0, Some(file), None)
  }

  /** Either way the page's (or its directory's) last component begins with the name. */
  lemma PageRecordNamed(dirs: bool, file: Path)
    ensures PageRecord(dirs, file).conversationPath.Some?
    ensures NamedAfter(PageRecord(dirs, file).conversationPath.value, PageRecord(dirs, file).fsName)
    ensures PageRecord(dirs, file).senderPaths == None
  {
    if !dirs {
      var b := Basename(file);
      assert SplitExt(b).0 + SplitExt(b).1 == b;
      assert b[..|SplitExt(b).0|] == SplitExt(b).0;
    }
  }

  /** One step of the first loop: a page without id is skipped, a second page with the
      same id is an error, otherwise the page's record is stored under its id. */
  function AddPage(res: map<string, Record>, page: PageEntry): Result<map<string, Record>, ScanError> {
    match Kept(page.id)
    case None => Ok(res)
    case Some(id) => if id in res then Err(DuplicateConversation(id)) else Ok(res[id := page.record])
  }

  /** The first loop, from page `k` on. */
  function ScanPages(pages: seq<PageEntry>, k: nat, res: map<string, Record>)
    : Result<map<string, Record>, ScanError>
    requires k <= |pages|
    decreases |pages| - k
  {
    if k == |pages| then Ok(res)
    else match AddPage(res, pages[k])
      case Err(e) => Err(e)
      case Ok(res') => ScanPages(pages, k + 1, res')
  }

  /** No two of the first `n` pages carry the same (non-empty) id. */
  ghost predicate DistinctPageIds(pages: seq<PageEntry>, n: nat)
    requires n <= |pages|
  {
    forall i, j :: 0 <= i < j < n && Kept(pages[i].id).Some? ==> Kept(pages[j].id) != Kept(pages[i].id)
  }

  /** `res` holds exactly the ids of the first `n` pages, each with its page's record. */
  ghost predicate PagesIndexed(pages: seq<PageEntry>, n: nat, res: map<string, Record>)
    requires n <= |pages|
  {
    && (forall id :: id in res <==> exists i :: 0 <= i < n && Kept(pages[i].id) == Some(id))
    && (forall i :: 0 <= i < n && Kept(pages[i].id).Some? ==>
          Kept(pages[i].id).value in res && res[Kept(pages[i].id).value] == pages[i].record)
  }

  lemma PageWithoutIdStep(pages: seq<PageEntry>, k: nat, res: map<string, Record>)
    requires k < |pages| && Kept(pages[k].id).None?
    requires DistinctPageIds(pages, k) && PagesIndexed(pages, k, res)
    ensures DistinctPageIds(pages, k + 1) && PagesIndexed(pages, k + 1, res)
  {
  }

  lemma DuplicatePageStep(pages: seq<PageEntry>, k: nat, res: map<string, Record>)
    requires k < |pages| && Kept(pages[k].id).Some? && Kept(pages[k].id).value in res
    requires PagesIndexed(pages, k, res)
    ensures !DistinctPageIds(pages, |pages|)
  {
    var id := Kept(pages[k].id).value;
    var i :| 0 <= i < k && Kept(pages[i].id) == Some(id);
    assert Kept(pages[k].id) == Kept(pages[i].id);
  }

  lemma NewPageDistinct(pages: seq<PageEntry>, k: nat, res: map<string, Record>)
    requires k < |pages| && Kept(pages[k].id).Some? && Kept(pages[k].id).value !in res
    requires DistinctPageIds(pages, k) && PagesIndexed(pages, k, res)
    ensures DistinctPageIds(pages, k + 1)
  {
    forall i | 0 <= i < k && Kept(pages[i].id).Some?
      ensures Kept(pages[k].id) != Kept(pages[i].id)
    {
      assert Kept(pages[i].id).value in res;
    }
  }

  lemma NewPageIndexed(pages: seq<PageEntry>, k: nat, res: map<string, Record>)
    requires k < |pages| && Kept(pages[k].id).Some? && Kept(pages[k].id).value !in res
    requires PagesIndexed(pages, k, res)
    ensures PagesIndexed(pages, k + 1, res[Kept(pages[k].id).value := pages[k].record])
  {
    var id := Kept(pages[k].id).value;
    var res' := res[id := pages[k].record];
    forall x
      ensures x in res' <==> exists i :: 0 <= i < k + 1 && Kept(pages[i].id) == Some(x)
    {
      if x == id {
        assert Kept(pages[k].id) == Some(x);
      } else if x in res {
        var i :| 0 <= i < k && Kept(pages[i].id) == Some(x);
        assert 0 <= i < k + 1;
      }
    }
  }

  lemma {:induction false} ScanPagesFrom(pages: seq<PageEntry>, k: nat, res: map<string, Record>)
    requires k <= |pages|
    requires DistinctPageIds(pages, k) && PagesIndexed(pages, k, res)
    ensures ScanPages(pages, k, res).Ok? <==> DistinctPageIds(pages, |pages|)
    ensures ScanPages(pages, k, res).Ok? ==> PagesIndexed(pages, |pages|, ScanPages(pages, k, res).value)
    decreases |pages| - k
  {
    if k < |pages| {
      var id := Kept(pages[k].id);
      if id.None? {
        PageWithoutIdStep(pages, k, res);
        ScanPagesFrom(pages, k + 1, res);
      } else if id.value in res {
        DuplicatePageStep(pages, k, res);
      } else {
        NewPageDistinct(pages, k, res);
        NewPageIndexed(pages, k, res);
        ScanPagesFrom(pages, k + 1, res[id.value := pages[k].record]);
      }
    }
  }

  /** The first loop fails exactly when two pages carry the same id, and otherwise
      maps every page's id, and nothing else, to that page's record. */
  lemma ScanPagesMeaning(pages: seq<PageEntry>)
    ensures ScanPages(pages, 0, map[]).Ok? <==> DistinctPageIds(pages, |pages|)
    ensures ScanPages(pages, 0, map[]).Ok? ==> PagesIndexed(pages, |pages|, ScanPages(pages, 0, map[]).value)
  {
    ScanPagesFrom(pages, 0, map[]);
  }

  function SenderPathsOf(rec: Record): seq<Path> {
    rec.senderPaths.GetOr([])
  }

  /** An id file's content, with its sender directory and that directory's name. */
  datatype SenderEntry = SenderEntry(id: string, dir: Path, name: string)

  /** Reading one id file: its content, and the directory holding it with that
      directory's name. */
  function ReadSender(file: IdFile): SenderEntry {
    var dir := Dirname(file.path);
    SenderEntry(file.content, dir, Basename(dir))
  }

  /** Reading every id file, in order. */
  function ReadSenders(files: seq<IdFile>): (r: seq<SenderEntry>)
    ensures |r| == |files|
    ensures forall i :: 0 <= i < |files| ==> r[i] == ReadSender(files[i])
  {
    seq(|files|, i requires 0 <= i < |files| => ReadSender(files[i]))
  }

  /** One step of the second loop: a sender directory whose name differs from the one
      already recorded for its id is an error, otherwise it is appended to the id's
      sender paths (creating a record named after it when the id is new). */
  function AddSender(res: map<string, Record>, s: SenderEntry): Result<map<string, Record>, ScanError> {
    if s.id in res && s.name != res[s.id].fsName then Err(SenderNameMismatch(s.id))
    else
      var rec := if s.id in res then res[s.id] else Record(s.name, None, None);
      Ok(res[s.id := rec.(senderPaths := Some(SenderPathsOf(rec) + [s.dir]))])
  }

  /** The second loop, from id file `k` on. */
  function ScanSenders(senders: seq<SenderEntry>, k: nat, res: map<string, Record>)
    : Result<map<string, Record>, ScanError>
    requires k <= |senders|
    decreases |senders| - k
  {
    if k == |senders| then Ok(res)
    else match AddSender(res, senders[k])
      case Err(e) => Err(e)
      case Ok(res') => ScanSenders(senders, k + 1, res')
  }

  /** `get_previous_conversations_by_id`, over the globbed pages and id files. */
  function PreviousConversations(dirs: bool, pages: seq<Page>, files: seq<IdFile>)
    : Result<map<string, Record>, ScanError>
  {
    match ScanPages(ReadPages(dirs, pages), 0, map[])
    case Err(e) => Err(e)
    case Ok(res) => ScanSenders(ReadSenders(files), 0, res)
  }

  /** The directories of the entries carrying `id`, in order. */
  function SenderDirsFor(senders: seq<SenderEntry>, id: string): seq<Path> {
    if senders == [] then []
    else
      var last := senders[|senders| - 1];
      SenderDirsFor(senders[..|senders| - 1], id) + (if last.id == id then [last.dir] else [])
  }

  /** Each directory listed for `id` is that of an entry carrying `id`, and some
      directory is listed whenever an entry carries `id`. */
  lemma {:induction false} SenderDirsForMembers(senders: seq<SenderEntry>, id: string)
    ensures forall p :: p in SenderDirsFor(senders, id) ==>
              exists i :: 0 <= i < |senders| && senders[i].id == id && senders[i].dir == p
    ensures (exists i :: 0 <= i < |senders| && senders[i].id == id) ==> SenderDirsFor(senders, id) != []
  {
    if senders != [] {
      var n := |senders|;
      SenderDirsForMembers(senders[..n - 1], id);
      assert forall i :: 0 <= i < n - 1 ==> senders[..n - 1][i] == senders[i];
    }
  }

  /** The name of the first entry carrying `id`. */
  function FirstNameFor(senders: seq<SenderEntry>, id: string): string
    requires SenderDirsFor(senders, id) != []
  {
    var n := |senders|;
    if SenderDirsFor(senders[..n - 1], id) != [] then FirstNameFor(senders[..n - 1], id)
    else senders[n - 1].name
  }

  /** Every record comes from a page. */
  ghost predicate PageRecords(res0: map<string, Record>) {
    forall id :: id in res0 ==> res0[id].senderPaths == None
  }

  /** The record an id has once `senders` have been read after the pages. */
  function Expected(res0: map<string, Record>, senders: seq<SenderEntry>, id: string): Record
    requires id in res0 || SenderDirsFor(senders, id) != []
  {
    var dirs := SenderDirsFor(senders, id);
    if id in res0 then res0[id].(senderPaths := if dirs == [] then None else Some(dirs))
    else Record(FirstNameFor(senders, id), None, Some(dirs))
  }

  /** Entry `k` names a sender directory differently from the record in force. */
  predicate Mismatch(res0: map<string, Record>, senders: seq<SenderEntry>, k: nat)
    requires k < |senders|
  {
    var id := senders[k].id;
    (id in res0 || SenderDirsFor(senders[..k], id) != []) &&
    senders[k].name != Expected(res0, senders[..k], id).fsName
  }

  /** After `k` entries, `res` holds what `Expected` says, and each of those entries is
      named like its record. */
  ghost predicate SendersIndexed(res0: map<string, Record>, senders: seq<SenderEntry>, k: nat, res: map<string, Record>)
    requires k <= |senders|
  {
    && (forall id :: id in res <==> id in res0 || SenderDirsFor(senders[..k], id) != [])
    && (forall id :: id in res ==> res[id] == Expected(res0, senders[..k], id))
    && (forall i :: 0 <= i < k ==> senders[i].id in res && senders[i].name == res[senders[i].id].fsName)
  }

  lemma SenderDirsExtend(senders: seq<SenderEntry>, k: nat, id: string)
    requires k < |senders|
    ensures SenderDirsFor(senders[..k + 1], id) ==
              SenderDirsFor(senders[..k], id) + (if senders[k].id == id then [senders[k].dir] else [])
    ensures SenderDirsFor(senders[..k], id) != [] ==>
              FirstNameFor(senders[..k + 1], id) == FirstNameFor(senders[..k], id)
    ensures SenderDirsFor(senders[..k], id) == [] && senders[k].id == id ==>
              FirstNameFor(senders[..k + 1], id) == senders[k].name
  {
    assert senders[..k + 1][..k] == senders[..k];
  }

  lemma AddSenderFails(res0: map<string, Record>, senders: seq<SenderEntry>, k: nat, res: map<string, Record>)
    requires k < |senders| && SendersIndexed(res0, senders, k, res)
    ensures AddSender(res, senders[k]).Err? <==> Mismatch(res0, senders, k)
  {
  }

  lemma AddSenderKeys(res0: map<string, Record>, senders: seq<SenderEntry>, k: nat, res: map<string, Record>)
    requires k < |senders| && SendersIndexed(res0, senders, k, res) && AddSender(res, senders[k]).Ok?
    ensures forall x :: x in AddSender(res, senders[k]).value <==> x in res0 || SenderDirsFor(senders[..k + 1], x) != []
  {
    forall x
      ensures x in AddSender(res, senders[k]).value <==> x in res0 || SenderDirsFor(senders[..k + 1], x) != []
    {
      SenderDirsExtend(senders, k, x);
    }
  }

  /** The entry's own id, already recorded: its directory is appended. */
  lemma AddSenderToRecorded(res0: map<string, Record>, senders: seq<SenderEntry>, k: nat, res: map<string, Record>)
    requires k < |senders| && PageRecords(res0) && SendersIndexed(res0, senders, k, res)
    requires AddSender(res, senders[k]).Ok? && senders[k].id in res
    ensures AddSender(res, senders[k]).value[senders[k].id] == Expected(res0, senders[..k + 1], senders[k].id)
  {
    var s := senders[k];
    var x := s.id;
    SenderDirsExtend(senders, k, x);
    var dirs := SenderDirsFor(senders[..k], x);
    assert res[x] == Expected(res0, senders[..k], x);
    assert SenderPathsOf(res[x]) == dirs;
    assert SenderDirsFor(senders[..k + 1], x) == dirs + [s.dir];
  }

  /** The entry's own id, new: a record named after the entry. */
  lemma AddSenderToNew(res0: map<string, Record>, senders: seq<SenderEntry>, k: nat, res: map<string, Record>)
    requires k < |senders| && SendersIndexed(res0, senders, k, res)
    requires senders[k].id !in res
    ensures AddSender(res, senders[k]).Ok?
    ensures AddSender(res, senders[k]).value[senders[k].id] == Expected(res0, senders[..k + 1], senders[k].id)
  {
    var s := senders[k];
    SenderDirsExtend(senders, k, s.id);
    assert s.id !in res0 && SenderDirsFor(senders[..k], s.id) == [];
    assert SenderDirsFor(senders[..k + 1], s.id) == [s.dir];
  }

  /** Another id: its record is untouched. */
  lemma AddSenderToOther(res0: map<string, Record>, senders: seq<SenderEntry>, k: nat, res: map<string, Record>, x: string)
    requires k < |senders| && SendersIndexed(res0, senders, k, res)
    requires AddSender(res, senders[k]).Ok? && x in res && x != senders[k].id
    ensures x in res0 || SenderDirsFor(senders[..k + 1], x) != []
    ensures AddSender(res, senders[k]).value[x] == Expected(res0, senders[..k + 1], x)
  {
    var s := senders[k];
    SenderDirsExtend(senders, k, x);
    assert SenderDirsFor(senders[..k + 1], x) == SenderDirsFor(senders[..k], x);
    assert res[x] == Expected(res0, senders[..k], x);
    var rec := if s.id in res then res[s.id] else Record(s.name, None, None);
    assert AddSender(res, s).value == res[s.id := rec.(senderPaths := Some(SenderPathsOf(rec) + [s.dir]))];
  }

  lemma AddSenderRecords(res0: map<string, Record>, senders: seq<SenderEntry>, k: nat, res: map<string, Record>)
    requires k < |senders| && PageRecords(res0) && SendersIndexed(res0, senders, k, res)
    requires AddSender(res, senders[k]).Ok?
    ensures forall x :: x in AddSender(res, senders[k]).value <==> x in res0 || SenderDirsFor(senders[..k + 1], x) != []
    ensures forall x :: x in AddSender(res, senders[k]).value ==>
              AddSender(res, senders[k]).value[x] == Expected(res0, senders[..k + 1], x)
  {
    AddSenderKeys(res0, senders, k, res);
    var s := senders[k];
    var res' := AddSender(res, s).value;
    forall x | x in res' && (x in res0 || SenderDirsFor(senders[..k + 1], x) != [])
      ensures res'[x] == Expected(res0, senders[..k + 1], x)
    {
      if x != s.id {
        AddSenderToOther(res0, senders, k, res, x);
      } else if x in res {
        AddSenderToRecorded(res0, senders, k, res);
      } else {
        AddSenderToNew(res0, senders, k, res);
      }
    }
  }

  lemma AddSenderNames(res0: map<string, Record>, senders: seq<SenderEntry>, k: nat, res: map<string, Record>)
    requires k < |senders| && SendersIndexed(res0, senders, k, res) && AddSender(res, senders[k]).Ok?
    ensures forall i :: 0 <= i < k + 1 ==>
              (senders[i].id in AddSender(res, senders[k]).value &&
               senders[i].name == AddSender(res, senders[k]).value[senders[i].id].fsName)
  {
    var res' := AddSender(res, senders[k]).value;
    forall i | 0 <= i < k + 1 ensures senders[i].id in res' && senders[i].name == res'[senders[i].id].fsName {
      if i < k {
        assert senders[i].id in res;
      }
    }
  }

  lemma AddSenderKeeps(res0: map<string, Record>, senders: seq<SenderEntry>, k: nat, res: map<string, Record>)
    requires k < |senders| && PageRecords(res0) && SendersIndexed(res0, senders, k, res)
    requires AddSender(res, senders[k]).Ok?
    ensures SendersIndexed(res0, senders, k + 1, AddSender(res, senders[k]).value)
  {
    AddSenderRecords(res0, senders, k, res);
    AddSenderNames(res0, senders, k, res);
  }

  lemma {:induction false} ScanSendersFrom(res0: map<string, Record>, senders: seq<SenderEntry>, k: nat, res: map<string, Record>)
    requires k <= |senders| && PageRecords(res0) && SendersIndexed(res0, senders, k, res)
    requires forall j :: 0 <= j < k ==> !Mismatch(res0, senders, j)
    ensures ScanSenders(senders, k, res).Err? <==> exists j :: 0 <= j < |senders| && Mismatch(res0, senders, j)
    ensures ScanSenders(senders, k, res).Ok? ==> SendersIndexed(res0, senders, |senders|, ScanSenders(senders, k, res).value)
    decreases |senders| - k
  {
    if k < |senders| {
      AddSenderFails(res0, senders, k, res);
      if AddSender(res, senders[k]).Ok? {
        AddSenderKeeps(res0, senders, k, res);
        assert !Mismatch(res0, senders, k);
        assert forall j :: 0 <= j < k + 1 ==> !Mismatch(res0, senders, j) by {
          forall j | 0 <= j < k + 1 ensures !Mismatch(res0, senders, j) {
          }
        }
        ScanSendersFrom(res0, senders, k + 1, AddSender(res, senders[k]).value);
      }
    }
  }

  /** The second loop, after the pages: it fails exactly when some id file names its
      sender directory differently from the record then in force; otherwise each id
      has the page's record (if any) with the directories of its id files, in order,
      as sender paths, and every id file is named like its record. */
  lemma ScanSendersMeaning(res0: map<string, Record>, senders: seq<SenderEntry>)
    requires PageRecords(res0)
    ensures ScanSenders(senders, 0, res0).Err? <==> exists j :: 0 <= j < |senders| && Mismatch(res0, senders, j)
    ensures ScanSenders(senders, 0, res0).Ok? ==> SendersIndexed(res0, senders, |senders|, ScanSenders(senders, 0, res0).value)
  {
    assert forall id :: SenderDirsFor(senders[..0], id) == [];
    ScanSendersFrom(res0, senders, 0, res0);
  }

  /** What the renaming relies on: a conversation's page (or directory) is named
      after the conversation, and each of its sender directories is named exactly so. */
  ghost predicate WellFormed(previous: map<string, Record>) {
    forall id :: id in previous ==>
      && (previous[id].conversationPath.Some? ==> NamedAfter(previous[id].conversationPath.value, previous[id].fsName))
      && (forall p :: p in SenderPathsOf(previous[id]) ==> Basename(p) == previous[id].fsName)
  }

  lemma PageRecordsNamed(dirs: bool, pages: seq<Page>, res0: map<string, Record>)
    requires PagesIndexed(ReadPages(dirs, pages), |pages|, res0)
    ensures PageRecords(res0)
    ensures forall id :: id in res0 ==>
              res0[id].conversationPath.Some? && NamedAfter(res0[id].conversationPath.value, res0[id].fsName)
  {
    var entries := ReadPages(dirs, pages);
    forall id | id in res0
      ensures res0[id].senderPaths == None
      ensures res0[id].conversationPath.Some? && NamedAfter(res0[id].conversationPath.value, res0[id].fsName)
    {
      var i :| 0 <= i < |pages| && Kept(entries[i].id) == Some(id);
      PageRecordNamed(dirs, pages[i].path);
    }
  }

  lemma SenderRecordsNamed(res0: map<string, Record>, files: seq<IdFile>, res: map<string, Record>)
    requires SendersIndexed(res0, ReadSenders(files), |files|, res)
    requires forall id :: id in res0 ==>
               res0[id].conversationPath.Some? && NamedAfter(res0[id].conversationPath.value, res0[id].fsName)
    ensures WellFormed(res)
  {
    var senders := ReadSenders(files);
    assert senders[..|files|] == senders;
    forall id | id in res
      ensures res[id].conversationPath.Some? ==> NamedAfter(res[id].conversationPath.value, res[id].fsName)
      ensures forall p :: p in SenderPathsOf(res[id]) ==> Basename(p) == res[id].fsName
    {
      SenderDirsForMembers(senders, id);
      forall p | p in SenderPathsOf(res[id]) ensures Basename(p) == res[id].fsName {
        var i :| 0 <= i < |senders| && senders[i].id == id && senders[i].dir == p;
        assert senders[i] == ReadSender(files[i]);
        assert senders[i].name == res[id].fsName;
      }
    }
  }

  /** Whatever the scan returns is well formed: a page is named after its record
      (its name is the page's name without extension, or its directory's name), and
      a sender directory is named exactly as its record, or the scan stops. */
  lemma PreviousConversationsWellFormed(dirs: bool, pages: seq<Page>, files: seq<IdFile>)
    ensures PreviousConversations(dirs, pages, files).Ok? ==> WellFormed(PreviousConversations(dirs, pages, files).value)
  {
    var entries := ReadPages(dirs, pages);
    ScanPagesMeaning(entries);
    if ScanPages(entries, 0, map[]).Ok? {
      var res0 := ScanPages(entries, 0, map[]).value;
      PageRecordsNamed(dirs, pages, res0);
      ScanSendersMeaning(res0, ReadSenders(files));
      if ScanSenders(ReadSenders(files), 0, res0).Ok? {
        SenderRecordsNamed(res0, files, ScanSenders(ReadSenders(files), 0, res0).value);
      }
    }
  }

  /** The first loop of `get_previous_conversations_by_id`, over the pages. */
  method ScanPreviousPages(dirs: bool, pages: seq<Page>) returns (r: Result<map<string, Record>, ScanError>)
    ensures r == ScanPages(ReadPages(dirs, pages), 0, map[])
  {
    ghost var entries := ReadPages(dirs, pages);
    ghost var outcome := ScanPages(entries, 0, map[]);
    var res: map<string, Record> := map[];
    var i := 0;
    while i < |pages|
      invariant i <= |pages| == |entries|
      invariant ScanPages(entries, i, res) == outcome
    {
      var id := GetPreviousConversationId(pages[i].tokens);
      var entry := PageEntry(id, PageRecord(dirs, pages[i].path));
      assert entries[i] == entry;
      var step := AddPage(res, entry);
      if step.Err? {
        return Err(step.error);
      }
      res := step.value;
      i := i + 1;
    }
    return Ok(res);
  }

  /** The second loop of `get_previous_conversations_by_id`, over the id files once
      read. */
  method ScanPreviousSenders(res0: map<string, Record>, senders: seq<SenderEntry>)
    returns (r: Result<map<string, Record>, ScanError>)
    ensures r == ScanSenders(senders, 0, res0)
  {
    ghost var outcome := ScanSenders(senders, 0, res0);
    var res := res0;
    var j := 0;
    while j < |senders|
      invariant j <= |senders|
      invariant ScanSenders(senders, j, res) == outcome
    {
      var step := AddSender(res, senders[j]);
      if step.Err? {
        return Err(step.error);
      }
      res := step.value;
      j := j + 1;
    }
    return Ok(res);
  }

  /** `get_previous_conversations_by_id`: the two loops over the globbed files. */
  method GetPreviousConversationsById(dirs: bool, pages: seq<Page>, files: seq<IdFile>)
    returns (r: Result<map<string, Record>, ScanError>)
    ensures r == PreviousConversations(dirs, pages, files)
    ensures r.Ok? ==> WellFormed(r.value)
  {
    PreviousConversationsWellFormed(dirs, pages, files);
    r := ScanPreviousPages(dirs, pages);
    if r.Ok? {
      r := ScanPreviousSenders(r.value, ReadSenders(files));
    }
  }

  // ---------------------------------------------------------------------------
  // rename_previous_conversations

  /** A conversation of the current run: its id and its file-system name. */
  datatype Conversation = Conversation(id: string, fsName: string)

  datatype MoveKind = SenderMove | ConversationMove

  /** One `shutil.move` of a sender directory or of a conversation page or directory. */
  datatype Move = Move(kind: MoveKind, from: Path, to: Path)

  /** The conversation was exported before, under another name. */
  predicate Renamed(previous: map<string, Record>, c: Conversation) {
    c.id in previous && c.fsName != previous[c.id].fsName
  }

  /** Moving each of `paths` to its name with `before` replaced by `after`. */
  function MovesFor(kind: MoveKind, paths: seq<Path>, before: string, after: string): (r: seq<Move>)
    requires forall p :: p in paths ==> NamedAfter(p, before)
    ensures |r| == |paths|
    ensures forall j :: 0 <= j < |r| ==> r[j].kind == kind && r[j].from == paths[j]
  {
    if paths == [] then []
    else [Move(kind, paths[0], RenameTarget(before, after, paths[0]))] + MovesFor(kind, paths[1..], before, after)
  }

  /** The `j`th move goes to the rename target of the `j`th path. */
  lemma {:induction false} MovesForAt(kind: MoveKind, paths: seq<Path>, before: string, after: string, j: nat)
    requires forall p :: p in paths ==> NamedAfter(p, before)
    requires j < |paths|
    ensures MovesFor(kind, paths, before, after)[j] == Move(kind, paths[j], RenameTarget(before, after, paths[j]))
    decreases j
  {
    if j > 0 {
      MovesForAt(kind, paths[1..], before, after, j - 1);
    }
  }

  /** The sender directories to move for one conversation of the current run. */
  function SenderMovesOf(previous: map<string, Record>, c: Conversation): seq<Move>
    requires WellFormed(previous)
  {
    if Renamed(previous, c) && previous[c.id].senderPaths.Some? then
      var rec := previous[c.id];
      assert forall p :: p in rec.senderPaths.value ==> NamedAfter(p, rec.fsName) by {
        forall p | p in rec.senderPaths.value ensures NamedAfter(p, rec.fsName) {
          assert p in SenderPathsOf(rec);
        }
      }
      MovesFor(SenderMove, rec.senderPaths.value, rec.fsName, c.fsName)
    else []
  }

  /** The page or directory to move for one conversation of the current run. */
  function ConversationMovesOf(previous: map<string, Record>, c: Conversation): seq<Move>
    requires WellFormed(previous)
  {
    if Renamed(previous, c) && previous[c.id].conversationPath.Some? then
      var rec := previous[c.id];
      MovesFor(ConversationMove, [rec.conversationPath.value], rec.fsName, c.fsName)
    else []
  }

  /** The first loop's moves, conversation by conversation. */
  function SenderMoves(previous: map<string, Record>, convs: seq<Conversation>): seq<Move>
    requires WellFormed(previous)
  {
    if convs == [] then []
    else SenderMoves(previous, convs[..|convs| - 1]) + SenderMovesOf(previous, convs[|convs| - 1])
  }

  /** The second loop's moves, conversation by conversation. */
  function ConversationMoves(previous: map<string, Record>, convs: seq<Conversation>): seq<Move>
    requires WellFormed(previous)
  {
    if convs == [] then []
    else ConversationMoves(previous, convs[..|convs| - 1]) + ConversationMovesOf(previous, convs[|convs| - 1])
  }

  /** Every move, in the order the two loops make them: all sender directories first,
      since they may lie inside a conversation directory moved afterwards. */
  function Plan(previous: map<string, Record>, convs: seq<Conversation>): seq<Move>
    requires WellFormed(previous)
  {
    SenderMoves(previous, convs) + ConversationMoves(previous, convs)
  }

  // The exported tree is the set of paths that exist (files and directories alike).

  /** `shutil.move(from, to)`: `from` and everything under it reappear under `to`;
      everything else stays. */
  function MoveTree(paths: set<Path>, from: Path, to: Path): set<Path> {
    (set p | p in paths && !Within(p, from)) + (set q | q in paths && Within(q, from) :: to + q[|from|..])
  }

  /** What `shutil.move` leaves: the paths outside `from`, and those inside it relocated
      under `to`, `from` itself becoming `to`; nothing else. */
  lemma MoveTreeMeaning(paths: set<Path>, from: Path, to: Path)
    ensures var r := MoveTree(paths, from, to);
            && (forall p :: p in paths && !Within(p, from) ==> p in r)
            && (forall q :: q in paths && Within(q, from) ==> to + q[|from|..] in r)
            && (from in paths ==> to in r)
            && (forall p :: p in r ==>
                  (p in paths && !Within(p, from)) || exists q :: q in paths && Within(q, from) && p == to + q[|from|..])
  {
    assert from in paths ==> Within(from, from) && to + from[|from|..] == to;
  }

  /** Why a rename stops; each is logged, and all but `Done` end the program. */
  datatype RenameOutcome =
    | Done
    | ScanFailed(error: ScanError)
    | DestinationExists(move: Move)
    | SourceMissing(move: Move)

  /** One move: refused when the destination exists (`os.path.lexists`), failing when
      the source is gone, otherwise made. */
  function ApplyMove(paths: set<Path>, m: Move): Result<set<Path>, RenameOutcome> {
    if m.to in paths then Err(DestinationExists(m))
    else if m.from !in paths then Err(SourceMissing(m))
    else Ok(MoveTree(paths, m.from, m.to))
  }

  /** Making the moves from `k` on; the first that fails stops the program with the
      moves before it made. */
  function Execute(paths: set<Path>, plan: seq<Move>, k: nat): (RenameOutcome, set<Path>)
    requires k <= |plan|
    decreases |plan| - k
  {
    if k == |plan| then (Done, paths)
    else match ApplyMove(paths, plan[k])
      case Err(o) => (o, paths)
      case Ok(paths') => Execute(paths', plan, k + 1)
  }

  /** `rename_previous_conversations` on the exported tree `paths`. */
  function RenameSpec(convs: seq<Conversation>, dirs: bool, pages: seq<Page>, files: seq<IdFile>, paths: set<Path>)
    : (RenameOutcome, set<Path>)
  {
    match PreviousConversations(dirs, pages, files)
    case Err(e) => (ScanFailed(e), paths)
    case Ok(previous) =>
      PreviousConversationsWellFormed(dirs, pages, files);
      Execute(paths, Plan(previous, convs), 0)
  }

  lemma {:induction false} SenderMovesKind(previous: map<string, Record>, convs: seq<Conversation>)
    requires WellFormed(previous)
    ensures forall i :: 0 <= i < |SenderMoves(previous, convs)| ==> SenderMoves(previous, convs)[i].kind == SenderMove
  {
    if convs != [] {
      SenderMovesKind(previous, convs[..|convs| - 1]);
    }
  }

  lemma {:induction false} ConversationMovesKind(previous: map<string, Record>, convs: seq<Conversation>)
    requires WellFormed(previous)
    ensures forall i :: 0 <= i < |ConversationMoves(previous, convs)| ==>
              ConversationMoves(previous, convs)[i].kind == ConversationMove
  {
    if convs != [] {
      ConversationMovesKind(previous, convs[..|convs| - 1]);
    }
  }

  /** Every sender directory is moved before any conversation page or directory. */
  lemma PlanMovesSendersFirst(previous: map<string, Record>, convs: seq<Conversation>)
    requires WellFormed(previous)
    ensures forall i, j :: 0 <= i < j < |Plan(previous, convs)| && Plan(previous, convs)[i].kind == ConversationMove ==>
              Plan(previous, convs)[j].kind == ConversationMove
  {
    SenderMovesKind(previous, convs);
    ConversationMovesKind(previous, convs);
  }

  /** Move `m` renames conversation `c`: it takes one of its recorded paths to the same
      place with the old name replaced by the new one, and it is what
      `replace_rightmost` gives wherever the last component is exactly the old name,
      as it always is for a sender directory. */
  ghost predicate MoveOf(previous: map<string, Record>, c: Conversation, m: Move) {
    && Renamed(previous, c)
    && var rec := previous[c.id];
    && NamedAfter(m.from, rec.fsName)
    && m.to == RenameTarget(rec.fsName, c.fsName, m.from)
    && (m.kind == SenderMove ==> m.from in SenderPathsOf(rec) && Basename(m.from) == rec.fsName)
    && (m.kind == ConversationMove ==> rec.conversationPath == Some(m.from))
    && (Basename(m.from) == rec.fsName ==> ReplaceRightmost(rec.fsName, c.fsName, m.from) == Some(m.to))
  }

  lemma MovesOfOne(previous: map<string, Record>, c: Conversation)
    requires WellFormed(previous)
    ensures forall m :: m in SenderMovesOf(previous, c) ==> MoveOf(previous, c, m)
    ensures forall m :: m in ConversationMovesOf(previous, c) ==> MoveOf(previous, c, m)
  {
    forall m | m in SenderMovesOf(previous, c) + ConversationMovesOf(previous, c)
      ensures MoveOf(previous, c, m)
    {
      var rec := previous[c.id];
      if m in SenderMovesOf(previous, c) {
        var paths := rec.senderPaths.value;
        var j :| 0 <= j < |paths| && SenderMovesOf(previous, c)[j] == m;
        MovesForAt(SenderMove, paths, rec.fsName, c.fsName, j);
      } else {
        MovesForAt(ConversationMove, [rec.conversationPath.value], rec.fsName, c.fsName, 0);
      }
      if Basename(m.from) == rec.fsName {
        ReplaceRightmostRenamesLastComponent(rec.fsName, c.fsName, m.from);
      }
    }
  }

  lemma {:induction false} SenderMovesAreRenames(previous: map<string, Record>, convs: seq<Conversation>)
    requires WellFormed(previous)
    ensures forall m :: m in SenderMoves(previous, convs) ==> exists c :: c in convs && MoveOf(previous, c, m)
  {
    if convs != [] {
      var last := convs[|convs| - 1];
      SenderMovesAreRenames(previous, convs[..|convs| - 1]);
      MovesOfOne(previous, last);
      forall m | m in SenderMoves(previous, convs) ensures exists c :: c in convs && MoveOf(previous, c, m) {
        if m in SenderMoves(previous, convs[..|convs| - 1]) {
          var c :| c in convs[..|convs| - 1] && MoveOf(previous, c, m);
          assert c in convs;
        } else {
          assert last in convs && MoveOf(previous, last, m);
        }
      }
    }
  }

  lemma {:induction false} ConversationMovesAreRenames(previous: map<string, Record>, convs: seq<Conversation>)
    requires WellFormed(previous)
    ensures forall m :: m in ConversationMoves(previous, convs) ==> exists c :: c in convs && MoveOf(previous, c, m)
  {
    if convs != [] {
      var last := convs[|convs| - 1];
      ConversationMovesAreRenames(previous, convs[..|convs| - 1]);
      MovesOfOne(previous, last);
      forall m | m in ConversationMoves(previous, convs) ensures exists c :: c in convs && MoveOf(previous, c, m) {
        if m in ConversationMoves(previous, convs[..|convs| - 1]) {
          var c :| c in convs[..|convs| - 1] && MoveOf(previous, c, m);
          assert c in convs;
        } else {
          assert last in convs && MoveOf(previous, last, m);
        }
      }
    }
  }

  /** Only conversations of the current run that were exported before under another
      name are moved, and only their recorded paths, each to the new name. */
  lemma PlanMovesOnlyRenamed(previous: map<string, Record>, convs: seq<Conversation>)
    requires WellFormed(previous)
    ensures forall m :: m in Plan(previous, convs) ==> exists c :: c in convs && MoveOf(previous, c, m)
  {
    SenderMovesAreRenames(previous, convs);
    ConversationMovesAreRenames(previous, convs);
  }

  /** The moves of one conversation are among the moves of any list holding it. */
  lemma {:induction false} MovesOfOneInPlan(previous: map<string, Record>, convs: seq<Conversation>, c: Conversation)
    requires WellFormed(previous) && c in convs
    ensures forall m :: m in SenderMovesOf(previous, c) ==> m in SenderMoves(previous, convs)
    ensures forall m :: m in ConversationMovesOf(previous, c) ==> m in ConversationMoves(previous, convs)
  {
    var init := convs[..|convs| - 1];
    if c in init {
      MovesOfOneInPlan(previous, init, c);
    } else {
      assert c == convs[|convs| - 1];
    }
  }

  /** Every recorded path of a renamed conversation is moved. */
  lemma PlanMovesEveryRenamed(previous: map<string, Record>, convs: seq<Conversation>, c: Conversation)
    requires WellFormed(previous) && c in convs && Renamed(previous, c)
    ensures forall p :: p in SenderPathsOf(previous[c.id]) ==>
              NamedAfter(p, previous[c.id].fsName) &&
              Move(SenderMove, p, RenameTarget(previous[c.id].fsName, c.fsName, p)) in Plan(previous, convs)
    ensures previous[c.id].conversationPath.Some? ==>
              var p := previous[c.id].conversationPath.value;
              NamedAfter(p, previous[c.id].fsName) &&
              Move(ConversationMove, p, RenameTarget(previous[c.id].fsName, c.fsName, p)) in Plan(previous, convs)
  {
    MovesOfOneInPlan(previous, convs, c);
    var rec := previous[c.id];
    forall p | p in SenderPathsOf(rec)
      ensures NamedAfter(p, rec.fsName)
      ensures Move(SenderMove, p, RenameTarget(rec.fsName, c.fsName, p)) in Plan(previous, convs)
    {
      var paths := rec.senderPaths.value;
      var j :| 0 <= j < |paths| && paths[j] == p;
      MovesForAt(SenderMove, paths, rec.fsName, c.fsName, j);
      assert SenderMovesOf(previous, c)[j] == Move(SenderMove, p, RenameTarget(rec.fsName, c.fsName, p));
    }
    if rec.conversationPath.Some? {
      var p := rec.conversationPath.value;
      MovesForAt(ConversationMove, [p], rec.fsName, c.fsName, 0);
      assert ConversationMovesOf(previous, c)[0] == Move(ConversationMove, p, RenameTarget(rec.fsName, c.fsName, p));
    }
  }

  /** The tree after making `moves` one after the other. */
  ghost function ApplyAll(paths: set<Path>, moves: seq<Move>): set<Path> {
    if moves == [] then paths
    else
      var m := moves[|moves| - 1];
      MoveTree(ApplyAll(paths, moves[..|moves| - 1]), m.from, m.to)
  }

  /** A move whose destination does not exist and whose source does. */
  predicate Applicable(paths: set<Path>, m: Move) {
    m.to !in paths && m.from in paths
  }

  /** Each of the first `n` moves could be made when its turn came. */
  ghost predicate AllApplicable(paths: set<Path>, plan: seq<Move>, n: nat)
    requires n <= |plan|
  {
    forall j :: 0 <= j < n ==> Applicable(ApplyAll(paths, plan[..j]), plan[j])
  }

  /** The rename stopped at move `j`, with every earlier move made. */
  ghost predicate StoppedAt(paths: set<Path>, plan: seq<Move>, j: nat, o: RenameOutcome, t: set<Path>)
    requires j < |plan|
  {
    && AllApplicable(paths, plan, j)
    && t == ApplyAll(paths, plan[..j])
    && !Applicable(t, plan[j])
    && o == (if plan[j].to in t then DestinationExists(plan[j]) else SourceMissing(plan[j]))
  }

  lemma ApplyAllSnoc(paths: set<Path>, plan: seq<Move>, k: nat)
    requires k < |plan|
    ensures ApplyAll(paths, plan[..k + 1]) == MoveTree(ApplyAll(paths, plan[..k]), plan[k].from, plan[k].to)
  {
    assert plan[..k + 1][..k] == plan[..k];
  }

  lemma {:induction false} ExecuteFrom(paths: set<Path>, plan: seq<Move>, k: nat)
    requires k <= |plan| && AllApplicable(paths, plan, k)
    ensures var (o, t) := Execute(ApplyAll(paths, plan[..k]), plan, k);
            && (o == Done <==> AllApplicable(paths, plan, |plan|))
            && (o == Done ==> t == ApplyAll(paths, plan))
            && (o != Done ==> exists j :: k <= j < |plan| && StoppedAt(paths, plan, j, o, t))
    decreases |plan| - k
  {
    var here := ApplyAll(paths, plan[..k]);
    if k == |plan| {
      assert plan[..k] == plan;
    } else if Applicable(here, plan[k]) {
      ApplyAllSnoc(paths, plan, k);
      assert AllApplicable(paths, plan, k + 1);
      ExecuteFrom(paths, plan, k + 1);
    } else {
      assert StoppedAt(paths, plan, k, Execute(here, plan, k).0, Execute(here, plan, k).1);
    }
  }

  /** Making the plan either makes every move, each onto a destination that did not
      exist, or stops at the first move whose destination exists or whose source is
      gone, with exactly the moves before it made: nothing is ever overwritten. */
  lemma ExecuteMeaning(paths: set<Path>, plan: seq<Move>)
    ensures var (o, t) := Execute(paths, plan, 0);
            && (o == Done <==> AllApplicable(paths, plan, |plan|))
            && (o == Done ==> t == ApplyAll(paths, plan))
            && (o != Done ==> exists j :: 0 <= j < |plan| && StoppedAt(paths, plan, j, o, t))
  {
    assert plan[..0] == [];
    ExecuteFrom(paths, plan, 0);
  }

  lemma TakeOneMore<T>(s: seq<T>, j: nat)
    requires j < |s|
    ensures s[..j + 1] == s[..j] + [s[j]]
  {
  }

  /** One more move after the result `r` of the moves before it. */
  function Then(r: (RenameOutcome, set<Path>), m: Move): (RenameOutcome, set<Path>) {
    if r.0 != Done then r
    else match ApplyMove(r.1, m)
      case Err(o) => (o, r.1)
      case Ok(t) => (Done, t)
  }

  /** Making one more move continues from where the earlier moves left the tree. */
  lemma {:induction false} ExecuteSnoc(paths: set<Path>, plan: seq<Move>, m: Move, k: nat)
    requires k <= |plan|
    ensures Execute(paths, plan + [m], k) == Then(Execute(paths, plan, k), m)
    decreases |plan| - k
  {
    if k < |plan| {
      assert (plan + [m])[k] == plan[k];
      if ApplyMove(paths, plan[k]).Ok? {
        ExecuteSnoc(ApplyMove(paths, plan[k]).value, plan, m, k + 1);
      }
    } else {
      assert (plan + [m])[k] == m;
    }
  }

  /** Once a move fails, the moves planned after it make no difference. */
  lemma {:induction false} ExecuteStops(paths: set<Path>, plan: seq<Move>, longer: seq<Move>, k: nat)
    requires plan <= longer && k <= |plan| && Execute(paths, plan, k).0 != Done
    ensures Execute(paths, longer, k) == Execute(paths, plan, k)
    decreases |plan| - k
  {
    assert k < |plan|;
    assert longer[k] == plan[k];
    if ApplyMove(paths, plan[k]).Ok? {
      ExecuteStops(ApplyMove(paths, plan[k]).value, plan, longer, k + 1);
    }
  }

  /** A plan whose moves come after those of another starts from the tree that the
      other one, if it succeeded, left behind. */
  lemma {:induction false} ExecuteAppend(paths: set<Path>, first: seq<Move>, second: seq<Move>, k: nat)
    requires k <= |first|
    ensures Execute(paths, first + second, k) ==
            (var r := Execute(paths, first, k); if r.0 == Done then Execute(r.1, second, 0) else r)
    decreases |first| - k, |second|
  {
    if k < |first| {
      assert (first + second)[k] == first[k];
      if ApplyMove(paths, first[k]).Ok? {
        ExecuteAppend(ApplyMove(paths, first[k]).value, first, second, k + 1);
      }
    } else {
      ExecuteShifted(paths, first, second, 0);
    }
  }

  lemma {:induction false} ExecuteShifted(paths: set<Path>, first: seq<Move>, second: seq<Move>, k: nat)
    requires k <= |second|
    ensures Execute(paths, first + second, |first| + k) == Execute(paths, second, k)
    decreases |second| - k
  {
    if k < |second| {
      assert (first + second)[|first| + k] == second[k];
      if ApplyMove(paths, second[k]).Ok? {
        ExecuteShifted(ApplyMove(paths, second[k]).value, first, second, k + 1);
      }
    }
  }

  /** The exported tree on disk. */
  class Tree {
    var paths: set<Path>

    constructor(paths: set<Path>)
      ensures this.paths == paths
    {
      this.paths := paths;
    }
  }

  lemma {:induction false} SenderMovesPrefix(previous: map<string, Record>, convs: seq<Conversation>, i: nat)
    requires WellFormed(previous) && i < |convs|
    ensures SenderMoves(previous, convs[..i]) + SenderMovesOf(previous, convs[i]) <= SenderMoves(previous, convs)
    ensures SenderMoves(previous, convs[..i + 1]) == SenderMoves(previous, convs[..i]) + SenderMovesOf(previous, convs[i])
    decreases |convs|
  {
    assert convs[..i + 1][..i] == convs[..i];
    if i + 1 < |convs| {
      var init := convs[..|convs| - 1];
      SenderMovesPrefix(previous, init, i);
      assert init[..i] == convs[..i] && init[i] == convs[i];
    } else {
      assert convs[..i + 1] == convs;
    }
  }

  lemma {:induction false} ConversationMovesPrefix(previous: map<string, Record>, convs: seq<Conversation>, i: nat)
    requires WellFormed(previous) && i < |convs|
    ensures ConversationMoves(previous, convs[..i]) + ConversationMovesOf(previous, convs[i]) <= ConversationMoves(previous, convs)
    ensures ConversationMoves(previous, convs[..i + 1]) == ConversationMoves(previous, convs[..i]) + ConversationMovesOf(previous, convs[i])
    decreases |convs|
  {
    assert convs[..i + 1][..i] == convs[..i];
    if i + 1 < |convs| {
      var init := convs[..|convs| - 1];
      ConversationMovesPrefix(previous, init, i);
      assert init[..i] == convs[..i] && init[i] == convs[i];
    } else {
      assert convs[..i + 1] == convs;
    }
  }

  /** The `j`th turn of the inner loop makes the `j`th move of `MovesFor`; when it fails,
      the moves after it are never made. */
  lemma MovePathsStep(start: set<Path>, kind: MoveKind, paths: seq<Path>, before: string, after: string, j: nat)
    requires forall p :: p in paths ==> NamedAfter(p, before)
    requires j < |paths|
    ensures var moves := MovesFor(kind, paths, before, after);
            var m := Move(kind, paths[j], RenameTarget(before, after, paths[j]));
            && Execute(start, moves[..j + 1], 0) == Then(Execute(start, moves[..j], 0), m)
            && (Then(Execute(start, moves[..j], 0), m).0 != Done ==>
                  Execute(start, moves, 0) == Then(Execute(start, moves[..j], 0), m))
  {
    var moves := MovesFor(kind, paths, before, after);
    MovesForAt(kind, paths, before, after, j);
    TakeOneMore(moves, j);
    ExecuteSnoc(start, moves[..j], moves[j], 0);
    if Then(Execute(start, moves[..j], 0), moves[j]).0 != Done {
      ExecuteStops(start, moves[..j + 1], moves, 0);
    }
  }

  /** The inner loop of the first loop: each of `paths`, named after `before`, moved to
      its name with `before` replaced by `after`. */
  method MovePaths(kind: MoveKind, paths: seq<Path>, before: string, after: string, tree: Tree)
    returns (outcome: RenameOutcome)
    requires forall p :: p in paths ==> NamedAfter(p, before)
    modifies tree
    ensures (outcome, tree.paths) == Execute(old(tree.paths), MovesFor(kind, paths, before, after), 0)
  {
    ghost var start := tree.paths;
    ghost var moves := MovesFor(kind, paths, before, after);
    var j := 0;
    while j < |paths|
      invariant j <= |paths| == |moves|
      invariant Execute(start, moves[..j], 0) == (Done, tree.paths)
    {
      var m := Move(kind, paths[j], RenameTarget(before, after, paths[j]));
      MovePathsStep(start, kind, paths, before, after, j);
      var step := ApplyMove(tree.paths, m);
      if step.Err? {
        return step.error;
      }
      tree.paths := step.value;
      j := j + 1;
    }
    assert moves[..j] == moves;
    return Done;
  }

  /** One turn of the first loop: the sender directories of one conversation. */
  method MoveSenderDirectoriesOf(previous: map<string, Record>, c: Conversation, tree: Tree)
    returns (outcome: RenameOutcome)
    requires WellFormed(previous)
    modifies tree
    ensures (outcome, tree.paths) == Execute(old(tree.paths), SenderMovesOf(previous, c), 0)
  {
    if c.id in previous && c.fsName != previous[c.id].fsName && previous[c.id].senderPaths.Some? {
      var rec := previous[c.id];
      assert forall p :: p in rec.senderPaths.value ==> p in SenderPathsOf(rec);
      outcome := MovePaths(SenderMove, rec.senderPaths.value, rec.fsName, c.fsName, tree);
    } else {
      outcome := Done;
    }
  }

  /** The first loop of `rename_previous_conversations`: the sender directories. */
  method MoveSenderDirectories(previous: map<string, Record>, convs: seq<Conversation>, tree: Tree)
    returns (outcome: RenameOutcome)
    requires WellFormed(previous)
    modifies tree
    ensures (outcome, tree.paths) == Execute(old(tree.paths), SenderMoves(previous, convs), 0)
  {
    ghost var start := tree.paths;
    var i := 0;
    while i < |convs|
      invariant i <= |convs|
      invariant Execute(start, SenderMoves(previous, convs[..i]), 0) == (Done, tree.paths)
    {
      SenderMovesPrefix(previous, convs, i);
      ghost var before := SenderMoves(previous, convs[..i]);
      ghost var moves := SenderMovesOf(previous, convs[i]);
      ExecuteAppend(start, before, moves, 0);
      outcome := MoveSenderDirectoriesOf(previous, convs[i], tree);
      if outcome != Done {
        ExecuteStops(start, before + moves, SenderMoves(previous, convs), 0);
        return;
      }
      i := i + 1;
    }
    assert convs[..i] == convs;
    return Done;
  }

  /** The second loop of `rename_previous_conversations`: the pages or conversation
      directories. */
  method MoveConversationEntries(previous: map<string, Record>, convs: seq<Conversation>, tree: Tree)
    returns (outcome: RenameOutcome)
    requires WellFormed(previous)
    modifies tree
    ensures (outcome, tree.paths) == Execute(old(tree.paths), ConversationMoves(previous, convs), 0)
  {
    ghost var start := tree.paths;
    var i := 0;
    while i < |convs|
      invariant i <= |convs|
      invariant Execute(start, ConversationMoves(previous, convs[..i]), 0) == (Done, tree.paths)
    {
      var c := convs[i];
      ConversationMovesPrefix(previous, convs, i);
      ghost var before := ConversationMoves(previous, convs[..i]);
      ghost var moves := ConversationMovesOf(previous, c);
      if c.id in previous && c.fsName != previous[c.id].fsName && previous[c.id].conversationPath.Some? {
        var rec := previous[c.id];
        var from := rec.conversationPath.value;
        var m := Move(ConversationMove, from, RenameTarget(rec.fsName, c.fsName, from));
        MovesForAt(ConversationMove, [from], rec.fsName, c.fsName, 0);
        assert moves == [m];
        ExecuteSnoc(start, before, m, 0);
        var step := ApplyMove(tree.paths, m);
        if step.Err? {
          ExecuteStops(start, before + moves, ConversationMoves(previous, convs), 0);
          return step.error;
        }
        tree.paths := step.value;
      } else {
        assert moves == [] && before + moves == before;
      }
      i := i + 1;
    }
    assert convs[..i] == convs;
    return Done;
  }

  /** `rename_previous_conversations`: the scan, then the two loops of moves. */
  method RenamePreviousConversations(convs: seq<Conversation>, dirs: bool, pages: seq<Page>, files: seq<IdFile>, tree: Tree)
    returns (outcome: RenameOutcome)
    modifies tree
    ensures (outcome, tree.paths) == RenameSpec(convs, dirs, pages, files, old(tree.paths))
  {
    var scan := GetPreviousConversationsById(dirs, pages, files);
    if scan.Err? {
      return ScanFailed(scan.error);
    }
    var previous := scan.value;
    ExecuteAppend(tree.paths, SenderMoves(previous, convs), ConversationMoves(previous, convs), 0);
    outcome := MoveSenderDirectories(previous, convs, tree);
    if outcome == Done {
      outcome := MoveConversationEntries(previous, convs, tree);
    }
  }
}
