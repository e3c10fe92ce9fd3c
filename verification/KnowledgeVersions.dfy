/**
 * Versions of knowledge documents: saving a new version and activating one.  Every operation is
 * one committed transaction; a failed one is rolled back.  Row ids come from database sequences.
 */
module KnowledgeVersions {
  import opened FiniteSets
  import opened Outcomes
  import opened Text
  import opened VersionLabels

  datatype DocumentStatus = DraftDocument | ActiveDocument | Archived
  datatype VersionStatus = Draft | Reviewing | Approved | Active | Superseded | Retired
  datatype Revision = Initial | Revise

  datatype Document = Document(
    name: string, category: string,
    current: Option<int>, latest: Option<int>, status: DocumentStatus)

  datatype Version = Version(
    document: int, number: nat, versionLabel: string,
    previous: Option<int>, revision: Revision, status: VersionStatus, fileHash: string)

  datatype Store = Store(documents: map<int, Document>, versions: map<int, Version>)

  /** `vectorsReady`: every chunk carries its embedding. */
  datatype SaveRequest = SaveRequest(
    target: Option<int>, name: string, category: string,
    versionLabel: string, fileHash: string, vectorsReady: bool)

  datatype SaveError = DocumentMissing | LabelBlank | DuplicateFile | MissingVector
  datatype ActivateError = VersionNotOfDocument | NoSuchDocument

  ghost function VersionsOf(s: Store, d: int): set<int> {
    set v | v in s.versions && s.versions[v].document == d
  }

  function Labels(s: Store, d: int): set<string> {
    set v | v in s.versions && s.versions[v].document == d :: s.versions[v].versionLabel
  }

  function Numbers(s: Store, d: int): set<nat> {
    set v | v in s.versions && s.versions[v].document == d :: s.versions[v].number
  }

  /** `coalesce(max(version_seq), 0)` */
  ghost predicate IsMaxNumber(s: Store, d: int, m: nat) {
    if Numbers(s, d) == {} then m == 0 else m in Numbers(s, d) && forall n | n in Numbers(s, d) :: n <= m
  }

  /** `_get_or_create_document` finds the target, or some document with the name and category. */
  ghost predicate Finds(s: Store, req: SaveRequest, found: Option<int>) {
    match req.target
    case Some(d) => found == if d in s.documents then Some(d) else None
    case None =>
      match found
      case Some(d) => d in s.documents && s.documents[d].name == req.name && s.documents[d].category == req.category
      case None =>
        forall d | d in s.documents :: s.documents[d].name == req.name ==> s.documents[d].category != req.category
  }

  /** The document has a version of this file. */
  ghost predicate HasFile(s: Store, d: int, fileHash: string) {
    exists v :: v in s.versions && s.versions[v].document == d && s.versions[v].fileHash == fileHash
  }

  ghost predicate SaveFails(s: Store, req: SaveRequest, found: Option<int>, e: SaveError) {
    if req.target.Some? && found.None? then e == DocumentMissing
    else if Blank(req.versionLabel) then e == LabelBlank
    else if found.Some? && HasFile(s, found.value, req.fileHash) then e == DuplicateFile
    else !req.vectorsReady && e == MissingVector
  }

  ghost predicate SaveSucceeds(s: Store, req: SaveRequest, found: Option<int>) {
    forall e :: !SaveFails(s, req, found, e)
  }

  /** The store with version v added to document d, whose latest version was read as `latest`. */
  function WithVersion(s: Store, d: int, doc: Document, v: int, number: nat, versionLabel: string,
      latest: Option<int>, fileHash: string): Store {
    var version := Version(d, number, versionLabel, latest, if latest.None? then Initial else Revise, Draft, fileHash);
    Store(s.documents[d := doc.(latest := Some(v))], s.versions[v := version])
  }

  /** The document a save extends: the one it found, or the new one. */
  function SaveTarget(s: Store, req: SaveRequest, found: Option<int>, newDocument: int): (int, Document)
    requires found.Some? ==> found.value in s.documents
  {
    if found.Some? then (found.value, s.documents[found.value])
    else (newDocument, Document(req.name, req.category, None, None, DraftDocument))
  }

  ghost predicate SavedAs(s: Store, req: SaveRequest, found: Option<int>, newDocument: int, v: int,
      m: nat, versionLabel: string, s': Store) {
    && (found.Some? ==> found.value in s.documents)
    && var (d, doc) := SaveTarget(s, req, found, newDocument);
       && IsMaxNumber(s, d, m) && UniqueLabel(Labels(s, d), req.versionLabel) == Ok(versionLabel)
       && s' == WithVersion(s, d, doc, v, m + 1, versionLabel, doc.latest, req.fileHash)
  }

  ghost predicate Saved(s: Store, req: SaveRequest, found: Option<int>, newDocument: int, v: int, s': Store) {
    exists m: nat, versionLabel: string :: SavedAs(s, req, found, newDocument, v, m, versionLabel, s')
  }

  ghost function Activate(s: Store, d: int, v: int): Result<Store, ActivateError> {
    if v !in s.versions || s.versions[v].document != d then Err(VersionNotOfDocument)
    else if d !in s.documents then Err(NoSuchDocument)
    else
      var previous := s.documents[d].current;
      var superseded := if previous.Some? && previous.value != v && previous.value in s.versions
                        then s.versions[previous.value := s.versions[previous.value].(status := Superseded)]
                        else s.versions;
      Ok(Store(s.documents[d := s.documents[d].(current := Some(v), status := ActiveDocument)],
               superseded[v := superseded[v].(status := Active)]))
  }

  /** The rows behind one SQLAlchemy session. */
  class KnowledgeStore {
    var documents: map<int, Document>
    var versions: map<int, Version>

    ghost function Rows(): Store
      reads this
    {
      Store(documents, versions)
    }

    constructor ()
      ensures Rows() == Store(map[], map[])
    {
      documents, versions := map[], map[];
    }

    method NextNumber(d: int) returns (n: nat)
      ensures n >= 1 && IsMaxNumber(Rows(), d, n - 1)
    {
      var numbers := set v | v in versions && versions[v].document == d :: versions[v].number;
      assert numbers == Numbers(Rows(), d);
      if numbers == {} { return 1; }
      ghost var greatest := Greatest(numbers);
      var m: nat :| m in numbers && forall x | x in numbers :: x <= m;
      n := m + 1;
    }

    /** `save_document_version_blocks_sections_and_chunks`, as far as documents and versions go. */
    method SaveDocumentVersion(req: SaveRequest, found: Option<int>, newDocument: int, newVersion: int)
      returns (r: Result<int, SaveError>)
      requires Finds(Rows(), req, found)
      requires newDocument !in documents && newVersion !in versions
      modifies this
      ensures match r
              case Err(e) => SaveFails(old(Rows()), req, found, e) && Rows() == old(Rows())
              case Ok(v) => v == newVersion && SaveSucceeds(old(Rows()), req, found)
                            && Saved(old(Rows()), req, found, newDocument, newVersion, Rows())
    {
      if req.target.Some? && found.None? { return Err(DocumentMissing); }
      var d := if found.Some? then found.value else newDocument;
      var document := if found.Some? then documents[d]
                      else Document(req.name, req.category, None, None, DraftDocument);
      var number := NextNumber(d);
      var existing := set v | v in versions && versions[v].document == d :: versions[v].versionLabel;
      assert existing == Labels(Rows(), d);
      var versionLabel := EnsureUniqueVersionLabel(existing, req.versionLabel);
      if versionLabel.Err? { return Err(LabelBlank); }
      if found.Some? && exists v :: v in versions && versions[v].document == d && versions[v].fileHash == req.fileHash {
        return Err(DuplicateFile);
      }
      if !req.vectorsReady { return Err(MissingVector); }
      ghost var before := Rows();
      var after := WithVersion(Store(documents, versions), d, document, newVersion, number, versionLabel.value,
          document.latest, req.fileHash);
      documents, versions := after.documents, after.versions;
      assert SavedAs(before, req, found, newDocument, newVersion, number - 1, versionLabel.value, Rows());
      r := Ok(newVersion);
    }

    /** `activate_version` */
    method ActivateVersion(documentId: int, versionId: int) returns (r: Result<int, ActivateError>)
      modifies this
      ensures match Activate(old(Rows()), documentId, versionId)
              case Err(e) => r == Err(e) && Rows() == old(Rows())
              case Ok(s) => r == Ok(versionId) && Rows() == s
      ensures r.Ok? <==>
        && versionId in old(versions) && old(versions)[versionId].document == documentId
        && documentId in old(documents)
      ensures r.Ok? ==>
        && documentId in documents && documents[documentId].current == Some(versionId)
        && documents[documentId].status == ActiveDocument
        && versions.Keys == old(versions).Keys
        && forall v | v in versions ::
             versions[v].status ==
               if v == versionId then Active
               else if old(documents)[documentId].current == Some(v) then Superseded
               else old(versions)[v].status
    {
      if versionId !in versions || versions[versionId].document != documentId { return Err(VersionNotOfDocument); }
      if documentId !in documents { return Err(NoSuchDocument); }
      var previous := documents[documentId].current;
      if previous.Some? && previous.value != versionId {
        if previous.value in versions {
          versions := versions[previous.value := versions[previous.value].(status := Superseded)];
        }
      }
      versions := versions[versionId := versions[versionId].(status := Active)];
      var document := documents[documentId].(current := Some(versionId), status := ActiveDocument);
      documents := documents[documentId := document];
      r := Ok(versionId);
    }
  }

  // ---------------------------------------------------------------- what one operation does to the rows

  /**
   * A save is refused for a target that does not exist, a blank label, a file the document already has
   * or a chunk without embedding, in this order, and otherwise succeeds.  Without a target it goes to a
   * document of that name and category, and makes one only if there is none.
   */
  lemma SaveOutcome(s: Store, req: SaveRequest, found: Option<int>)
    requires Finds(s, req, found)
    ensures found.Some? ==>
      && found.value in s.documents
      && if req.target.Some? then found == req.target
         else s.documents[found.value].name == req.name && s.documents[found.value].category == req.category
    ensures found.None? && req.target.None? ==>
      forall d | d in s.documents :: s.documents[d].name == req.name ==> s.documents[d].category != req.category
    ensures var missing := req.target.Some? && req.target.value !in s.documents;
      var known := found.Some? && HasFile(s, found.value, req.fileHash);
      && (SaveFails(s, req, found, DocumentMissing) <==> missing)
      && (SaveFails(s, req, found, LabelBlank) <==> !missing && Strip(req.versionLabel) == "")
      && (SaveFails(s, req, found, DuplicateFile) <==> !missing && Strip(req.versionLabel) != "" && known)
      && (SaveFails(s, req, found, MissingVector) <==>
            !missing && Strip(req.versionLabel) != "" && !known && !req.vectorsReady)
      && (SaveSucceeds(s, req, found) <==>
            !missing && Strip(req.versionLabel) != "" && !known && req.vectorsReady)
  {
    StripEmpty(req.versionLabel);
    hide Strip, Blank, HasFile;
    if SaveSucceeds(s, req, found) {
      assert !SaveFails(s, req, found, DocumentMissing) && !SaveFails(s, req, found, LabelBlank);
      assert !SaveFails(s, req, found, DuplicateFile) && !SaveFails(s, req, found, MissingVector);
    }
  }

  /**
   * A successful save adds one draft with the next number, an unused label made of the requested one,
   * and the document's latest version as its predecessor; it makes that draft the latest version, adds
   * the document if there was none, and leaves every other row alone.
   */
  lemma SaveEffect(s: Store, req: SaveRequest, found: Option<int>, newDocument: int, v: int, s': Store)
    requires newDocument !in s.documents && v !in s.versions && Saved(s, req, found, newDocument, v, s')
    ensures found.Some? ==> found.value in s.documents
    ensures var d := if found.Some? then found.value else newDocument;
      && s'.documents.Keys == s.documents.Keys + {d} && s'.versions.Keys == s.versions.Keys + {v}
      && (forall e | e in s.documents && e != d :: s'.documents[e] == s.documents[e])
      && (forall w | w in s.versions :: s'.versions[w] == s.versions[w])
      && s'.documents[d] == (if found.Some? then s.documents[d].(latest := Some(v))
                             else Document(req.name, req.category, None, Some(v), DraftDocument))
      && s'.versions[v].document == d && s'.versions[v].fileHash == req.fileHash && s'.versions[v].status == Draft
      && s'.versions[v].previous == (if found.Some? then s.documents[d].latest else None)
      && s'.versions[v].revision == (if s'.versions[v].previous.None? then Initial else Revise)
      && (forall w | w in s.versions && s.versions[w].document == d ::
            && s.versions[w].number < s'.versions[v].number
            && s.versions[w].versionLabel != s'.versions[v].versionLabel)
      && (s'.versions[v].number == 1 || exists w :: w in s.versions && s.versions[w].document == d
                                                     && s.versions[w].number + 1 == s'.versions[v].number)
      && (|| s'.versions[v].versionLabel == Strip(req.versionLabel)
          || exists k: nat :: k >= 2 && s'.versions[v].versionLabel == Strip(req.versionLabel) + "-" + Decimal(k))
  {
    var m: nat, versionLabel: string :| SavedAs(s, req, found, newDocument, v, m, versionLabel, s');
    var (d, doc) := SaveTarget(s, req, found, newDocument);
    UniqueLabelIsFresh(Labels(s, d), req.versionLabel);
    UniqueLabelForm(Labels(s, d), req.versionLabel);
    hide UniqueLabel, Strip, Decimal;
    forall w | w in s.versions && s.versions[w].document == d
      ensures s.versions[w].number <= m && s.versions[w].versionLabel != versionLabel
    {
      assert s.versions[w].number in Numbers(s, d) && s.versions[w].versionLabel in Labels(s, d);
    }
    if m != 0 {
      var w :| w in s.versions && s.versions[w].document == d && s.versions[w].number == m;
    }
  }

  /**
   * An activation succeeds exactly for a version of an existing document.  It makes that version the
   * current one and active, supersedes the one that was current, and leaves everything else alone.
   */
  lemma ActivationEffect(s: Store, d: int, v: int)
    ensures var r := Activate(s, d, v);
      && (r.Ok? <==> v in s.versions && s.versions[v].document == d && d in s.documents)
      && (r == Err(VersionNotOfDocument) <==> v !in s.versions || s.versions[v].document != d)
      && (r == Err(NoSuchDocument) <==> v in s.versions && s.versions[v].document == d && d !in s.documents)
      && (r.Ok? ==>
            && r.value.documents.Keys == s.documents.Keys && r.value.versions.Keys == s.versions.Keys
            && (forall e | e in s.documents && e != d :: r.value.documents[e] == s.documents[e])
            && r.value.documents[d].current == Some(v) && r.value.documents[d].status == ActiveDocument
            && r.value.documents[d].name == s.documents[d].name
            && r.value.documents[d].category == s.documents[d].category
            && r.value.documents[d].latest == s.documents[d].latest
            && (forall w | w in s.versions ::
                  && r.value.versions[w].document == s.versions[w].document
                  && r.value.versions[w].number == s.versions[w].number
                  && r.value.versions[w].versionLabel == s.versions[w].versionLabel
                  && r.value.versions[w].previous == s.versions[w].previous
                  && r.value.versions[w].revision == s.versions[w].revision
                  && r.value.versions[w].fileHash == s.versions[w].fileHash
                  && r.value.versions[w].status == (if w == v then Active
                                                    else if s.documents[d].current == Some(w) then Superseded
                                                    else s.versions[w].status)))
  {
  }

  // ---------------------------------------------------------------- the version line of a document

  /** The versions of d, oldest first: numbered 1..n, each pointing at the one before, the first one initial. */
  ghost predicate IsLine(s: Store, d: int, line: seq<int>) {
    && (forall i | 0 <= i < |line| :: line[i] in s.versions && LineEntry(s.versions[line[i]], d, line, i))
    && (forall v | v in s.versions && s.versions[v].document == d :: v in line)
    && d in s.documents
    && s.documents[d].latest == if line == [] then None else Some(line[|line| - 1])
  }

  ghost predicate LineEntry(version: Version, d: int, line: seq<int>, i: nat)
    requires i < |line|
  {
    && version.document == d && version.number == i + 1
    && version.previous == (if i == 0 then None else Some(line[i - 1]))
    && (version.revision == Initial <==> i == 0)
  }

  ghost predicate HasLine(s: Store, d: int) {
    exists line: seq<int> :: IsLine(s, d, line)
  }

  ghost predicate Linear(s: Store) {
    && (forall d | d in s.documents :: HasLine(s, d))
    && (forall v | v in s.versions :: s.versions[v].document in s.documents)
  }

  /** A version is active iff it is the current one of its document, and the current one is its own. */
  ghost predicate OneActive(s: Store) {
    && (forall v | v in s.versions && s.versions[v].document in s.documents ::
          s.versions[v].status == Active <==> s.documents[s.versions[v].document].current == Some(v))
    && (forall d | d in s.documents && s.documents[d].current.Some? ::
          s.documents[d].current.value in s.versions && s.versions[s.documents[d].current.value].document == d)
  }

  ghost predicate DistinctLabels(s: Store) {
    forall v, w | v in s.versions && w in s.versions && v != w && s.versions[v].document == s.versions[w].document ::
      s.versions[v].versionLabel != s.versions[w].versionLabel
  }

  ghost predicate DistinctFiles(s: Store) {
    forall v, w | v in s.versions && w in s.versions && v != w && s.versions[v].document == s.versions[w].document ::
      s.versions[v].fileHash != s.versions[w].fileHash
  }

  ghost predicate DistinctDocuments(s: Store) {
    forall d, e | d in s.documents && e in s.documents && d != e ::
      s.documents[d].name == s.documents[e].name ==> s.documents[d].category != s.documents[e].category
  }

  ghost predicate Invariant(s: Store) {
    Linear(s) && OneActive(s) && DistinctLabels(s) && DistinctFiles(s) && DistinctDocuments(s)
  }

  lemma EntryAt(s: Store, d: int, line: seq<int>, i: nat)
    requires IsLine(s, d, line) && i < |line|
    ensures line[i] in s.versions && s.versions[line[i]].document == d && s.versions[line[i]].number == i + 1
    ensures s.versions[line[i]].previous == if i == 0 then None else Some(line[i - 1])
    ensures s.versions[line[i]].revision == Initial <==> i == 0
  {
    assert LineEntry(s.versions[line[i]], d, line, i);
  }

  lemma LatestIsLast(s: Store, d: int, line: seq<int>)
    requires IsLine(s, d, line)
    ensures d in s.documents && s.documents[d].latest == if line == [] then None else Some(line[|line| - 1])
  {
  }

  lemma PositionInLine(s: Store, d: int, line: seq<int>, v: int) returns (i: nat)
    requires IsLine(s, d, line) && v in s.versions && s.versions[v].document == d
    ensures i < |line| && line[i] == v && s.versions[v].number == i + 1
    ensures s.versions[v].previous == if i == 0 then None else Some(line[i - 1])
  {
    assert v in line;
    i :| 0 <= i < |line| && line[i] == v;
    assert LineEntry(s.versions[line[i]], d, line, i);
  }

  lemma LineMax(s: Store, d: int, line: seq<int>, m: nat)
    requires IsLine(s, d, line) && IsMaxNumber(s, d, m)
    ensures m == |line|
  {
    hide IsLine;
    if line != [] {
      var last := line[|line| - 1];
      EntryAt(s, d, line, |line| - 1);
      assert s.versions[last].number in Numbers(s, d);
    }
    if m in Numbers(s, d) {
      var v :| v in s.versions && s.versions[v].document == d && s.versions[v].number == m;
      var i := PositionInLine(s, d, line, v);
    }
  }

  /** The versions of d and its latest one, whether or not d has a row yet. */
  ghost predicate IsLineOrNew(s: Store, d: int, line: seq<int>, doc: Document) {
    if d in s.documents then doc == s.documents[d] && IsLine(s, d, line)
    else line == [] && doc.latest == None && VersionsOf(s, d) == {}
  }

  lemma GrownEntry(s: Store, d: int, line: seq<int>, doc: Document, v: int, versionLabel: string,
      fileHash: string, i: nat)
    requires v !in s.versions && IsLineOrNew(s, d, line, doc) && i <= |line|
    ensures var s' := WithVersion(s, d, doc, v, |line| + 1, versionLabel, doc.latest, fileHash);
            var line' := line + [v];
            line'[i] in s'.versions && LineEntry(s'.versions[line'[i]], d, line', i)
  {
    if d in s.documents { LatestIsLast(s, d, line); }
    hide IsLine;
    if i < |line| {
      var w := line[i];
      EntryAt(s, d, line, i);
      assert w in s.versions && w != v;
    }
  }

  lemma GrownMembers(s: Store, d: int, line: seq<int>, doc: Document, v: int, w: int)
    requires v !in s.versions && IsLineOrNew(s, d, line, doc)
    requires w == v || (w in s.versions && s.versions[w].document == d)
    ensures w in line + [v]
  {
    hide IsLine;
    if w == v {
      assert (line + [v])[|line|] == v;
    } else {
      assert w in VersionsOf(s, d);
      var i := PositionInLine(s, d, line, w);
      assert (line + [v])[i] == w;
    }
  }

  lemma LineGrows(s: Store, d: int, line: seq<int>, doc: Document, v: int, versionLabel: string, fileHash: string)
    requires v !in s.versions && IsLineOrNew(s, d, line, doc)
    ensures IsLine(WithVersion(s, d, doc, v, |line| + 1, versionLabel, doc.latest, fileHash), d, line + [v])
  {
    hide IsLineOrNew, LineEntry;
    var s' := WithVersion(s, d, doc, v, |line| + 1, versionLabel, doc.latest, fileHash);
    forall i | 0 <= i < |line + [v]|
      ensures (line + [v])[i] in s'.versions && LineEntry(s'.versions[(line + [v])[i]], d, line + [v], i)
    {
      GrownEntry(s, d, line, doc, v, versionLabel, fileHash, i);
    }
    forall w | w in s'.versions && s'.versions[w].document == d ensures w in line + [v] {
      GrownMembers(s, d, line, doc, v, w);
    }
  }

  lemma OtherLinesStay(s: Store, s': Store, d: int, e: int, line: seq<int>)
    requires e != d && IsLine(s, e, line)
    requires e in s'.documents && s'.documents[e] == s.documents[e]
    requires forall v | v in s.versions :: v in s'.versions && s'.versions[v] == s.versions[v]
    requires forall v | v in s'.versions && v !in s.versions :: s'.versions[v].document == d
    ensures IsLine(s', e, line)
  {
    forall i | 0 <= i < |line| ensures line[i] in s'.versions && LineEntry(s'.versions[line[i]], e, line, i) {
      var v := line[i];
      EntryAt(s, e, line, i);
      assert v in s.versions && s'.versions[v] == s.versions[v];
    }
    forall v | v in s'.versions && s'.versions[v].document == e ensures v in line {
      assert v in s.versions;
      var i := PositionInLine(s, e, line, v);
    }
  }

  /** The ingredients of a successful save. */
  ghost predicate Extends(s: Store, d: int, doc: Document, v: int, m: nat, versionLabel: string) {
    && v !in s.versions && IsMaxNumber(s, d, m) && versionLabel !in Labels(s, d)
    && (if d in s.documents then doc == s.documents[d]
        else doc.latest == None && doc.current == None && VersionsOf(s, d) == {})
  }

  lemma LinesAfterSave(s: Store, d: int, doc: Document, v: int, m: nat, versionLabel: string, fileHash: string)
    requires Linear(s) && Extends(s, d, doc, v, m, versionLabel)
    ensures Linear(WithVersion(s, d, doc, v, m + 1, versionLabel, doc.latest, fileHash))
  {
    var s' := WithVersion(s, d, doc, v, m + 1, versionLabel, doc.latest, fileHash);
    var line: seq<int> := [];
    if d in s.documents {
      assert HasLine(s, d);
      line :| IsLine(s, d, line);
      LineMax(s, d, line, m);
    } else {
      NoVersionsYet(s, d);
    }
    LineGrows(s, d, line, doc, v, versionLabel, fileHash);
    assert IsLine(s', d, line + [v]);
    hide IsLine;
    forall e | e in s'.documents ensures HasLine(s', e) {
      if e != d {
        assert HasLine(s, e);
        var l :| IsLine(s, e, l);
        OtherLinesStay(s, s', d, e, l);
      }
    }
  }

  lemma LabelsAfterSave(s: Store, d: int, doc: Document, v: int, m: nat, versionLabel: string, fileHash: string)
    requires DistinctLabels(s) && Extends(s, d, doc, v, m, versionLabel)
    ensures DistinctLabels(WithVersion(s, d, doc, v, m + 1, versionLabel, doc.latest, fileHash))
  {
    forall w | w in s.versions && s.versions[w].document == d ensures s.versions[w].versionLabel != versionLabel {
      assert s.versions[w].versionLabel in Labels(s, d);
    }
  }

  lemma ActiveAfterSave(s: Store, d: int, doc: Document, v: int, m: nat, versionLabel: string, fileHash: string)
    requires Linear(s) && OneActive(s) && Extends(s, d, doc, v, m, versionLabel)
    ensures OneActive(WithVersion(s, d, doc, v, m + 1, versionLabel, doc.latest, fileHash))
  {
    hide HasLine, IsMaxNumber, Labels;
    var s' := WithVersion(s, d, doc, v, m + 1, versionLabel, doc.latest, fileHash);
    forall w | w in s.versions ensures s'.versions[w] == s.versions[w] {
    }
    forall e | e in s'.documents
      ensures s'.documents[e].current == if e in s.documents then s.documents[e].current else None
    {
    }
  }

  lemma NoVersionsYet(s: Store, d: int)
    requires Linear(s) && d !in s.documents
    ensures VersionsOf(s, d) == {} && Numbers(s, d) == {}
  {
    assert forall v | v in s.versions :: s.versions[v].document != d;
  }

  lemma FilesAfterSave(s: Store, req: SaveRequest, found: Option<int>, newDocument: int, v: int, s': Store)
    requires Linear(s) && DistinctFiles(s) && DistinctDocuments(s) && newDocument !in s.documents && v !in s.versions
    requires Finds(s, req, found) && SaveSucceeds(s, req, found) && Saved(s, req, found, newDocument, v, s')
    ensures DistinctFiles(s') && DistinctDocuments(s')
  {
    SaveOutcome(s, req, found);
    NoVersionsYet(s, newDocument);
    SaveEffect(s, req, found, newDocument, v, s');
    hide SaveSucceeds, Saved, Linear, IsMaxNumber;
  }

  lemma SaveKeeps(s: Store, req: SaveRequest, found: Option<int>, newDocument: int, v: int, s': Store)
    requires Invariant(s) && newDocument !in s.documents && v !in s.versions
    requires Finds(s, req, found) && SaveSucceeds(s, req, found) && Saved(s, req, found, newDocument, v, s')
    ensures Invariant(s')
  {
    FilesAfterSave(s, req, found, newDocument, v, s');
    var m: nat, versionLabel: string :| SavedAs(s, req, found, newDocument, v, m, versionLabel, s');
    var (d, doc) := SaveTarget(s, req, found, newDocument);
    NoVersionsYet(s, newDocument);
    UniqueLabelIsFresh(Labels(s, d), req.versionLabel);
    assert Extends(s, d, doc, v, m, versionLabel);
    LinesAfterSave(s, d, doc, v, m, versionLabel, req.fileHash);
    LabelsAfterSave(s, d, doc, v, m, versionLabel, req.fileHash);
    ActiveAfterSave(s, d, doc, v, m, versionLabel, req.fileHash);
  }

  /** Only statuses differ. */
  ghost predicate SameButStatus(s: Store, s': Store) {
    && s.versions.Keys == s'.versions.Keys && s.documents.Keys == s'.documents.Keys
    && (forall v | v in s.versions :: s'.versions[v] == s.versions[v].(status := s'.versions[v].status))
    && (forall d | d in s.documents :: s'.documents[d].latest == s.documents[d].latest)
  }

  lemma LineIgnoresStatus(s: Store, s': Store, d: int, line: seq<int>)
    requires SameButStatus(s, s') && IsLine(s, d, line)
    ensures IsLine(s', d, line)
  {
    LatestIsLast(s, d, line);
    forall i | 0 <= i < |line| ensures line[i] in s'.versions && LineEntry(s'.versions[line[i]], d, line, i) {
      var v := line[i];
      EntryAt(s, d, line, i);
      assert v in s.versions && v in s'.versions.Keys;
    }
    forall v | v in s'.versions && s'.versions[v].document == d ensures v in line {
      assert v in s.versions.Keys;
      var i := PositionInLine(s, d, line, v);
    }
  }

  lemma LinesAfterActivate(s: Store, d: int, v: int)
    requires Linear(s) && Activate(s, d, v).Ok?
    ensures Linear(Activate(s, d, v).value)
  {
    var s' := Activate(s, d, v).value;
    assert SameButStatus(s, s');
    hide IsLine, Activate;
    forall e | e in s'.documents ensures HasLine(s', e) {
      assert e in s.documents.Keys && HasLine(s, e);
      var l :| IsLine(s, e, l);
      LineIgnoresStatus(s, s', e, l);
    }
    forall w | w in s'.versions ensures s'.versions[w].document in s'.documents {
      assert w in s.versions.Keys && s.versions[w].document in s.documents.Keys;
      assert s'.versions[w].document == s.versions[w].document;
    }
  }

  lemma ActivateKeeps(s: Store, d: int, v: int)
    requires Invariant(s) && Activate(s, d, v).Ok?
    ensures Invariant(Activate(s, d, v).value)
  {
    LinesAfterActivate(s, d, v);
    ActiveAfterActivate(s, d, v);
    NamesAfterActivate(s, d, v);
    hide Activate, Linear, OneActive, DistinctLabels, DistinctFiles, DistinctDocuments;
  }

  lemma NamesAfterActivate(s: Store, d: int, v: int)
    requires DistinctFiles(s) && DistinctDocuments(s) && Activate(s, d, v).Ok?
    ensures DistinctFiles(Activate(s, d, v).value) && DistinctDocuments(Activate(s, d, v).value)
  {
    ActivationEffect(s, d, v);
    hide Activate;
  }

  lemma ActiveAfterActivate(s: Store, d: int, v: int)
    requires OneActive(s) && DistinctLabels(s) && Activate(s, d, v).Ok?
    ensures OneActive(Activate(s, d, v).value) && DistinctLabels(Activate(s, d, v).value)
  {
  }

  // ---------------------------------------------------------------- whole runs

  datatype Operation =
    | Save(request: SaveRequest, found: Option<int>, newDocument: int, newVersion: int)
    | ActivateOne(document: int, version: int)

  /** One operation: a failed save, or a failed activation, leaves the store as it was. */
  ghost predicate Step(s: Store, op: Operation, s': Store) {
    match op
    case Save(req, found, newDocument, newVersion) =>
      && Finds(s, req, found) && newDocument !in s.documents && newVersion !in s.versions
      && if SaveSucceeds(s, req, found) then Saved(s, req, found, newDocument, newVersion, s') else s' == s
    case ActivateOne(d, v) =>
      match Activate(s, d, v)
      case Err(_) => s' == s
      case Ok(t) => s' == t
  }

  ghost predicate IsRun(states: seq<Store>, ops: seq<Operation>) {
    && |states| == |ops| + 1
    && states[0] == Store(map[], map[])
    && forall i | 0 <= i < |ops| :: Step(states[i], ops[i], states[i + 1])
  }

  lemma {:induction false} RunKeeps(states: seq<Store>, ops: seq<Operation>, i: nat)
    requires IsRun(states, ops) && i < |states|
    ensures Invariant(states[i])
  {
    if i > 0 {
      RunKeeps(states, ops, i - 1);
      assert Step(states[i - 1], ops[i - 1], states[i]);
      match ops[i - 1] {
        case Save(req, found, newDocument, newVersion) =>
          if SaveSucceeds(states[i - 1], req, found) {
            SaveKeeps(states[i - 1], req, found, newDocument, newVersion, states[i]);
          }
        case ActivateOne(d, v) =>
          if Activate(states[i - 1], d, v).Ok? { ActivateKeeps(states[i - 1], d, v); }
      }
    }
  }

  /** Following `previous_version_id` for at most so many steps. */
  ghost function Follow(s: Store, from: Option<int>, steps: nat): seq<int>
    decreases steps
  {
    if steps == 0 || from.None? || from.value !in s.versions then []
    else [from.value] + Follow(s, s.versions[from.value].previous, steps - 1)
  }

  lemma {:induction false} FollowLine(s: Store, d: int, line: seq<int>, n: nat, steps: nat)
    requires IsLine(s, d, line) && n <= |line| && n <= steps
    ensures var from := if n == 0 then None else Some(line[n - 1]);
            var visited := Follow(s, from, steps);
            |visited| == n && forall i | 0 <= i < n :: visited[i] == line[n - 1 - i]
    decreases n
  {
    hide IsLine;
    if n > 0 {
      EntryAt(s, d, line, n - 1);
      FollowLine(s, d, line, n - 1, steps - 1);
    }
  }

  lemma LineSize(s: Store, d: int, line: seq<int>)
    requires IsLine(s, d, line)
    ensures |VersionsOf(s, d)| == |line|
  {
    hide IsLine;
    forall i, j | 0 <= i < j < |line| ensures line[i] != line[j] {
      EntryAt(s, d, line, i);
      EntryAt(s, d, line, j);
    }
    DistinctSize(line);
    forall v ensures v in VersionsOf(s, d) <==> v in line {
      if v in line {
        var i :| 0 <= i < |line| && line[i] == v;
        EntryAt(s, d, line, i);
      }
      if v in VersionsOf(s, d) { var i := PositionInLine(s, d, line, v); }
    }
    assert VersionsOf(s, d) == set v | v in line;
  }

  lemma {:induction false} DistinctSize(q: seq<int>)
    requires forall i, j | 0 <= i < j < |q| :: q[i] != q[j]
    ensures |set v | v in q| == |q|
  {
    if q != [] {
      DistinctSize(q[1..]);
      assert (set v | v in q) == (set v | v in q[1..]) + {q[0]};
    }
  }

  /**
   * Following the previous versions from d's latest one visits each of its n versions once,
   * numbered n, n-1, ..., 1, and stops at the only initial one.
   */
  ghost predicate ChainVisitsAll(s: Store, d: int, visited: seq<int>) {
    var n := |VersionsOf(s, d)|;
    && |visited| == n
    && (forall i | 0 <= i < n ::
          && visited[i] in s.versions && s.versions[visited[i]].document == d
          && s.versions[visited[i]].number == n - i
          && (s.versions[visited[i]].revision == Initial <==> i == n - 1))
    && (forall v | v in VersionsOf(s, d) :: v in visited)
  }

  lemma LineIsChain(s: Store, d: int, line: seq<int>, steps: nat)
    requires IsLine(s, d, line) && steps >= |line|
    ensures ChainVisitsAll(s, d, Follow(s, s.documents[d].latest, steps))
  {
    hide IsLine;
    LineSize(s, d, line);
    LatestIsLast(s, d, line);
    FollowLine(s, d, line, |line|, steps);
    var visited := Follow(s, s.documents[d].latest, steps);
    forall i | 0 <= i < |line|
      ensures visited[i] in s.versions && s.versions[visited[i]].document == d
        && s.versions[visited[i]].number == |line| - i
        && (s.versions[visited[i]].revision == Initial <==> i == |line| - 1)
    {
      EntryAt(s, d, line, |line| - 1 - i);
      assert visited[i] == line[|line| - 1 - i];
    }
    forall v | v in VersionsOf(s, d) ensures v in visited {
      var i := PositionInLine(s, d, line, v);
      assert visited[|line| - 1 - i] == v;
    }
  }

  /** So it is after any run of saves, failed saves and activations, for every document. */
  lemma VersionChain(states: seq<Store>, ops: seq<Operation>, k: nat, d: int, steps: nat)
    requires IsRun(states, ops) && k < |states| && d in states[k].documents
    requires steps >= |VersionsOf(states[k], d)|
    ensures ChainVisitsAll(states[k], d, Follow(states[k], states[k].documents[d].latest, steps))
  {
    RunKeeps(states, ops, k);
    var s := states[k];
    assert HasLine(s, d);
    var line :| IsLine(s, d, line);
    LineSize(s, d, line);
    LineIsChain(s, d, line, steps);
  }

  /** After any run, a version is active iff it is its document's current one, and labels do not repeat. */
  lemma ActiveIffCurrent(states: seq<Store>, ops: seq<Operation>, k: nat, v: int)
    requires IsRun(states, ops) && k < |states| && v in states[k].versions
    ensures var s := states[k];
            var d := s.versions[v].document;
            && d in s.documents
            && (s.versions[v].status == Active <==> s.documents[d].current == Some(v))
            && (forall w | w in VersionsOf(s, d) && w != v ::
                  s.versions[w].versionLabel != s.versions[v].versionLabel
                  && !(s.versions[w].status == Active && s.versions[v].status == Active))
  {
    RunKeeps(states, ops, k);
  }

  /** After any run, no name and category, no number, no label and no file of a document occurs twice. */
  lemma NothingRepeats(states: seq<Store>, ops: seq<Operation>, k: nat)
    requires IsRun(states, ops) && k < |states|
    ensures var s := states[k];
      && (forall d, e | d in s.documents && e in s.documents && d != e ::
            s.documents[d].name == s.documents[e].name ==> s.documents[d].category != s.documents[e].category)
      && (forall v, w | v in s.versions && w in s.versions && v != w
                        && s.versions[v].document == s.versions[w].document ::
            && s.versions[v].number != s.versions[w].number
            && s.versions[v].versionLabel != s.versions[w].versionLabel
            && s.versions[v].fileHash != s.versions[w].fileHash)
  {
    RunKeeps(states, ops, k);
    var s := states[k];
    hide IsLine;
    forall v, w | v in s.versions && w in s.versions && v != w && s.versions[v].document == s.versions[w].document
      ensures s.versions[v].number != s.versions[w].number
    {
      assert HasLine(s, s.versions[v].document);
      var line :| IsLine(s, s.versions[v].document, line);
      var i := PositionInLine(s, s.versions[v].document, line, v);
      var j := PositionInLine(s, s.versions[v].document, line, w);
    }
  }

  /**
   * In any run, activating a version of a document leaves it the document's only active version: the
   * one that was active is superseded, and no other status changes.
   */
  lemma ActivationSwitches(states: seq<Store>, ops: seq<Operation>, k: nat)
    requires IsRun(states, ops) && k < |ops| && ops[k].ActivateOne?
    requires var s, v := states[k], ops[k].version; v in s.versions && s.versions[v].document == ops[k].document
    ensures var s, s', d, v := states[k], states[k + 1], ops[k].document, ops[k].version;
      && d in s'.documents && s'.documents[d].current == Some(v) && s'.documents[d].status == ActiveDocument
      && s'.versions.Keys == s.versions.Keys
      && (forall w | w in s.versions && s.versions[w].document == d :: s'.versions[w].status == Active <==> w == v)
      && (forall w | w in s.versions && w != v ::
            s'.versions[w].status == if s.versions[w].document == d && s.versions[w].status == Active
                                     then Superseded else s.versions[w].status)
  {
    RunKeeps(states, ops, k);
    assert Step(states[k], ops[k], states[k + 1]);
    ActivationEffect(states[k], ops[k].document, ops[k].version);
    hide HasLine, Activate;
  }

  // ---------------------------------------------------------------- what serialisation buys

  lemma LineHasMax(s: Store, d: int, line: seq<int>)
    requires IsLine(s, d, line)
    ensures IsMaxNumber(s, d, |line|)
    ensures forall n: nat :: n in Numbers(s, d) <==> 1 <= n <= |line|
  {
    hide IsLine;
    forall n: nat ensures n in Numbers(s, d) <==> 1 <= n <= |line| {
      if n in Numbers(s, d) {
        var v :| v in s.versions && s.versions[v].document == d && s.versions[v].number == n;
        var i := PositionInLine(s, d, line, v);
      }
      if 1 <= n <= |line| {
        var w := line[n - 1];
        EntryAt(s, d, line, n - 1);
        assert w in s.versions && s.versions[w].document == d && s.versions[w].number == n;
      }
    }
    if line != [] { assert |line| in Numbers(s, d); }
  }

  lemma SameEntry(s: Store, d: int, a: seq<int>, b: seq<int>, i: nat)
    requires IsLine(s, d, a) && IsLine(s, d, b) && i < |a|
    ensures i < |b| && a[i] == b[i]
  {
    hide IsLine;
    EntryAt(s, d, a, i);
    var j := PositionInLine(s, d, b, a[i]);
  }

  /** A document has one version line. */
  lemma SameLine(s: Store, d: int, a: seq<int>, b: seq<int>)
    requires IsLine(s, d, a) && IsLine(s, d, b)
    ensures a == b
  {
    hide IsLine;
    forall i | 0 <= i < |a| ensures i < |b| && a[i] == b[i] { SameEntry(s, d, a, b, i); }
    if |a| < |b| { SameEntry(s, d, b, a, |a|); }
    if |b| < |a| { SameEntry(s, d, a, b, |b|); }
  }

  /** A version with the next number keeps the line if and only if it points at the latest version. */
  lemma NextNumberKeepsLine(s: Store, d: int, line: seq<int>, v: int, versionLabel: string,
      readLatest: Option<int>, fileHash: string)
    requires IsLine(s, d, line) && d in s.documents && v !in s.versions
    ensures var s' := WithVersion(s, d, s.documents[d], v, |line| + 1, versionLabel, readLatest, fileHash);
      && (HasLine(s', d) <==> readLatest == s.documents[d].latest)
      && (HasLine(s', d) ==> IsLine(s', d, line + [v]))
  {
    var s' := WithVersion(s, d, s.documents[d], v, |line| + 1, versionLabel, readLatest, fileHash);
    if readLatest == s.documents[d].latest {
      LineGrows(s, d, line, s.documents[d], v, versionLabel, fileHash);
      assert IsLine(s', d, line + [v]);
    }
    if HasLine(s', d) {
      var l :| IsLine(s', d, l);
      LastOfLongerLine(s, s', d, line, v, l);
    }
  }

  /** In a line with one version more, that version points at the end of the shorter line. */
  lemma LastOfLongerLine(s: Store, s': Store, d: int, line: seq<int>, v: int, l: seq<int>)
    requires IsLine(s, d, line) && IsLine(s', d, l)
    requires v !in s.versions && v in s'.versions && s'.versions[v].document == d && s'.versions[v].number == |line| + 1
    requires forall w | w in s.versions :: w in s'.versions && s'.versions[w] == s.versions[w]
    ensures s'.versions[v].previous == s.documents[d].latest
  {
    hide IsLine;
    LatestIsLast(s, d, line);
    var i := PositionInLine(s', d, l, v);
    if line != [] {
      var last := line[|line| - 1];
      EntryAt(s, d, line, |line| - 1);
      var j := PositionInLine(s', d, l, last);
    }
  }
}
