/**
 * Overlapping saves of one knowledge document.  A save reads the document, then the greatest number,
 * then the labels, and then inserts; nothing locks the document, so other transactions may commit in
 * between.  The unique constraints of the schema refuse an insert that repeats a number, a label or a
 * file of the document.
 */
module VersionRaces {
  import opened KnowledgeVersions
  import opened Outcomes
  import opened Text
  import opened VersionLabels

  datatype Progress =
    | DocumentRead
    | MaxRead(number: nat)
    | LabelsRead(number: nat, versionLabel: string)
    | Ended(saved: bool)

  /** `seen`: how many versions the document had when the save read it. */
  datatype Saving = Saving(document: int, request: SaveRequest, latest: Option<int>, seen: nat, progress: Progress)

  datatype Racing = Racing(store: Store, saves: map<int, Saving>)

  /** `Whole`: an operation that nothing overlaps, such as the save that creates a document. */
  datatype Move =
    | Whole(op: Operation)
    | ReadDocument(save: int, document: int, request: SaveRequest)
    | ReadMax(save: int)
    | ReadLabels(save: int)
    | Insert(save: int, newVersion: int)

  /** The insert meets no unique constraint, and the chunks that follow have their embeddings. */
  ghost predicate Accepted(s: Store, sv: Saving)
    requires sv.progress.LabelsRead?
  {
    && sv.progress.number !in Numbers(s, sv.document)
    && sv.progress.versionLabel !in Labels(s, sv.document)
    && (forall v | v in s.versions && s.versions[v].document == sv.document ::
        s.versions[v].fileHash != sv.request.fileHash)
    && sv.request.vectorsReady
  }

  function Inserted(s: Store, sv: Saving, v: int): Store
    requires sv.progress.LabelsRead? && sv.document in s.documents
  {
    WithVersion(s, sv.document, s.documents[sv.document], v, sv.progress.number, sv.progress.versionLabel,
        sv.latest, sv.request.fileHash)
  }

  function Now(r: Racing, t: int, sv: Saving, progress: Progress): Racing {
    r.(saves := r.saves[t := sv.(progress := progress)])
  }

  ghost predicate RaceStep(r: Racing, m: Move, r': Racing) {
    match m
    case Whole(op) => Step(r.store, op, r'.store) && r'.saves == r.saves
    case ReadDocument(t, d, request) =>
      && t !in r.saves && d in r.store.documents
      && r' == r.(saves := r.saves[t := Saving(d, request, r.store.documents[d].latest, |VersionsOf(r.store, d)|,
          DocumentRead)])
    case ReadMax(t) =>
      && t in r.saves && r.saves[t].progress.DocumentRead?
      && exists m: nat :: IsMaxNumber(r.store, r.saves[t].document, m) && r' == Now(r, t, r.saves[t], MaxRead(m + 1))
    case ReadLabels(t) =>
      && t in r.saves && r.saves[t].progress.MaxRead?
      && var sv := r.saves[t];
         var chosen := UniqueLabel(Labels(r.store, sv.document), sv.request.versionLabel);
         r' == Now(r, t, sv, if chosen.Ok? then LabelsRead(sv.progress.number, chosen.value) else Ended(false))
    case Insert(t, v) =>
      && t in r.saves && r.saves[t].progress.LabelsRead? && r.saves[t].document in r.store.documents
        && v !in r.store.versions
      && var sv := r.saves[t];
         r' == if Accepted(r.store, sv) then Now(r, t, sv, Ended(true)).(store := Inserted(r.store, sv, v))
               else Now(r, t, sv, Ended(false))
  }

  /** A race from the empty store. */
  ghost predicate IsRace(states: seq<Racing>, moves: seq<Move>) {
    && |states| == |moves| + 1
    && states[0] == Racing(Store(map[], map[]), map[])
    && forall i | 0 <= i < |moves| :: RaceStep(states[i], moves[i], states[i + 1])
  }

  // ---------------------------------------------------------------- what a save has read

  /** The reads of a save, against the line of its document: old, perhaps, but once true. */
  ghost predicate OnceTrue(sv: Saving, line: seq<int>) {
    !sv.progress.Ended? ==>
      && sv.seen <= |line| && sv.latest == (if sv.seen == 0 then None else Some(line[sv.seen - 1]))
      && (!sv.progress.DocumentRead? ==> sv.seen < sv.progress.number <= |line| + 1)
  }

  ghost predicate ReadsOk(s: Store, sv: Saving) {
    sv.document in s.documents && forall line | IsLine(s, sv.document, line) :: OnceTrue(sv, line)
  }

  ghost predicate RaceOk(r: Racing) {
    Linear(r.store) && forall t | t in r.saves :: ReadsOk(r.store, r.saves[t])
  }

  /** The lines of s' extend those of s. */
  ghost predicate Extend(s: Store, s': Store) {
    forall d | d in s.documents ::
      d in s'.documents && forall line, line' | IsLine(s, d, line) && IsLine(s', d, line') :: line <= line'
  }

  lemma ExtendKeepsReads(s: Store, s': Store, sv: Saving)
    requires Linear(s) && Extend(s, s') && ReadsOk(s, sv)
    ensures ReadsOk(s', sv)
  {
    hide IsLine, OnceTrue;
    assert HasLine(s, sv.document);
    var line :| IsLine(s, sv.document, line);
    forall line' | IsLine(s', sv.document, line') ensures OnceTrue(sv, line') {
      assert line <= line' && OnceTrue(sv, line);
      StillOnceTrue(sv, line, line');
    }
  }

  lemma StillOnceTrue(sv: Saving, line: seq<int>, line': seq<int>)
    requires OnceTrue(sv, line) && line <= line'
    ensures OnceTrue(sv, line')
  {
  }

  lemma LineExtends(s: Store, s': Store, d: int, line: seq<int>, longer: seq<int>)
    requires IsLine(s, d, line) && IsLine(s', d, longer) && line <= longer
    ensures forall a, b | IsLine(s, d, a) && IsLine(s', d, b) :: a <= b
  {
    hide IsLine;
    forall a, b | IsLine(s, d, a) && IsLine(s', d, b) ensures a <= b {
      SameLine(s, d, a, line);
      SameLine(s', d, b, longer);
    }
  }

  lemma SaveExtends(s: Store, req: SaveRequest, found: Option<int>, newDocument: int, v: int, s': Store)
    requires Linear(s) && newDocument !in s.documents && v !in s.versions && Saved(s, req, found, newDocument, v, s')
    ensures Extend(s, s')
  {
    var m: nat, versionLabel: string :| SavedAs(s, req, found, newDocument, v, m, versionLabel, s');
    var (d, doc) := SaveTarget(s, req, found, newDocument);
    hide IsLine, UniqueLabel, IsMaxNumber, Labels;
    NextExtends(s, d, doc, v, m, versionLabel, req.fileHash);
  }

  lemma NextExtends(s: Store, d: int, doc: Document, v: int, m: nat, versionLabel: string, fileHash: string)
    requires Linear(s) && v !in s.versions && IsMaxNumber(s, d, m) && (d in s.documents ==> doc == s.documents[d])
    ensures Extend(s, WithVersion(s, d, doc, v, m + 1, versionLabel, doc.latest, fileHash))
  {
    var s' := WithVersion(s, d, doc, v, m + 1, versionLabel, doc.latest, fileHash);
    hide IsLine, IsMaxNumber;
    forall e | e in s.documents
      ensures e in s'.documents && forall line, line' | IsLine(s, e, line) && IsLine(s', e, line') :: line <= line'
    {
      assert HasLine(s, e);
      var line :| IsLine(s, e, line);
      if e == d {
        LineMax(s, d, line, m);
        LineGrows(s, d, line, doc, v, versionLabel, fileHash);
        LineExtends(s, s', e, line, line + [v]);
      } else {
        OtherLinesStay(s, s', d, e, line);
        LineExtends(s, s', e, line, line);
      }
    }
  }

  lemma ActivateExtends(s: Store, d: int, v: int)
    requires Linear(s) && Activate(s, d, v).Ok?
    ensures Extend(s, Activate(s, d, v).value)
  {
    var s' := Activate(s, d, v).value;
    assert SameButStatus(s, s');
    hide IsLine;
    forall e | e in s.documents
      ensures e in s'.documents && forall line, line' | IsLine(s, e, line) && IsLine(s', e, line') :: line <= line'
    {
      assert e in s'.documents.Keys && HasLine(s, e);
      var line :| IsLine(s, e, line);
      LineIgnoresStatus(s, s', e, line);
      LineExtends(s, s', e, line, line);
    }
  }

  // ---------------------------------------------------------------- one insert

  /**
   * What an insert does to the line: it is accepted only with the next number, so only if no version
   * was committed after it read the greatest number; and it breaks the line exactly if one was
   * committed after it read the document.
   */
  lemma InsertOutcome(s: Store, sv: Saving, v: int, line: seq<int>)
    requires sv.progress.LabelsRead? && sv.document in s.documents && v !in s.versions
    requires IsLine(s, sv.document, line) && OnceTrue(sv, line)
    ensures Accepted(s, sv) ==> sv.progress.number == |line| + 1
    ensures Accepted(s, sv) ==>
      && (HasLine(Inserted(s, sv, v), sv.document) <==> sv.seen == |line|)
      && (HasLine(Inserted(s, sv, v), sv.document) ==> IsLine(Inserted(s, sv, v), sv.document, line + [v]))
  {
    hide IsLine;
    LineHasMax(s, sv.document, line);
    if Accepted(s, sv) {
      NextNumberKeepsLine(s, sv.document, line, v, sv.progress.versionLabel, sv.latest, sv.request.fileHash);
      LatestIsLast(s, sv.document, line);
      if 0 < sv.seen < |line| {
        EntryAt(s, sv.document, line, sv.seen - 1);
        EntryAt(s, sv.document, line, |line| - 1);
      }
    }
  }

  lemma InsertExtends(s: Store, sv: Saving, v: int)
    requires Linear(s) && ReadsOk(s, sv) && sv.progress.LabelsRead? && v !in s.versions && Accepted(s, sv)
    requires HasLine(Inserted(s, sv, v), sv.document)
    ensures Extend(s, Inserted(s, sv, v))
  {
    var s', d := Inserted(s, sv, v), sv.document;
    hide IsLine, OnceTrue, Accepted;
    forall e | e in s.documents
      ensures e in s'.documents && forall line, line' | IsLine(s, e, line) && IsLine(s', e, line') :: line <= line'
    {
      assert HasLine(s, e);
      var line :| IsLine(s, e, line);
      if e == d {
        InsertOutcome(s, sv, v, line);
        LineExtends(s, s', e, line, line + [v]);
      } else {
        OtherLinesStay(s, s', d, e, line);
        LineExtends(s, s', e, line, line);
      }
    }
  }

  /** Some version of the document has this number, label or file. */
  ghost predicate Conflicts(s: Store, d: int, number: nat, versionLabel: string, fileHash: string) {
    exists v ::
      && v in s.versions && s.versions[v].document == d
      && (|| s.versions[v].number == number || s.versions[v].versionLabel == versionLabel
          || s.versions[v].fileHash == fileHash)
  }

  /**
   * An insert is refused exactly when the document already has its number, its label or its file, or a
   * chunk has no embedding.  Otherwise it adds the version as the save has read it, and makes it the
   * latest one.
   */
  lemma InsertEffect(r: Racing, m: Move, r': Racing)
    requires RaceStep(r, m, r') && m.Insert?
    ensures m.save in r.saves && r.saves[m.save].progress.LabelsRead? && r.saves[m.save].document in r.store.documents
    ensures var s, sv := r.store, r.saves[m.save];
      var p, d := sv.progress, sv.document;
      var refused := !sv.request.vectorsReady || Conflicts(s, d, p.number, p.versionLabel, sv.request.fileHash);
      && r'.saves == r.saves[m.save := sv.(progress := Ended(!refused))]
      && r'.store == if refused then s else Store(
           s.documents[d := s.documents[d].(latest := Some(m.newVersion))],
           s.versions[m.newVersion := Version(d, p.number, p.versionLabel, sv.latest,
             if sv.latest.None? then Initial else Revise, Draft, sv.request.fileHash)])
  {
    RefusedExactly(r.store, r.saves[m.save]);
    hide Accepted, Conflicts;
  }

  lemma RefusedExactly(s: Store, sv: Saving)
    requires sv.progress.LabelsRead?
    ensures Accepted(s, sv) <==>
      && sv.request.vectorsReady
      && !Conflicts(s, sv.document, sv.progress.number, sv.progress.versionLabel, sv.request.fileHash)
  {
    var p, d := sv.progress, sv.document;
    if Conflicts(s, d, p.number, p.versionLabel, sv.request.fileHash) {
      var v :| v in s.versions && s.versions[v].document == d
               && (s.versions[v].number == p.number || s.versions[v].versionLabel == p.versionLabel
                   || s.versions[v].fileHash == sv.request.fileHash);
      assert s.versions[v].number in Numbers(s, d) && s.versions[v].versionLabel in Labels(s, d);
    }
    if p.number in Numbers(s, d) {
      var v :| v in s.versions && s.versions[v].document == d && s.versions[v].number == p.number;
      assert Conflicts(s, d, p.number, p.versionLabel, sv.request.fileHash);
    }
    if p.versionLabel in Labels(s, d) {
      var v :| v in s.versions && s.versions[v].document == d && s.versions[v].versionLabel == p.versionLabel;
      assert Conflicts(s, d, p.number, p.versionLabel, sv.request.fileHash);
    }
  }

  /** With nothing in between, the four steps are one whole save. */
  lemma UninterruptedIsWhole(r0: Racing, r1: Racing, r2: Racing, r3: Racing, r4: Racing, t: int, d: int,
      req: SaveRequest, newDocument: int, v: int)
    requires req.target == Some(d) && newDocument !in r0.store.documents && v !in r0.store.versions
    requires RaceStep(r0, ReadDocument(t, d, req), r1) && RaceStep(r1, ReadMax(t), r2)
    requires RaceStep(r2, ReadLabels(t), r3)
    requires if r3.saves[t].progress.Ended? then r4 == r3 else RaceStep(r3, Insert(t, v), r4)
    ensures Step(r0.store, Save(req, Some(d), newDocument, v), r4.store)
    ensures r4.saves[t].progress == Ended(SaveSucceeds(r0.store, req, Some(d)))
  {
    var s := r0.store;
    assert r3.store == s && r3.saves[t].request == req && r3.saves[t].document == d;
    assert r3.saves[t].latest == s.documents[d].latest;
    SaveOutcome(s, req, Some(d));
    StripEmpty(req.versionLabel);
    var m: nat :| IsMaxNumber(s, d, m) && r2 == Now(r1, t, r1.saves[t], MaxRead(m + 1));
    if r3.saves[t].progress.LabelsRead? {
      AcceptedIffWhole(s, r3.saves[t], newDocument, v, m);
    }
    hide UniqueLabel, Strip, Blank, SaveSucceeds, IsMaxNumber, Accepted, Saved, Inserted;
  }

  /** With nothing read stale, an insert is accepted exactly when the whole save succeeds, and is that save. */
  lemma AcceptedIffWhole(s: Store, sv: Saving, newDocument: int, v: int, m: nat)
    requires sv.document in s.documents && v !in s.versions && sv.request.target == Some(sv.document)
    requires sv.latest == s.documents[sv.document].latest && IsMaxNumber(s, sv.document, m)
    requires sv.progress.LabelsRead? && sv.progress.number == m + 1
    requires UniqueLabel(Labels(s, sv.document), sv.request.versionLabel) == Ok(sv.progress.versionLabel)
    ensures Accepted(s, sv) <==> SaveSucceeds(s, sv.request, Some(sv.document))
    ensures Saved(s, sv.request, Some(sv.document), newDocument, v, Inserted(s, sv, v))
  {
    var d := sv.document;
    SaveOutcome(s, sv.request, Some(d));
    UniqueLabelIsFresh(Labels(s, d), sv.request.versionLabel);
    assert SavedAs(s, sv.request, Some(d), newDocument, v, m, sv.progress.versionLabel, Inserted(s, sv, v));
    hide SaveSucceeds, Strip;
  }

  // ---------------------------------------------------------------- whole races

  lemma StoreExtends(r: Racing, m: Move, r': Racing)
    requires RaceOk(r) && RaceStep(r, m, r') && Linear(r'.store)
    ensures Extend(r.store, r'.store)
  {
    if r'.store == r.store {
      SameExtends(r.store);
    } else {
      match m {
        case Whole(Save(req, found, newDocument, v)) => SaveExtends(r.store, req, found, newDocument, v, r'.store);
        case Whole(ActivateOne(d, v)) => ActivateExtends(r.store, d, v);
        case Insert(t, v) =>
          hide IsLine, OnceTrue, Accepted, Extend;
          assert r.saves[t].document in r'.store.documents;
          InsertExtends(r.store, r.saves[t], v);
        case _ =>
      }
    }
  }

  lemma SameExtends(s: Store)
    ensures Extend(s, s)
  {
    hide IsLine;
    forall d, a, b | IsLine(s, d, a) && IsLine(s, d, b) ensures a <= b { SameLine(s, d, a, b); }
  }

  /** The reads a move adds are true when it adds them. */
  lemma NewReadsOk(r: Racing, m: Move, r': Racing, t: int)
    requires RaceOk(r) && RaceStep(r, m, r') && !m.Whole? && m.save == t
    requires ReadsOk(r'.store, if t in r.saves then r.saves[t] else r'.saves[t]) || t !in r.saves
    ensures t in r'.saves && ReadsOk(r'.store, r'.saves[t])
  {
    hide IsLine;
    match m {
      case ReadDocument(_, d, _) =>
        forall line | IsLine(r.store, d, line) ensures OnceTrue(r'.saves[t], line) {
          LineSize(r.store, d, line);
          LatestIsLast(r.store, d, line);
        }
      case ReadMax(_) =>
        forall line | IsLine(r.store, r.saves[t].document, line) ensures OnceTrue(r'.saves[t], line) {
          LineMax(r.store, r.saves[t].document, line, r'.saves[t].progress.number - 1);
          assert OnceTrue(r.saves[t], line);
        }
      case ReadLabels(_) =>
        forall line | IsLine(r.store, r.saves[t].document, line) ensures OnceTrue(r'.saves[t], line) {
          assert OnceTrue(r.saves[t], line);
        }
      case Insert(_, _) =>
    }
  }

  lemma RaceStepKeeps(r: Racing, m: Move, r': Racing)
    requires RaceOk(r) && RaceStep(r, m, r') && Linear(r'.store)
    ensures RaceOk(r')
  {
    StoreExtends(r, m, r');
    hide Linear, ReadsOk, Extend;
    forall t | t in r'.saves ensures ReadsOk(r'.store, r'.saves[t]) {
      if t in r.saves { ExtendKeepsReads(r.store, r'.store, r.saves[t]); }
      if !m.Whole? && m.save == t { NewReadsOk(r, m, r', t); }
    }
  }

  lemma {:induction false} RaceKeeps(states: seq<Racing>, moves: seq<Move>, k: nat)
    requires IsRace(states, moves) && k < |states| && forall i | 0 <= i <= k :: Linear(states[i].store)
    ensures RaceOk(states[k])
  {
    if k > 0 {
      RaceKeeps(states, moves, k - 1);
      assert RaceStep(states[k - 1], moves[k - 1], states[k]);
      hide RaceOk, RaceStep, Linear;
      RaceStepKeeps(states[k - 1], moves[k - 1], states[k]);
    }
  }

  /**
   * Overlapping saves, in any race in which the lines were whole so far.  An insert is refused, and
   * changes nothing, if a version of the document was committed after the save read the greatest
   * number.  It breaks the line if and only if it is accepted although a version was committed after
   * the save read the document: that is, between its first read and its second.
   */
  lemma StaleReadBreaksLine(states: seq<Racing>, moves: seq<Move>, k: nat)
    requires IsRace(states, moves) && k < |moves| && moves[k].Insert?
    requires forall i | 0 <= i <= k :: Linear(states[i].store)
    ensures moves[k].save in states[k].saves && states[k].saves[moves[k].save].progress.LabelsRead?
    ensures var sv, s, s' := states[k].saves[moves[k].save], states[k].store, states[k + 1].store;
      var n := |VersionsOf(s, sv.document)|;
      && (sv.progress.number <= n ==> s' == s)
      && (!HasLine(s', sv.document) <==> Accepted(s, sv) && sv.seen < n)
      && (Accepted(s, sv) ==> sv.progress.number == n + 1)
  {
    RaceKeeps(states, moves, k);
    assert RaceStep(states[k], moves[k], states[k + 1]);
    var t := moves[k].save;
    var sv, s := states[k].saves[t], states[k].store;
    assert ReadsOk(s, sv);
    hide IsLine, OnceTrue, Accepted;
    assert HasLine(s, sv.document);
    var line :| IsLine(s, sv.document, line);
    LineSize(s, sv.document, line);
    InsertOutcome(s, sv, moves[k].newVersion, line);
    assert sv.seen <= |line| && sv.progress.number <= |line| + 1 by { SeenWithin(sv, line); }
  }

  lemma SeenWithin(sv: Saving, line: seq<int>)
    requires OnceTrue(sv, line) && sv.progress.LabelsRead?
    ensures sv.seen <= |line| && sv.progress.number <= |line| + 1
  {
  }

  /** No two versions of a document share a number, a label or a file. */
  ghost predicate Unique(s: Store) {
    forall v, w | v in s.versions && w in s.versions && v != w && s.versions[v].document == s.versions[w].document ::
      && s.versions[v].number != s.versions[w].number
      && s.versions[v].versionLabel != s.versions[w].versionLabel
      && s.versions[v].fileHash != s.versions[w].fileHash
  }

  /** A store in which every version belongs to a document. */
  ghost predicate Owned(s: Store) {
    forall v | v in s.versions :: s.versions[v].document in s.documents
  }

  lemma UniqueStep(r: Racing, m: Move, r': Racing)
    requires Unique(r.store) && Owned(r.store) && RaceStep(r, m, r')
    ensures Unique(r'.store) && Owned(r'.store)
  {
    match m {
      case Whole(Save(req, found, newDocument, v)) =>
        if SaveSucceeds(r.store, req, found) {
          SaveOutcome(r.store, req, found);
          SaveEffect(r.store, req, found, newDocument, v, r'.store);
          hide Saved, SaveSucceeds, Finds;
        }
      case Whole(ActivateOne(d, v)) =>
        ActivationEffect(r.store, d, v);
        hide Activate;
      case Insert(t, v) =>
        InsertEffect(r, m, r');
        hide RaceStep;
      case _ =>
    }
  }

  /** So it is throughout any race, whether or not a line has been broken. */
  lemma {:induction false} NothingRepeatsInRaces(states: seq<Racing>, moves: seq<Move>, k: nat)
    requires IsRace(states, moves) && k < |states|
    ensures Unique(states[k].store) && Owned(states[k].store)
  {
    if k > 0 {
      NothingRepeatsInRaces(states, moves, k - 1);
      assert RaceStep(states[k - 1], moves[k - 1], states[k]);
      hide RaceStep, Unique, Owned;
      UniqueStep(states[k - 1], moves[k - 1], states[k]);
    }
  }

  // ---------------------------------------------------------------- a race that breaks a line

  lemma OneMoreVersion(s: Store, d: int, doc: Document, v: int, number: nat, versionLabel: string,
      latest: Option<int>, fileHash: string)
    requires v !in s.versions
    ensures var s' := WithVersion(s, d, doc, v, number, versionLabel, latest, fileHash);
      && Numbers(s', d) == Numbers(s, d) + {number} && Labels(s', d) == Labels(s, d) + {versionLabel}
      && s'.documents[d] == doc.(latest := Some(v))
  {
    var s' := WithVersion(s, d, doc, v, number, versionLabel, latest, fileHash);
    forall n: nat ensures n in Numbers(s', d) <==> n in Numbers(s, d) + {number} {
      if n in Numbers(s, d) {
        var w :| w in s.versions && s.versions[w].document == d && s.versions[w].number == n;
        assert s'.versions[w] == s.versions[w];
      }
      assert s'.versions[v].number == number;
    }
    forall l: string ensures l in Labels(s', d) <==> l in Labels(s, d) + {versionLabel} {
      if l in Labels(s, d) {
        var w :| w in s.versions && s.versions[w].document == d && s.versions[w].versionLabel == l;
        assert s'.versions[w] == s.versions[w];
      }
      assert s'.versions[v].versionLabel == versionLabel;
    }
  }

  lemma PlainLabel(existing: set<string>, versionLabel: string)
    requires |versionLabel| == 1 && !IsSpace(versionLabel[0]) && versionLabel !in existing
    ensures UniqueLabel(existing, versionLabel) == Ok(versionLabel) && !Blank(versionLabel)
  {
    StripFixed(versionLabel);
  }

  const POLICY_DOCUMENT := Document("p", "c", None, None, DraftDocument)
  const FIRST_SAVE := SaveRequest(None, "p", "c", ['1'], "h1", true)
  const OVERLAPPING_SAVE := SaveRequest(Some(1), "p", "c", ['2'], "h2", true)
  const OVERLAPPED_SAVE := SaveRequest(Some(1), "p", "c", ['3'], "h3", true)

  function OneVersion(): Store {
    WithVersion(Store(map[], map[]), 1, POLICY_DOCUMENT, 10, 1, ['1'], None, "h1")
  }

  function TwoVersions(): Store {
    WithVersion(OneVersion(), 1, OneVersion().documents[1], 11, 2, ['2'], Some(10), "h2")
  }

  /** Both of the later versions point at the first one. */
  function Forked(): Store {
    WithVersion(TwoVersions(), 1, TwoVersions().documents[1], 12, 3, ['3'], Some(10), "h3")
  }

  lemma StoresOfRace()
    ensures Numbers(OneVersion(), 1) == {1} && Labels(OneVersion(), 1) == {['1']}
    ensures Numbers(TwoVersions(), 1) == {1, 2} && Labels(TwoVersions(), 1) == {['1'], ['2']}
    ensures IsMaxNumber(OneVersion(), 1, 1) && IsMaxNumber(TwoVersions(), 1, 2)
    ensures OneVersion().versions.Keys == {10} && TwoVersions().versions.Keys == {10, 11}
    ensures OneVersion().documents[1].latest == Some(10)
  {
    var empty := Store(map[], map[]);
    assert Numbers(empty, 1) == {} && Labels(empty, 1) == {};
    OneMoreVersion(empty, 1, POLICY_DOCUMENT, 10, 1, ['1'], None, "h1");
    OneMoreVersion(OneVersion(), 1, OneVersion().documents[1], 11, 2, ['2'], Some(10), "h2");
  }

  lemma FirstSaveStep()
    ensures Step(Store(map[], map[]), Save(FIRST_SAVE, None, 1, 10), OneVersion())
  {
    var empty := Store(map[], map[]);
    assert Numbers(empty, 1) == {} && Labels(empty, 1) == {};
    PlainLabel({}, ['1']);
    hide UniqueLabel, Blank;
    assert SaveSucceeds(empty, FIRST_SAVE, None);
    assert SavedAs(empty, FIRST_SAVE, None, 1, 10, 0, ['1'], OneVersion());
  }

  lemma ForkHasNoLine()
    ensures !HasLine(Forked(), 1)
  {
    var s := TwoVersions();
    assert LineEntry(s.versions[10], 1, [10, 11], 0) && LineEntry(s.versions[11], 1, [10, 11], 1);
    assert IsLine(s, 1, [10, 11]);
    NextNumberKeepsLine(s, 1, [10, 11], 12, ['3'], Some(10), "h3");
  }

  /** Save 1, and perhaps save 2, when they have got so far. */
  function Saves(first: Progress, second: Option<Progress>): map<int, Saving> {
    var one := map[1 := Saving(1, OVERLAPPED_SAVE, Some(10), 1, first)];
    if second.None? then one else one[2 := Saving(1, OVERLAPPING_SAVE, Some(10), 1, second.value)]
  }

  const ONE_READ := Racing(OneVersion(), Saves(DocumentRead, None))
  const BOTH_READ := Racing(OneVersion(), Saves(DocumentRead, Some(DocumentRead)))
  const NUMBERED := Racing(OneVersion(), Saves(DocumentRead, Some(MaxRead(2))))
  const LABELLED := Racing(OneVersion(), Saves(DocumentRead, Some(LabelsRead(2, ['2']))))
  const COMMITTED := Racing(TwoVersions(), Saves(DocumentRead, Some(Ended(true))))
  const LATE_NUMBERED := Racing(TwoVersions(), Saves(MaxRead(3), Some(Ended(true))))
  const LATE_LABELLED := Racing(TwoVersions(), Saves(LabelsRead(3, ['3']), Some(Ended(true))))
  const FORKED := Racing(Forked(), Saves(Ended(true), Some(Ended(true))))

  lemma ReadingSteps()
    ensures RaceStep(Racing(OneVersion(), map[]), ReadDocument(1, 1, OVERLAPPED_SAVE), ONE_READ)
    ensures RaceStep(ONE_READ, ReadDocument(2, 1, OVERLAPPING_SAVE), BOTH_READ)
    ensures RaceStep(BOTH_READ, ReadMax(2), NUMBERED)
    ensures RaceStep(COMMITTED, ReadMax(1), LATE_NUMBERED)
  {
    StoresOfRace();
    assert VersionsOf(OneVersion(), 1) == {10};
    hide IsMaxNumber, Numbers, Labels;
    assert NUMBERED == Now(BOTH_READ, 2, BOTH_READ.saves[2], MaxRead(1 + 1));
    assert LATE_NUMBERED == Now(COMMITTED, 1, COMMITTED.saves[1], MaxRead(2 + 1));
  }

  lemma OverlappingInserts()
    ensures RaceStep(NUMBERED, ReadLabels(2), LABELLED)
    ensures RaceStep(LABELLED, Insert(2, 11), COMMITTED)
  {
    StoresOfRace();
    PlainLabel({['1']}, ['2']);
    hide UniqueLabel, Numbers, Labels;
  }

  lemma OverlappedInserts()
    ensures RaceStep(LATE_NUMBERED, ReadLabels(1), LATE_LABELLED)
    ensures RaceStep(LATE_LABELLED, Insert(1, 12), FORKED)
  {
    StoresOfRace();
    PlainLabel({['1'], ['2']}, ['3']);
    hide UniqueLabel, Numbers, Labels;
  }

  lemma OneMoveMore(states: seq<Racing>, moves: seq<Move>, m: Move, r: Racing)
    requires IsRace(states, moves) && RaceStep(states[|states| - 1], m, r)
    ensures IsRace(states + [r], moves + [m])
  {
    hide RaceStep;
    var states', moves' := states + [r], moves + [m];
    forall i | 0 <= i < |moves'| ensures RaceStep(states'[i], moves'[i], states'[i + 1]) {
      if i < |moves| { assert RaceStep(states[i], moves[i], states[i + 1]); }
    }
  }

  /** A race so far, which has come to state r. */
  ghost predicate RaceTo(states: seq<Racing>, moves: seq<Move>, r: Racing) {
    IsRace(states, moves) && states[|states| - 1] == r
  }

  lemma Moved(states: seq<Racing>, moves: seq<Move>, r: Racing, m: Move, r': Racing)
    requires RaceTo(states, moves, r) && RaceStep(r, m, r')
    ensures RaceTo(states + [r'], moves + [m], r')
  {
    hide RaceStep;
    OneMoveMore(states, moves, m, r');
  }

  lemma Go(states: seq<Racing>, moves: seq<Move>, r: Racing, m: Move, r': Racing)
    returns (states': seq<Racing>, moves': seq<Move>)
    requires RaceTo(states, moves, r) && RaceStep(r, m, r')
    ensures RaceTo(states', moves', r') && moves' == moves + [m]
  {
    states', moves' := states + [r'], moves + [m];
    Moved(states, moves, r, m, r');
  }

  const DOCUMENTS_READ := [
    Whole(Save(FIRST_SAVE, None, 1, 10)), ReadDocument(1, 1, OVERLAPPED_SAVE), ReadDocument(2, 1, OVERLAPPING_SAVE)]

  const OVERLAPPING_MOVES := DOCUMENTS_READ + [ReadMax(2), ReadLabels(2), Insert(2, 11)]

  lemma BothReadTheDocument() returns (states: seq<Racing>)
    ensures RaceTo(states, DOCUMENTS_READ, BOTH_READ)
  {
    var empty, r, moves := Racing(Store(map[], map[]), map[]), Racing(OneVersion(), map[]), [];
    FirstSaveStep();
    assert RaceStep(empty, Whole(Save(FIRST_SAVE, None, 1, 10)), r);
    ReadingSteps();
    states := [empty];
    assert RaceTo(states, moves, empty);
    hide RaceTo, RaceStep, ONE_READ, BOTH_READ, OneVersion;
    states, moves := Go(states, moves, empty, Whole(Save(FIRST_SAVE, None, 1, 10)), r);
    states, moves := Go(states, moves, r, ReadDocument(1, 1, OVERLAPPED_SAVE), ONE_READ);
    states, moves := Go(states, moves, ONE_READ, ReadDocument(2, 1, OVERLAPPING_SAVE), BOTH_READ);
    assert moves == DOCUMENTS_READ;
  }

  lemma OverlappingSaveCommits() returns (states: seq<Racing>)
    ensures RaceTo(states, OVERLAPPING_MOVES, COMMITTED)
  {
    var moves := DOCUMENTS_READ;
    states := BothReadTheDocument();
    ReadingSteps();
    OverlappingInserts();
    hide RaceTo, RaceStep, BOTH_READ, NUMBERED, LABELLED, COMMITTED, DOCUMENTS_READ;
    states, moves := Go(states, moves, BOTH_READ, ReadMax(2), NUMBERED);
    states, moves := Go(states, moves, NUMBERED, ReadLabels(2), LABELLED);
    states, moves := Go(states, moves, LABELLED, Insert(2, 11), COMMITTED);
    assert moves == DOCUMENTS_READ + [ReadMax(2), ReadLabels(2), Insert(2, 11)];
  }

  /**
   * Save 1 reads the document; save 2 runs from its first read to its commit; save 1 then reads the
   * greatest number, inserts with the next one and is accepted, and the line is broken.
   */
  lemma TwoSavesForkTheLine() returns (states: seq<Racing>)
    ensures RaceTo(states, OVERLAPPING_MOVES + [ReadMax(1), ReadLabels(1), Insert(1, 12)], FORKED)
    ensures FORKED.saves[1].progress == Ended(true) && !HasLine(FORKED.store, 1)
  {
    var moves := OVERLAPPING_MOVES;
    states := OverlappingSaveCommits();
    ReadingSteps();
    OverlappedInserts();
    ForkHasNoLine();
    hide RaceTo, RaceStep, COMMITTED, LATE_NUMBERED, LATE_LABELLED, HasLine, OVERLAPPING_MOVES;
    states, moves := Go(states, moves, COMMITTED, ReadMax(1), LATE_NUMBERED);
    states, moves := Go(states, moves, LATE_NUMBERED, ReadLabels(1), LATE_LABELLED);
    states, moves := Go(states, moves, LATE_LABELLED, Insert(1, 12), FORKED);
    assert moves == OVERLAPPING_MOVES + [ReadMax(1), ReadLabels(1), Insert(1, 12)];
  }
}
