/** Whole lives of the attachment store: operations, crashes at any point, and restarts. */
module AttachmentRuns {
  import opened Outcomes
  import opened Text
  import opened AttachmentStorage
  import opened AttachmentRecovery

  /** While the process is down only the disk exists. */
  datatype Machine = Up(store: Store) | Down(disk: Disk)

  datatype Step =
    | Do(op: Op, now: int)
    | Crash(op: Op, now: int, left: Disk)
    | Stop
    | Start(now: int)
    | CrashInStart(now: int, left: Disk)

  ghost predicate Possible(config: Config, m: Machine, e: Step) {
    match e
    case Do(_, _) => m.Up?
    case Crash(op, now, left) => m.Up? && Between(m.store.disk, Changes(config, m.store, op, now), left)
    case Stop => m.Up?
    case Start(_) => m.Down?
    case CrashInStart(now, left) => m.Down? && Between(m.disk, Change(Unrestorable(config, m.disk, now), map[]), left)
  }

  ghost function Next(config: Config, m: Machine, e: Step): Machine
    requires Possible(config, m, e)
  {
    match e
    case Do(op, now) => Up(Apply(config, m.store, op, now).0)
    case Crash(_, _, left) => Down(left)
    case Stop => Down(m.store.disk)
    case Start(now) => Up(Restart(config, m.disk, now))
    case CrashInStart(_, left) => Down(left)
  }

  function Issues(config: Config, issued: map<string, Record>, e: Step): map<string, Record> {
    if e.Do? || e.Crash? then Issue(config, issued, e.op) else issued
  }

  ghost predicate Fresh(issued: map<string, Record>, e: Step) {
    e.Do? || e.Crash? ==> FreshId(issued, e.op)
  }

  function Issued(config: Config, steps: seq<Step>): map<string, Record> {
    if steps == [] then map[]
    else Issues(config, Issued(config, steps[..|steps| - 1]), steps[|steps| - 1])
  }

  /** A run begins with an empty directory; the ids staging generates never repeat. */
  ghost predicate Run(config: Config, steps: seq<Step>)
    decreases |steps|, 0
  {
    steps != [] ==>
      var before, e := steps[..|steps| - 1], steps[|steps| - 1];
      Run(config, before) && Possible(config, State(config, before), e) && Fresh(Issued(config, before), e)
  }

  ghost function State(config: Config, steps: seq<Step>): Machine
    requires Run(config, steps)
    decreases |steps|, 1
  {
    if steps == [] then Down(map[])
    else Next(config, State(config, steps[..|steps| - 1]), steps[|steps| - 1])
  }

  ghost predicate Kept(issued: map<string, Record>, m: Machine) {
    match m
    case Up(store) => Quiet(issued, store)
    case Down(disk) => SoundDisk(issued, disk)
  }

  lemma StepKeeps(config: Config, issued: map<string, Record>, m: Machine, e: Step)
    requires AllGenuine(config, issued) && Kept(issued, m) && Possible(config, m, e) && Fresh(issued, e)
    ensures AllGenuine(config, Issues(config, issued, e)) && Kept(Issues(config, issued, e), Next(config, m, e))
  {
    hide Quiet, SoundDisk, AllGenuine, Between, FreshId, Issue, Changes, Restart, Apply;
    match e
    case Do(op, now) =>
      IssueIsGenuine(config, issued, op);
      ApplyIsQuiet(config, issued, m.store, op, now);
    case Crash(op, now, left) =>
      IssueIsGenuine(config, issued, op);
      CrashIsSound(config, issued, m.store, op, now, left);
    case Stop =>
      QuietIsSound(issued, m.store);
    case Start(now) =>
      RestartIsQuiet(config, issued, m.disk, now);
    case CrashInStart(now, left) =>
      CrashInRestartIsSound(issued, m.disk, Unrestorable(config, m.disk, now), left);
  }

  /** After any run the store is quiet, or the disk such that a restart makes it so. */
  lemma {:induction false} RunKeeps(config: Config, steps: seq<Step>)
    requires Run(config, steps)
    ensures AllGenuine(config, Issued(config, steps)) && Kept(Issued(config, steps), State(config, steps))
  {
    if steps != [] {
      var before, e := steps[..|steps| - 1], steps[|steps| - 1];
      RunKeeps(config, before);
      StepKeeps(config, Issued(config, before), State(config, before), e);
    }
  }

  lemma {:induction false} RunPrefix(config: Config, steps: seq<Step>, k: nat)
    requires Run(config, steps) && k <= |steps|
    ensures Run(config, steps[..k])
    decreases |steps|
  {
    if k < |steps| {
      RunPrefix(config, steps[..|steps| - 1], k);
      assert steps[..|steps| - 1][..k] == steps[..k];
    } else {
      assert steps[..k] == steps;
    }
  }

  // ---------------------------------------------------------------- dead attachments

  /** No record offers the attachment and no manifest could bring it back. */
  ghost predicate Dead(m: Machine, id: string) {
    match m
    case Up(s) => (id in s.records ==> s.records[id].status != Available) && (id in s.disk ==> MANIFEST !in s.disk[id])
    case Down(disk) => id in disk ==> MANIFEST !in disk[id]
  }

  lemma DeadAfterPerform(config: Config, s: Store, op: Op, id: string)
    requires Dead(Up(s), id) && !(op.Stage? && op.id == id)
    ensures Dead(Up(Perform(config, s, op).0), id)
  {
    hide Content, Lookup, Complete, Screen, CopyError, RecordError, NewRecord;
    match op
    case Stage(_, _, _, _) =>
    case Read(raw, context) =>
    case Consume(raw, context) =>
    case Discard(raw, context) =>
    case Sweep =>
  }

  lemma DeadAfterApply(config: Config, s: Store, op: Op, now: int, id: string)
    requires Dead(Up(s), id) && !(op.Stage? && op.id == id)
    ensures Dead(Up(Apply(config, s, op, now).0), id)
  {
    hide Perform;
    assert Dead(Up(Cleanup(s, now)), id);
    DeadAfterPerform(config, Cleanup(s, now), op, id);
  }

  lemma DeadAfterCrash(base: Disk, c: Change, d: Disk, id: string)
    requires Between(base, c, d) && id !in c.adding && (id in base ==> MANIFEST !in base[id])
    ensures Dead(Down(d), id)
  {
    assert Reached(base, c, id, d);
  }

  lemma DeadStep(config: Config, issued: map<string, Record>, m: Machine, e: Step, id: string)
    requires Dead(m, id) && id in issued && Possible(config, m, e) && Fresh(issued, e)
    ensures Dead(Next(config, m, e), id)
  {
    match e
    case Do(op, now) =>
      hide GeneratedId, Apply;
      DeadAfterApply(config, m.store, op, now, id);
    case Crash(op, now, left) =>
      hide GeneratedId, Between, Goal, Screen;
      DeadAfterCrash(m.store.disk, Changes(config, m.store, op, now), left, id);
    case Stop =>
    case Start(now) =>
      if id in m.disk {
        NoManifest(config, id, m.disk[id]);
        hide ReadManifest, Verified;
      }
    case CrashInStart(now, left) =>
      hide Between;
      DeadAfterCrash(m.disk, Change(Unrestorable(config, m.disk, now), map[]), left, id);
  }

  lemma {:induction false} IssuedGrows(config: Config, steps: seq<Step>, i: nat, id: string)
    requires i <= |steps| && id in Issued(config, steps[..i])
    ensures id in Issued(config, steps)
    decreases |steps|
  {
    if i == |steps| {
      assert steps[..i] == steps;
    } else {
      var before := steps[..|steps| - 1];
      assert before[..i] == steps[..i];
      IssuedGrows(config, before, i, id);
    }
  }

  /** Once dead, an attachment never becomes available again. */
  lemma {:induction false} DeadForever(config: Config, steps: seq<Step>, i: nat, id: string)
    requires Run(config, steps) && i <= |steps| && Run(config, steps[..i])
    requires id in Issued(config, steps[..i]) && Dead(State(config, steps[..i]), id)
    ensures Dead(State(config, steps), id)
    decreases |steps|
  {
    if i == |steps| {
      assert steps[..i] == steps;
    } else {
      var before, e := steps[..|steps| - 1], steps[|steps| - 1];
      assert before[..i] == steps[..i];
      DeadForever(config, before, i, id);
      IssuedGrows(config, before, i, id);
      DeadStep(config, Issued(config, before), State(config, before), e, id);
    }
  }

  // ---------------------------------------------------------------- deliveries

  ghost function Observed(config: Config, steps: seq<Step>, k: nat): Option<Outcome>
    requires k < |steps| && Run(config, steps[..k]) && Possible(config, State(config, steps[..k]), steps[k])
  {
    if steps[k].Do? then Some(Apply(config, State(config, steps[..k]).store, steps[k].op, steps[k].now).1) else None
  }

  ghost predicate Delivers(config: Config, steps: seq<Step>, k: nat, id: string) {
    && k < |steps| && Run(config, steps[..k]) && Possible(config, State(config, steps[..k]), steps[k])
    && match Observed(config, steps, k)
       case Some(Delivered(reference, _)) => reference.id == id
       case _ => false
  }

  /** What is read from an available attachment. */
  lemma ContentOfAvailable(config: Config, issued: map<string, Record>, s: Store, id: string)
    requires AllGenuine(config, issued) && Quiet(issued, s) && id in s.records && s.records[id].status == Available
    ensures id in issued && s.records[id] == issued[id]
    ensures Content(s, id) == if Readable(issued[id]) then Some(issued[id].reference.digest.of) else None
  {
    hide AllGenuine, EndsWith, Genuine, Payload, Readable, Verified;
    assert QuietRecord(issued, s, id);
    IssuedIsGenuine(config, issued, id);
    GenuineFacts(config, id, issued[id]);
    VerifiedPart(issued[id], Complete(issued[id]));
  }

  /** An attachment is found under its id, also between blanks, by callers its owner and its conversation admit. */
  lemma LookupByFields(config: Config, issued: map<string, Record>, s: Store, raw: string, context: AccessContext)
    requires AllGenuine(config, issued) && Quiet(issued, s)
    ensures var id := Strip(raw);
      Lookup(s, raw, context) ==
        if && id in s.records && s.records[id].owner == context.subject
           && (s.records[id].conversation == None || s.records[id].conversation == context.conversation)
        then Some(id) else None
  {
    hide AllGenuine, QuietRecord, AttachmentId, GeneratedId, SafeFileName, Blank, Stripped, Strip;
    var id := Strip(raw);
    IdOfRaw(raw);
    if id in s.records {
      assert QuietRecord(issued, s, id);
      IssuedInRecords(issued, s, id);
      IssuedIsGenuine(config, issued, id);
    }
  }

  lemma IssuedInRecords(issued: map<string, Record>, s: Store, id: string)
    requires id in s.records && QuietRecord(issued, s, id)
    ensures id in issued
  {
  }

  lemma IdOfRaw(raw: string)
    ensures AttachmentId(raw).Some? ==> AttachmentId(raw).value == Strip(raw)
    ensures GeneratedId(Strip(raw)) ==> AttachmentId(raw) == Some(Strip(raw))
  {
    assert GeneratedId(Strip(raw)) ==> forall i | 0 <= i < |Strip(raw)| :: HexDigit(Strip(raw)[i]);
    hide Strip;
  }

  /** A read or a consumption delivers the original, if the store has it and its name is readable. */
  lemma DeliveredByLookup(config: Config, issued: map<string, Record>, s: Store, op: Op, now: int)
    requires AllGenuine(config, issued) && Quiet(issued, s) && (op.Read? || op.Consume?)
    ensures var cleaned := Cleanup(s, now);
      var found := Lookup(cleaned, op.raw, op.context);
      if found.Some? && cleaned.records[found.value].status == Available && Readable(cleaned.records[found.value])
      then found.value in issued && VisibleTo(issued[found.value], op.context)
           && Apply(config, s, op, now).1 ==
                Delivered(issued[found.value].reference, issued[found.value].reference.digest.of)
      else !Apply(config, s, op, now).1.Delivered?
  {
    hide AllGenuine, AttachmentId, Readable, Cleanup, Quiet, Content, Doomed, Lookup, VisibleTo;
    CleanupIsQuiet(issued, s, now);
    var cleaned := Cleanup(s, now);
    var found := Lookup(cleaned, op.raw, op.context);
    FoundIsVisible(cleaned, op.raw, op.context);
    if found.Some? && cleaned.records[found.value].status == Available {
      ContentOfAvailable(config, issued, cleaned, found.value);
    }
  }

  lemma FoundIsVisible(s: Store, raw: string, context: AccessContext)
    ensures var found := Lookup(s, raw, context); found.Some? ==> VisibleTo(s.records[found.value], context)
  {
    hide AttachmentId;
  }

  /**
   * A read or a consumption delivers exactly an attachment of the same subject, staged without a
   * conversation or in the same one, that is available, not yet due and readable by name; and then the
   * original.
   */
  lemma DeliveredExactly(config: Config, issued: map<string, Record>, s: Store, op: Op, now: int)
    requires AllGenuine(config, issued) && Quiet(issued, s) && (op.Read? || op.Consume?)
    ensures var id, answer := Strip(op.raw), Apply(config, s, op, now).1;
      && (answer.Delivered? <==>
            && id in s.records && s.records[id].owner == op.context.subject
            && (s.records[id].conversation == None || s.records[id].conversation == op.context.conversation)
            && s.records[id].status == Available && s.records[id].expiresAt > now
            && !EndsWith(s.records[id].reference.fileName, ".part"))
      && (answer.Delivered? ==>
            id in issued && answer == Delivered(issued[id].reference, issued[id].reference.digest.of))
  {
    DeliveredByLookup(config, issued, s, op, now);
    CleanupIsQuiet(issued, s, now);
    LookupByFields(config, issued, Cleanup(s, now), op.raw, op.context);
    hide AllGenuine, Quiet, Lookup, Apply, VisibleTo, Strip, EndsWith, Doomed;
  }

  lemma GeneratedIdIsItself(id: string)
    requires GeneratedId(id)
    ensures AttachmentId(id) == Some(id)
  {
    assert HexDigit(id[0]) && HexDigit(id[|id| - 1]);
    StripFixed(id);
    hide Strip;
  }

  lemma StagedIs(config: Config, s: Store, op: Op)
    requires op.Stage? && Perform(config, s, op).1.Staged? && Perform(config, s, op).1.result.Ok?
    ensures var r := NewRecord(config, op.upload, op.context, op.id, op.createdAt);
      && Perform(config, s, op) == (Store(s.records[op.id := r], s.disk[op.id := Complete(r)]), Staged(Ok(r.reference)))
      && VisibleTo(r, op.context) && r.status == Available && r.expiresAt == op.createdAt + config.retention
  {
    StageCases(config, s, op);
    hide Perform, Complete, Flatten, MediaType, BaseName;
  }

  lemma PerformRead(config: Config, s: Store, id: string, context: AccessContext)
    requires AttachmentId(id) == Some(id) && id in s.records && s.records[id].status == Available
      && VisibleTo(s.records[id], context)
    ensures Perform(config, s, Read(id, context)).1 ==
      if Content(s, id).Some? then Delivered(s.records[id].reference, Content(s, id).value)
      else Unavailable(Missing, Some(s.records[id].reference))
  {
    hide AttachmentId, VisibleTo, Content;
  }

  lemma ReadAvailable(config: Config, issued: map<string, Record>, s: Store, id: string, context: AccessContext,
      now: int)
    requires AllGenuine(config, issued) && Quiet(issued, s) && id in s.records && GeneratedId(id)
    requires s.records[id].status == Available && s.records[id].expiresAt > now && VisibleTo(s.records[id], context)
    ensures Apply(config, s, Read(id, context), now).1 ==
      if Readable(s.records[id]) then Delivered(s.records[id].reference, s.records[id].reference.digest.of)
      else Unavailable(Missing, Some(s.records[id].reference))
  {
    hide AllGenuine, Quiet, GeneratedId, AttachmentId, Readable, Content, Doomed, VisibleTo, Perform;
    GeneratedIdIsItself(id);
    CleanupIsQuiet(issued, s, now);
    var cleaned := Cleanup(s, now);
    assert id in cleaned.records && cleaned.records[id] == s.records[id];
    hide Cleanup;
    PerformRead(config, cleaned, id, context);
    ContentOfAvailable(config, issued, cleaned, id);
  }

  /** Staging then reading gives back the upload, unless its name ends like a partial file's. */
  lemma StageThenRead(config: Config, issued: map<string, Record>, s: Store, op: Op, now: int, later: int)
    requires AllGenuine(config, issued) && Quiet(issued, s) && op.Stage? && FreshId(issued, op)
    requires Apply(config, s, op, now).1.Staged? && Apply(config, s, op, now).1.result.Ok?
    requires later < op.createdAt + config.retention
    ensures var reference := Apply(config, s, op, now).1.result.value;
      Apply(config, Apply(config, s, op, now).0, Read(op.id, op.context), later).1 ==
        if EndsWith(BaseName(op.upload.fileName), ".part") then Unavailable(Missing, Some(reference))
        else Delivered(reference, Flatten(op.upload.chunks))
  {
    assert GeneratedId(op.id);
    hide AllGenuine, Quiet, FreshId, GeneratedId, BaseName, Flatten, MediaType, EndsWith, Perform, Complete;
    hide Cleanup, VisibleTo;
    var r := NewRecord(config, op.upload, op.context, op.id, op.createdAt);
    var staged := Apply(config, s, op, now).0;
    IssueIsGenuine(config, issued, op);
    ApplyIsQuiet(config, issued, s, op, now);
    StagedIs(config, Cleanup(s, now), op);
    assert staged.records[op.id] == r;
    ReadAvailable(config, Issue(config, issued, op), staged, op.id, op.context, later);
  }

  lemma PlainName(name: string)
    requires '/' !in name && name != "" && name[0] != '.'
    ensures BaseName(name) == name && !Dotted(name)
  {
    LastSegmentWhole(name);
  }

  lemma PartName(name: string)
    requires name == "a.part"
    ensures BaseName(name) == name && EndsWith(name, ".part") && !Blank(name) && !Dotted(name)
  {
    assert !IsSpace(name[0]);
    hide BaseName, Dotted;
    PlainName(name);
    assert name[1..] == ".part";
  }

  lemma PlainMediaType(mediaType: string)
    requires mediaType == "csv"
    ensures Lower(Strip(mediaType)) == mediaType
  {
    assert mediaType[0] == 'c' && mediaType[2] == 'v';
    StripFixed(mediaType);
  }

  lemma PartNameScreened(config: Config, up: Upload)
    requires config == Config(10, 60, {"csv"}) && up.fileName == "a.part" && up.mediaType == "csv"
    ensures Screen(config, up).None? && EndsWith(BaseName(up.fileName), ".part") && !Blank(BaseName(up.fileName))
  {
    hide BaseName, EndsWith, Dotted, Lower, Strip, Blank;
    PartName(up.fileName);
    PlainMediaType(up.mediaType);
  }

  lemma OneByte(config: Config, up: Upload)
    requires config.maxSize == 10 && up.chunks == [[1]] && !up.streamBreaks && !up.renameFails
    ensures CopyError(config, up).None?
  {
    OneByteFlat(up.chunks);
  }

  /** Such a name is accepted all the same. */
  lemma PartNameIsAccepted(context: AccessContext, id: string, now: int)
    requires GeneratedId(id)
    ensures var op := Stage(Upload("a.part", "csv", [[1]], false, false, false), context, id, now);
      && EndsWith(BaseName(op.upload.fileName), ".part")
      && exists reference :: Perform(Config(10, 60, {"csv"}), Store(map[], map[]), op).1 == Staged(Ok(reference))
  {
    var up := Upload("a.part", "csv", [[1]], false, false, false);
    var config := Config(10, 60, {"csv"});
    PartNameScreened(config, up);
    OneByte(config, up);
    hide Screen, CopyError, BaseName, EndsWith, Blank, NewRecord, GeneratedId;
    var r := NewRecord(config, up, context, id, now);
    assert Perform(config, Store(map[], map[]), Stage(up, context, id, now)).1 == Staged(Ok(r.reference));
  }

  lemma BlankName(name: string)
    requires |name| == 1 && name[0] == ' '
    ensures BaseName(name) == name && Blank(name) && !Dotted(name)
  {
    hide BaseName;
    PlainName(name);
  }

  /** A file name of one blank: the staging fails, and the payload stays on disk without a manifest. */
  lemma BlankNameLeavesPayload(context: AccessContext, id: string, now: int)
    ensures var config := Config(10, 60, {"csv"});
      var op := Stage(Upload([' '], "csv", [[1]], false, false, false), context, id, now);
      && LeavesPayload(config, Store(map[], map[]), op)
      && Perform(config, Store(map[], map[]), op) ==
           (Store(map[], map[id := map[[' '] := Data([1])]]), Staged(Err(StageError.BlankName)))
  {
    var up := Upload([' '], "csv", [[1]], false, false, false);
    var config := Config(10, 60, {"csv"});
    hide BaseName, Blank, Dotted, Flatten, MediaType, CopyError, Screen, GeneratedId;
    BlankName(up.fileName);
    BlankNameScreened(config, up);
    OneByte(config, up);
    OneByteFlat(up.chunks);
    var r := NewRecord(config, up, context, id, now);
    assert r.reference.fileName == [' '] && r.reference.digest.of == [1];
    hide NewRecord, RecordError;
    LeftPayload(config, Store(map[], map[]), Stage(up, context, id, now));
  }

  lemma LeftPayload(config: Config, s: Store, op: Op)
    requires op.Stage? && LeavesPayload(config, s, op)
    ensures var r := NewRecord(config, op.upload, op.context, op.id, op.createdAt);
      Perform(config, s, op) == (s.(disk := s.disk[op.id := PayloadAlone(r)]), Staged(Err(StageError.BlankName)))
  {
    hide Screen, CopyError, BaseName, Blank, NewRecord, PayloadAlone;
  }

  lemma BlankNameScreened(config: Config, up: Upload)
    requires config.mediaTypes == {"csv"} && BaseName(up.fileName) != "" && !Dotted(BaseName(up.fileName))
      && up.mediaType == "csv"
    ensures Screen(config, up).None?
  {
    hide BaseName, Dotted, Lower, Strip;
    PlainMediaType(up.mediaType);
  }

  lemma OneByteFlat(chunks: seq<Chunk>)
    requires chunks == [[1]]
    ensures Flatten(chunks) == [1]
  {
    assert chunks[..0] == [];
    assert Flatten(chunks) == [] + [1];
  }

  /** A dead attachment is not delivered. */
  lemma DeadIsSilent(config: Config, issued: map<string, Record>, s: Store, op: Op, now: int, id: string)
    requires AllGenuine(config, issued) && Quiet(issued, s) && Dead(Up(s), id)
    ensures match Apply(config, s, op, now).1 case Delivered(reference, _) => reference.id != id case _ => true
  {
    if op.Read? || op.Consume? {
      DeliveredByLookup(config, issued, s, op, now);
      var found := Lookup(Cleanup(s, now), op.raw, op.context);
      hide AllGenuine, Genuine, AttachmentId, Readable, Quiet, Apply, VisibleTo, Lookup;
      if found.Some? && found.value in issued { IssuedHasId(config, issued, found.value); }
    }
  }

  lemma IssuedHasId(config: Config, issued: map<string, Record>, id: string)
    requires AllGenuine(config, issued) && id in issued
    ensures issued[id].reference.id == id
  {
    IssuedIsGenuine(config, issued, id);
    hide GeneratedId, SafeFileName, Blank, Stripped;
  }

  ghost predicate EndsLooked(outcome: Outcome, s: Store, op: Op, id: string) {
    match outcome
    case Delivered(reference, _) => op.Consume? && reference.id == id
    case Unavailable(_, known) => known.Some? && known.value.id == id
    case Discarded(found) => found && op.Discard? && Lookup(s, op.raw, op.context) == Some(id)
    case _ => false
  }

  /** The steps after which an attachment is over: consumed, found ended, discarded or due. */
  ghost predicate Ends(config: Config, s: Store, op: Op, now: int, id: string) {
    || (id in Due(s.records, now) && !(op.Stage? && op.id == id))
    || EndsLooked(Apply(config, s, op, now).1, Cleanup(s, now), op, id)
  }

  lemma QuietIds(config: Config, issued: map<string, Record>, s: Store, id: string)
    requires AllGenuine(config, issued) && Quiet(issued, s) && id in s.records
    ensures id in issued && s.records[id].reference.id == id
    ensures s.records[id].status == Available || Dead(Up(s), id)
  {
    hide AllGenuine, Complete;
    assert QuietRecord(issued, s, id);
    IssuedHasId(config, issued, id);
  }

  lemma DueIsDead(config: Config, issued: map<string, Record>, s: Store, op: Op, now: int, id: string)
    requires AllGenuine(config, issued) && Quiet(issued, s) && id in Due(s.records, now) && !(op.Stage? && op.id == id)
    ensures id in issued && Dead(Up(Apply(config, s, op, now).0), id)
  {
    hide AllGenuine, Perform;
    CleanupIsQuiet(issued, s, now);
    QuietIds(config, issued, s, id);
    QuietIds(config, issued, Cleanup(s, now), id);
    DeadAfterPerform(config, Cleanup(s, now), op, id);
  }

  lemma EndedIsDead(config: Config, issued: map<string, Record>, s: Store, op: Op, now: int, id: string)
    requires AllGenuine(config, issued) && Quiet(issued, s) && Ends(config, s, op, now, id)
    ensures id in issued && Dead(Up(Apply(config, s, op, now).0), id)
  {
    if id in Due(s.records, now) && !(op.Stage? && op.id == id) {
      DueIsDead(config, issued, s, op, now, id);
    } else {
      hide Quiet, AllGenuine, Cleanup, Doomed, Due, Perform, Dead;
      CleanupIsQuiet(issued, s, now);
      LookupEnds(config, issued, Cleanup(s, now), op, id);
    }
  }

  lemma LookupEnds(config: Config, issued: map<string, Record>, s: Store, op: Op, id: string)
    requires AllGenuine(config, issued) && Quiet(issued, s) && EndsLooked(Perform(config, s, op).1, s, op, id)
    ensures id in issued && Dead(Up(Perform(config, s, op).0), id)
  {
    hide AllGenuine, Quiet, Content, Lookup, Screen, CopyError, RecordError, NewRecord;
    if op.Stage? || op.Sweep? {
      hide Dead;
    } else {
      var found := Lookup(s, op.raw, op.context);
      assert found.Some?;
      QuietIds(config, issued, s, found.value);
      assert op.Discard? || s.records[found.value].reference.id == id;
      assert found.value == id;
    }
  }

  lemma EndingStep(config: Config, steps: seq<Step>, i: nat, id: string)
    requires i < |steps| && Run(config, steps[..i + 1]) && steps[i].Do?
    requires Run(config, steps[..i]) && Possible(config, State(config, steps[..i]), steps[i])
    requires Ends(config, State(config, steps[..i]).store, steps[i].op, steps[i].now, id)
    ensures id in Issued(config, steps[..i + 1]) && Dead(State(config, steps[..i + 1]), id)
  {
    var next := steps[..i + 1];
    assert next[..|next| - 1] == steps[..i] && next[|next| - 1] == steps[i];
    RunKeeps(config, steps[..i]);
    hide AllGenuine, Quiet, Ends, Dead, Apply, Run;
    EndedIsDead(config, Issued(config, steps[..i]), State(config, steps[..i]).store, steps[i].op, steps[i].now, id);
    StillIssued(config, Issued(config, steps[..i]), steps[i], id);
  }

  lemma DeadNotDelivered(config: Config, steps: seq<Step>, k: nat, id: string)
    requires k < |steps| && Run(config, steps[..k]) && Dead(State(config, steps[..k]), id)
    ensures !Delivers(config, steps, k, id)
  {
    RunKeeps(config, steps[..k]);
    hide AllGenuine, Quiet, Apply, Run, State, Issued, Possible;
    if Delivers(config, steps, k, id) && steps[k].Do? && State(config, steps[..k]).Up? {
      DeadIsSilent(config, Issued(config, steps[..k]), State(config, steps[..k]).store, steps[k].op, steps[k].now, id);
    }
  }

  /** Once dead at some point of a run, an attachment is not delivered by any later step. */
  lemma NotDeliveredAgain(config: Config, steps: seq<Step>, i: nat, j: nat, id: string)
    requires Run(config, steps) && i <= j < |steps| && Run(config, steps[..i])
    requires id in Issued(config, steps[..i]) && Dead(State(config, steps[..i]), id)
    ensures !Delivers(config, steps, j, id)
  {
    hide Run, State, Dead, Possible, Delivers, Issued;
    RunPrefix(config, steps, j);
    assert steps[..j][..i] == steps[..i];
    DeadForever(config, steps[..j], i, id);
    DeadNotDelivered(config, steps, j, id);
  }

  /** What is over stays over: no later step delivers the attachment, across crashes and restarts. */
  lemma OverForGood(config: Config, steps: seq<Step>, i: nat, j: nat, id: string)
    requires Run(config, steps) && i < j < |steps|
    requires Run(config, steps[..i]) && Possible(config, State(config, steps[..i]), steps[i])
    requires steps[i].Do? && Ends(config, State(config, steps[..i]).store, steps[i].op, steps[i].now, id)
    ensures !Delivers(config, steps, j, id)
  {
    hide Run, State, Ends, Dead, Possible, Delivers, Issued;
    RunPrefix(config, steps, i + 1);
    EndingStep(config, steps, i, id);
    NotDeliveredAgain(config, steps, i + 1, j, id);
  }

  lemma DueAtStart(config: Config, steps: seq<Step>, i: nat, id: string)
    requires i < |steps| && Run(config, steps[..i + 1]) && steps[i].Start?
    requires id in Issued(config, steps[..i]) && Issued(config, steps[..i])[id].expiresAt <= steps[i].now
    ensures id in Issued(config, steps[..i + 1]) && Dead(State(config, steps[..i + 1]), id)
  {
    var next := steps[..i + 1];
    assert next[..|next| - 1] == steps[..i] && next[|next| - 1] == steps[i];
    RunKeeps(config, steps[..i]);
    RestartIsQuiet(config, Issued(config, steps[..i]), State(config, steps[..i]).disk, steps[i].now);
    hide AllGenuine, Quiet, SoundDisk, Restart, Run, Readable;
  }

  /** An attachment that expires while the process is down is over, whether or not it was ever read. */
  lemma ExpiredWhileDown(config: Config, steps: seq<Step>, i: nat, j: nat, id: string)
    requires Run(config, steps) && i < j < |steps| && steps[i].Start?
    requires id in Issued(config, steps[..i]) && Issued(config, steps[..i])[id].expiresAt <= steps[i].now
    ensures !Delivers(config, steps, j, id)
  {
    hide Run, State, Dead, Possible, Delivers, Issued;
    RunPrefix(config, steps, i + 1);
    DueAtStart(config, steps, i, id);
    NotDeliveredAgain(config, steps, i + 1, j, id);
  }

  lemma StillIssued(config: Config, issued: map<string, Record>, e: Step, id: string)
    requires id in issued
    ensures id in Issues(config, issued, e)
  {
    hide Goal;
  }

  /** Consumption delivers an attachment at most once, and nothing delivers it afterwards. */
  lemma ConsumedOnce(config: Config, steps: seq<Step>, i: nat, j: nat, id: string)
    requires Run(config, steps) && i < j < |steps|
    requires Delivers(config, steps, i, id) && steps[i].op.Consume?
    ensures !Delivers(config, steps, j, id)
  {
    hide Apply;
    OverForGood(config, steps, i, j, id);
  }

  ghost predicate StagedBy(config: Config, e: Step, id: string, r: Record) {
    (e.Do? || e.Crash?) && e.op.Stage? && e.op.id == id && Goal(config, e.op) == Some(r)
  }

  lemma {:induction false} IssuedByStaging(config: Config, steps: seq<Step>, id: string) returns (i: nat)
    requires id in Issued(config, steps)
    ensures i < |steps| && StagedBy(config, steps[i], id, Issued(config, steps)[id])
  {
    hide Goal;
    var before, e := steps[..|steps| - 1], steps[|steps| - 1];
    i := |steps| - 1;
    if !((e.Do? || e.Crash?) && e.op.Stage? && e.op.id == id && Goal(config, e.op).Some?) {
      i := IssuedByStaging(config, before, id);
    }
  }

  /**
   * Whatever is delivered was uploaded under that id earlier by the same subject, either without a
   * conversation or in the very conversation it is delivered in.
   */
  lemma DeliveredIsOriginal(config: Config, steps: seq<Step>, k: nat, id: string) returns (i: nat)
    requires Run(config, steps) && Delivers(config, steps, k, id)
    ensures i < k && (steps[i].Do? || steps[i].Crash?) && steps[i].op.Stage? && steps[i].op.id == id
    ensures Goal(config, steps[i].op).Some? && (steps[k].op.Read? || steps[k].op.Consume?)
    ensures var staged, up := steps[i].op.context, steps[i].op.upload;
      && staged.subject == steps[k].op.context.subject
      && (staged.conversation == None || staged.conversation == steps[k].op.context.conversation)
      && var content := Flatten(up.chunks);
         var reference := Reference(id, BaseName(up.fileName), Lower(Strip(up.mediaType)), |content|, Sha256(content));
         Observed(config, steps, k) == Some(Delivered(reference, content))
  {
    var s, op, now := State(config, steps[..k]).store, steps[k].op, steps[k].now;
    var issued := Issued(config, steps[..k]);
    RunKeeps(config, steps[..k]);
    hide Run, State, Issued, Quiet, AllGenuine, Possible;
    OnlyReadsDeliver(config, s, op, now);
    hide Apply, Cleanup, Lookup, Readable;
    DeliveredByLookup(config, issued, s, op, now);
    var found := Lookup(Cleanup(s, now), op.raw, op.context);
    IssuedHasId(config, issued, found.value);
    i := IssuedByStaging(config, steps[..k], id);
    assert steps[..k][i] == steps[i];
  }

  lemma OnlyReadsDeliver(config: Config, s: Store, op: Op, now: int)
    ensures Apply(config, s, op, now).1.Delivered? ==> op.Read? || op.Consume?
  {
    hide Lookup, Content, Screen, CopyError, RecordError, NewRecord, Cleanup, Doomed;
  }
}
