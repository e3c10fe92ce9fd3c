/** What is staged stays: until it is consumed, discarded or due, through crashes and restarts. */
module AttachmentDurability {
  import opened Outcomes
  import opened Text
  import opened AttachmentStorage
  import opened AttachmentRecovery
  import opened AttachmentRuns
  import opened AttachmentAnswers

  /** The attachment is offered, or lies complete on the disk of a stopped process. */
  ghost predicate Preserved(issued: map<string, Record>, m: Machine, id: string) {
    && id in issued
    && match m
       case Up(s) => id in s.records && s.records[id] == issued[id]
       case Down(disk) => id in disk && disk[id] == Complete(issued[id])
  }

  /** The step neither comes after the attachment's time nor consumes or discards it for a caller it admits. */
  predicate Spares(e: Step, id: string, r: Record) {
    match e
    case Do(op, now) => now < r.expiresAt && SparedBy(op, id, r)
    case Crash(op, now, _) => now < r.expiresAt && SparedBy(op, id, r)
    case Stop => true
    case Start(now) => now < r.expiresAt
    case CrashInStart(now, _) => now < r.expiresAt
  }

  predicate SparedBy(op: Op, id: string, r: Record) {
    !((op.Consume? || op.Discard?) && Strip(op.raw) == id && Admits(r, op.context))
  }

  ghost predicate Live(issued: map<string, Record>, s: Store, id: string) {
    id in issued && id in s.records && s.records[id] == issued[id]
  }

  lemma LiveAfterCall(config: Config, issued: map<string, Record>, s: Store, op: Op, now: int, id: string)
    requires AllGenuine(config, issued) && Quiet(issued, s) && FreshId(issued, op) && Live(issued, s, id)
    requires Readable(issued[id]) && now < issued[id].expiresAt && SparedBy(op, id, issued[id])
    ensures id in Apply(config, s, op, now).0.records && Apply(config, s, op, now).0.records[id] == issued[id]
  {
    hide AllGenuine, Quiet, Strip, EndsWith, Cleanup, Doomed, Perform, Apply, GeneratedId, Admits;
    IssuedIsGenuine(config, issued, id);
    CleanedRecords(s, now);
    if op.Stage? {
      StagingKeeps(config, s, op, now, id);
    } else if op.Sweep? {
      CountedSweep(config, s, now);
    } else {
      var other := Strip(op.raw);
      if other !in s.records || !Admits(s.records[other], op.context) {
        HiddenAnswer(config, issued, s, op, now);
      } else if op.Discard? {
        DiscardAnswer(config, issued, s, op, now);
      } else {
        VisibleAnswer(config, issued, s, op, now);
      }
    }
  }

  lemma StagingKeeps(config: Config, s: Store, op: Op, now: int, id: string)
    requires op.Stage? && op.id != id && id in s.records
    requires id in Cleanup(s, now).records && Cleanup(s, now).records[id] == s.records[id]
    ensures id in Apply(config, s, op, now).0.records && Apply(config, s, op, now).0.records[id] == s.records[id]
  {
    hide Cleanup, Doomed, Screen, CopyError, RecordError, NewRecord, Complete, PayloadAlone;
    StageCases(config, Cleanup(s, now), op);
  }

  lemma PreservedByCrash(config: Config, issued: map<string, Record>, s: Store, op: Op, now: int, left: Disk,
      id: string)
    requires AllGenuine(config, issued) && Quiet(issued, s) && FreshId(issued, op) && Live(issued, s, id)
    requires Readable(issued[id]) && now < issued[id].expiresAt && SparedBy(op, id, issued[id])
    requires Between(s.disk, Changes(config, s, op, now), left)
    ensures id in left && left[id] == Complete(issued[id])
  {
    hide AllGenuine, Quiet, Strip, EndsWith, Between, Complete, GeneratedId, Admits, Doomed, Target, Goal;
    IssuedIsGenuine(config, issued, id);
    NotRemoved(config, issued, s, op, now, id);
    Untouched(issued, s, Changes(config, s, op, now), left, id);
  }

  /** Neither a restart nor a restart that is cut off loses it. */
  lemma PreservedByRestart(config: Config, issued: map<string, Record>, disk: Disk, now: int, left: Disk, id: string)
    requires AllGenuine(config, issued) && SoundDisk(issued, disk)
    requires id in issued && id in disk && disk[id] == Complete(issued[id])
    requires Readable(issued[id]) && now < issued[id].expiresAt
    ensures Live(issued, Restart(config, disk, now), id)
    ensures Between(disk, Change(Unrestorable(config, disk, now), map[]), left) ==>
      id in left && left[id] == Complete(issued[id])
  {
    RestartIsQuiet(config, issued, disk, now);
    RestoredExactly(config, issued, id, disk[id], now);
    if Between(disk, Change(Unrestorable(config, disk, now), map[]), left) {
      assert Reached(disk, Change(Unrestorable(config, disk, now), map[]), id, left);
    }
    hide AllGenuine, Complete, EndsWith, Quiet, Between, Restored;
  }

  lemma PreservedStep(config: Config, issued: map<string, Record>, m: Machine, e: Step, id: string)
    requires AllGenuine(config, issued) && AttachmentRuns.Kept(issued, m) && Possible(config, m, e) && Fresh(issued, e)
    requires Preserved(issued, m, id) && Readable(issued[id]) && Spares(e, id, issued[id])
    ensures Preserved(Issues(config, issued, e), Next(config, m, e), id)
    ensures Issues(config, issued, e)[id] == issued[id]
  {
    hide AllGenuine, Quiet, SoundDisk, EndsWith, Between, Complete, GeneratedId, SparedBy, Apply, Restart;
    hide Changes, Goal;
    match e
    case Do(op, now) =>
      LiveAfterCall(config, issued, m.store, op, now, id);
    case Crash(op, now, left) =>
      PreservedByCrash(config, issued, m.store, op, now, left, id);
    case Stop =>
      OnDisk(config, issued, m.store, id);
    case Start(now) =>
      PreservedByRestart(config, issued, m.disk, now, m.disk, id);
    case CrashInStart(now, left) =>
      PreservedByRestart(config, issued, m.disk, now, left, id);
  }

  lemma OnDisk(config: Config, issued: map<string, Record>, s: Store, id: string)
    requires AllGenuine(config, issued) && Quiet(issued, s) && Live(issued, s, id)
    ensures id in s.disk && s.disk[id] == Complete(issued[id])
  {
    hide AllGenuine, Complete;
    IssuedIsGenuine(config, issued, id);
    assert QuietRecord(issued, s, id);
  }

  lemma {:induction false} PreservedRun(config: Config, steps: seq<Step>, i: nat, id: string)
    requires Run(config, steps) && i <= |steps| && Run(config, steps[..i])
    requires Preserved(Issued(config, steps[..i]), State(config, steps[..i]), id)
    requires Readable(Issued(config, steps[..i])[id])
    requires forall j | i <= j < |steps| :: Spares(steps[j], id, Issued(config, steps[..i])[id])
    ensures Preserved(Issued(config, steps), State(config, steps), id)
    ensures Issued(config, steps)[id] == Issued(config, steps[..i])[id]
    decreases |steps|
  {
    if i == |steps| {
      assert steps[..i] == steps;
    } else {
      var before, e := steps[..|steps| - 1], steps[|steps| - 1];
      assert before[..i] == steps[..i];
      forall j | i <= j < |before| ensures Spares(before[j], id, Issued(config, steps[..i])[id]) {
        assert before[j] == steps[j];
      }
      PreservedRun(config, before, i, id);
      RunKeeps(config, before);
      hide Spares, Preserved, AllGenuine, Possible, Readable;
      PreservedStep(config, Issued(config, before), State(config, before), e, id);
    }
  }

  /** The step staged the attachment, and its caller was told so. */
  ghost predicate StagedAt(config: Config, steps: seq<Step>, i: nat, r: Record) {
    && i < |steps| && Run(config, steps[..i]) && Possible(config, State(config, steps[..i]), steps[i])
    && steps[i].Do? && steps[i].op.Stage? && steps[i].op.id == r.reference.id
    && Observed(config, steps, i) == Some(Staged(Ok(r.reference)))
    && r.owner == steps[i].op.context.subject && r.conversation == steps[i].op.context.conversation
    && r.expiresAt == steps[i].op.createdAt + config.retention && r.status == Available
  }

  lemma PreservedOnceStaged(config: Config, steps: seq<Step>, i: nat, r: Record)
    requires StagedAt(config, steps, i, r) && Run(config, steps[..i + 1])
    ensures Preserved(Issued(config, steps[..i + 1]), State(config, steps[..i + 1]), r.reference.id)
    ensures Issued(config, steps[..i + 1])[r.reference.id] == r
  {
    var next, before, op := steps[..i + 1], steps[..i], steps[i].op;
    assert next[..|next| - 1] == before && next[|next| - 1] == steps[i];
    var s := Cleanup(State(config, before).store, steps[i].now);
    StagingAnswer(config, s, op);
    GoalOfStaged(config, s, op);
    hide Run, State, Issued, BaseName, Flatten, Lower, Strip, Cleanup, Doomed, Perform, Goal, Possible, Complete;
  }

  lemma GoalOfStaged(config: Config, s: Store, op: Op)
    requires op.Stage? && Perform(config, s, op).1.Staged? && Perform(config, s, op).1.result.Ok?
    ensures Goal(config, op).Some?
    ensures op.id in Perform(config, s, op).0.records
      && Perform(config, s, op).0.records[op.id] == Goal(config, op).value
    ensures var r := Goal(config, op).value;
      && Perform(config, s, op).1.result.value == r.reference && r.status == Available
      && r.owner == op.context.subject && r.conversation == op.context.conversation
      && r.expiresAt == op.createdAt + config.retention
  {
    hide Screen, CopyError, BaseName, Blank, Flatten, MediaType, Complete;
  }

  /**
   * Durability: between a successful staging and a read or consumption by a caller it admits, let there
   * be any calls of anybody, crashes anywhere in them, stops, restarts and crashes during restarts.  As
   * long as its time has not come and no caller it admits has consumed or discarded it, the attachment
   * is delivered, and is the upload; provided its name does not end like a partial file's.
   */
  lemma StagedIsDelivered(config: Config, steps: seq<Step>, i: nat, k: nat, r: Record)
    requires Run(config, steps) && i < k < |steps| && StagedAt(config, steps, i, r)
    requires !EndsWith(r.reference.fileName, ".part")
    requires forall j | i < j < k :: Spares(steps[j], r.reference.id, r)
    requires steps[k].Do? && (steps[k].op.Read? || steps[k].op.Consume?) && steps[k].now < r.expiresAt
    requires Strip(steps[k].op.raw) == r.reference.id && Admits(r, steps[k].op.context)
    ensures Run(config, steps[..k]) && Possible(config, State(config, steps[..k]), steps[k])
    ensures Observed(config, steps, k) == Some(Delivered(r.reference, Flatten(steps[i].op.upload.chunks)))
  {
    hide Run, State, Issued, Possible, Spares, Preserved, StagedAt, EndsWith, Strip, Quiet, AllGenuine, Flatten, Apply;
    RunPrefix(config, steps, k);
    RunPrefix(config, steps, k + 1);
    RunPrefix(config, steps, i + 1);
    NextPossible(config, steps, k);
    PreservedOnceStaged(config, steps, i, r);
    assert steps[..k][..i + 1] == steps[..i + 1];
    PreservedRun(config, steps[..k], i + 1, r.reference.id);
    RunKeeps(config, steps[..k]);
    StagedContent(config, steps, i, r);
    DeliveredAt(config, steps, k, r);
  }

  lemma NextPossible(config: Config, steps: seq<Step>, k: nat)
    requires k < |steps| && Run(config, steps[..k + 1]) && Run(config, steps[..k])
    ensures Possible(config, State(config, steps[..k]), steps[k])
  {
    var next := steps[..k + 1];
    assert next[..|next| - 1] == steps[..k] && next[|next| - 1] == steps[k];
    hide State, Issued, Possible;
  }

  lemma StagedContent(config: Config, steps: seq<Step>, i: nat, r: Record)
    requires StagedAt(config, steps, i, r)
    ensures r.reference.digest == Sha256(Flatten(steps[i].op.upload.chunks))
  {
    StagingAnswer(config, Cleanup(State(config, steps[..i]).store, steps[i].now), steps[i].op);
    hide Run, State, BaseName, Flatten, Lower, Strip, Cleanup, Doomed, Perform, Possible;
  }

  lemma DeliveredAt(config: Config, steps: seq<Step>, k: nat, r: Record)
    requires k < |steps| && Run(config, steps[..k]) && Possible(config, State(config, steps[..k]), steps[k])
    requires var issued := Issued(config, steps[..k]);
      && AllGenuine(config, issued) && AttachmentRuns.Kept(issued, State(config, steps[..k]))
      && Preserved(issued, State(config, steps[..k]), r.reference.id) && issued[r.reference.id] == r
    requires steps[k].Do? && (steps[k].op.Read? || steps[k].op.Consume?) && steps[k].now < r.expiresAt
    requires Strip(steps[k].op.raw) == r.reference.id && Admits(r, steps[k].op.context)
    requires !EndsWith(r.reference.fileName, ".part")
    ensures Observed(config, steps, k) == Some(Delivered(r.reference, r.reference.digest.of))
  {
    hide Run, State, Issued, EndsWith, Strip, Quiet, AllGenuine, Apply;
    IssuedIsGenuine(config, Issued(config, steps[..k]), r.reference.id);
    DeliveredExactly(config, Issued(config, steps[..k]), State(config, steps[..k]).store, steps[k].op, steps[k].now);
    hide Genuine;
  }
}
