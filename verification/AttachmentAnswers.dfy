/**
 * What every call of the attachment store answers and what it does to the records and directories, told
 * by the fields of the records and of the caller's context.
 */
module AttachmentAnswers {
  import opened Outcomes
  import opened Text
  import opened AttachmentStorage
  import opened AttachmentRecovery
  import opened AttachmentRuns

  // ---------------------------------------------------------------- one call

  /**
   * Cleanup marks what is due as expired and removes its directory and every directory without record.
   * A sweep reports how many directories that were.
   */
  lemma CleanupEffect(config: Config, issued: map<string, Record>, s: Store, now: int)
    requires Quiet(issued, s)
    ensures var s' := Cleanup(s, now);
      && s'.records.Keys == s.records.Keys && s'.disk.Keys <= s.disk.Keys
      && (forall id | id in s.records ::
            s'.records[id] == if s.records[id].status == Available && s.records[id].expiresAt <= now
                              then s.records[id].(status := Expired) else s.records[id])
      && (forall id :: id in s'.disk <==>
            id in s.disk && id in s.records && s.records[id].status == Available && s.records[id].expiresAt > now)
      && (forall id | id in s'.disk :: s'.disk[id] == s.disk[id])
      && Apply(config, s, Sweep, now) == (s', Swept(|s.disk| - |s'.disk|))
  {
    hide Quiet, Cleanup, Doomed, Perform;
    EndedHasNoDirectory(issued, s);
    CleanedRecords(s, now);
    CleanedDisk(s, now);
    CountedSweep(config, s, now);
  }

  lemma CleanedRecords(s: Store, now: int)
    ensures var s' := Cleanup(s, now);
      && s'.records.Keys == s.records.Keys
      && (forall id | id in s.records ::
            s'.records[id] == if s.records[id].status == Available && s.records[id].expiresAt <= now
                              then s.records[id].(status := Expired) else s.records[id])
  {
    hide Doomed;
  }

  lemma CleanedDisk(s: Store, now: int)
    requires forall id | id in s.records && s.records[id].status != Available :: id !in s.disk
    ensures var s' := Cleanup(s, now);
      && s'.disk.Keys <= s.disk.Keys
      && (forall id :: id in s'.disk <==>
            id in s.disk && id in s.records && s.records[id].status == Available && s.records[id].expiresAt > now)
      && (forall id | id in s'.disk :: s'.disk[id] == s.disk[id])
  {
    hide Marked;
  }

  lemma CountedSweep(config: Config, s: Store, now: int)
    ensures Apply(config, s, Sweep, now) == (Cleanup(s, now), Swept(|s.disk| - |Cleanup(s, now).disk|))
  {
    hide Doomed, Marked;
    var s' := Cleanup(s, now);
    var removed := Doomed(s, now) * s.disk.Keys;
    assert s'.disk.Keys == s.disk.Keys - removed;
    DirectoriesGone(s.disk.Keys, removed, s'.disk.Keys);
  }

  lemma DirectoriesGone(before: set<string>, gone: set<string>, after: set<string>)
    requires gone <= before && after == before - gone
    ensures |gone| == |before| - |after|
  {
  }

  lemma EndedHasNoDirectory(issued: map<string, Record>, s: Store)
    requires Quiet(issued, s)
    ensures forall id | id in s.records && s.records[id].status != Available :: id !in s.disk
  {
    hide Complete;
    forall id | id in s.records && s.records[id].status != Available ensures id !in s.disk {
      assert QuietRecord(issued, s, id);
    }
  }

  /** The caller is the attachment's subject and, if it was staged in a conversation, in that one. */
  predicate Admits(r: Record, context: AccessContext) {
    r.owner == context.subject && (r.conversation == None || r.conversation == context.conversation)
  }

  /** What is answered about a record that a caller may see, and the status it has afterwards. */
  ghost function ToldOf(r: Record, consumes: bool, now: int): (Outcome, Status) {
    if r.status != Available then (Unavailable(r.status, Some(r.reference)), r.status)
    else if r.expiresAt <= now then (Unavailable(Expired, Some(r.reference)), Expired)
    else if EndsWith(r.reference.fileName, ".part") then (Unavailable(Missing, Some(r.reference)), Missing)
    else (Delivered(r.reference, r.reference.digest.of), if consumes then Consumed else Available)
  }

  /** A call on an attachment that the caller may not see is answered as if there were none, and does nothing. */
  lemma HiddenAnswer(config: Config, issued: map<string, Record>, s: Store, op: Op, now: int)
    requires AllGenuine(config, issued) && Quiet(issued, s) && (op.Read? || op.Consume? || op.Discard?)
    requires Strip(op.raw) in s.records ==> !Admits(s.records[Strip(op.raw)], op.context)
    ensures Apply(config, s, op, now) ==
      (Cleanup(s, now), if op.Discard? then Discarded(false) else Unavailable(Missing, None))
  {
    CleanupIsQuiet(issued, s, now);
    LookupByFields(config, issued, Cleanup(s, now), op.raw, op.context);
    hide AllGenuine, Quiet, Lookup, Strip, Doomed;
  }

  lemma VisibleAnswer(config: Config, issued: map<string, Record>, s: Store, op: Op, now: int)
    requires AllGenuine(config, issued) && Quiet(issued, s) && (op.Read? || op.Consume?)
    requires Strip(op.raw) in s.records && Admits(s.records[Strip(op.raw)], op.context)
    ensures var id, cleaned, s' := Strip(op.raw), Cleanup(s, now), Apply(config, s, op, now).0;
      var (answer, status) := ToldOf(s.records[id], op.Consume?, now);
      && Apply(config, s, op, now).1 == answer
      && s'.records == cleaned.records[id := s.records[id].(status := status)]
      && s'.disk == if status == Available then cleaned.disk else cleaned.disk - {id}
  {
    var id, cleaned := Strip(op.raw), Cleanup(s, now);
    hide AllGenuine, Quiet, Lookup, Strip, EndsWith, Cleanup, Doomed, Content, Perform;
    CleanupIsQuiet(issued, s, now);
    CleanupEffect(config, issued, s, now);
    LookupByFields(config, issued, cleaned, op.raw, op.context);
    PerformVisible(config, cleaned, op, id);
    if cleaned.records[id].status == Available { ContentOfAvailable(config, issued, cleaned, id); }
    AnsweredFrom(config, s, cleaned, op, now, id);
  }

  /** From the cleaned store, what is told of a visible record and what becomes of it. */
  lemma AnsweredFrom(config: Config, s: Store, cleaned: Store, op: Op, now: int, id: string)
    requires (op.Read? || op.Consume?) && Lookup(cleaned, op.raw, op.context) == Some(id)
    requires id in s.records && id in cleaned.records
    requires cleaned.records[id] == if s.records[id].status == Available && s.records[id].expiresAt <= now
                                    then s.records[id].(status := Expired) else s.records[id]
    requires cleaned.records[id].status != Available ==> id !in cleaned.disk
    requires cleaned.records[id].status == Available ==>
      Content(cleaned, id) == if EndsWith(s.records[id].reference.fileName, ".part") then None
                              else Some(s.records[id].reference.digest.of)
    ensures var s' := Perform(config, cleaned, op).0;
      var (answer, status) := ToldOf(s.records[id], op.Consume?, now);
      && Perform(config, cleaned, op).1 == answer
      && s'.records == cleaned.records[id := s.records[id].(status := status)]
      && s'.disk == if status == Available then cleaned.disk else cleaned.disk - {id}
  {
    hide Lookup, Content, EndsWith, Perform;
    PerformVisible(config, cleaned, op, id);
    assert cleaned.records[id := cleaned.records[id]] == cleaned.records;
    if id !in cleaned.disk { assert cleaned.disk - {id} == cleaned.disk; }
  }

  lemma PerformVisible(config: Config, s: Store, op: Op, id: string)
    requires (op.Read? || op.Consume?) && Lookup(s, op.raw, op.context) == Some(id)
    ensures id in s.records
    ensures var r, content := s.records[id], Content(s, id);
      Perform(config, s, op) ==
        if r.status != Available then (s, Unavailable(r.status, Some(r.reference)))
        else if content.None? then (Ended(s, id, Missing), Unavailable(Missing, Some(r.reference)))
        else (if op.Read? then s else Ended(s, id, Consumed), Delivered(r.reference, content.value))
  {
    hide Lookup, Content;
  }

  /** A discard by a caller who may see the attachment forgets it and its directory, in whatever state it is. */
  lemma DiscardAnswer(config: Config, issued: map<string, Record>, s: Store, op: Op, now: int)
    requires AllGenuine(config, issued) && Quiet(issued, s) && op.Discard?
    requires Strip(op.raw) in s.records && Admits(s.records[Strip(op.raw)], op.context)
    ensures var id, cleaned := Strip(op.raw), Cleanup(s, now);
      Apply(config, s, op, now) == (Store(cleaned.records - {id}, cleaned.disk - {id}), Discarded(true))
  {
    hide AllGenuine, Quiet, Lookup, Strip, Cleanup, Doomed, Perform;
    CleanupIsQuiet(issued, s, now);
    CleanedRecords(s, now);
    LookupByFields(config, issued, Cleanup(s, now), op.raw, op.context);
    PerformDiscard(config, Cleanup(s, now), op);
  }

  lemma PerformDiscard(config: Config, s: Store, op: Op)
    requires op.Discard? && Lookup(s, op.raw, op.context).Some?
    ensures var id := Lookup(s, op.raw, op.context).value;
      Perform(config, s, op) == (Store(s.records - {id}, s.disk - {id}), Discarded(true))
  {
    hide Lookup;
  }

  /**
   * What a staging answers, check by check, and what it leaves: the new record, until its retention is
   * over, with payload and manifest; after a blank name the payload alone; and else nothing.
   */
  lemma StagingAnswer(config: Config, s: Store, op: Op)
    requires op.Stage?
    ensures var up, name, content := op.upload, BaseName(op.upload.fileName), Flatten(op.upload.chunks);
      var mediaType := Lower(Strip(up.mediaType));
      var reference := Reference(op.id, name, mediaType, |content|, Sha256(content));
      var expiresAt := op.createdAt + config.retention;
      var r := Record(reference, op.context.subject, op.context.conversation, expiresAt, Available);
      Perform(config, s, op) ==
        if name == "" || name[0] == '.' then (s, Staged(Err(BadName)))
        else if mediaType !in config.mediaTypes then (s, Staged(Err(BadMediaType)))
        else if op.id in s.disk then (s, Staged(Err(IdTaken)))
        else if |content| > config.maxSize then (s, Staged(Err(TooLarge)))
        else if up.streamBreaks then (s, Staged(Err(StreamBroken)))
        else if |content| == 0 then (s, Staged(Err(EmptyFile)))
        else if up.renameFails then (s, Staged(Err(RenameFailed)))
        else if Strip(name) == "" then
          (Store(s.records, s.disk[op.id := map[name := Data(content)]]), Staged(Err(StageError.BlankName)))
        else if up.manifestFails then (s, Staged(Err(ManifestFailed)))
        else (Store(s.records[op.id := r], s.disk[op.id := map[name := Data(content), MANIFEST := Manifest(r)]]),
              Staged(Ok(reference)))
  {
    hide BaseName, Flatten, Strip, Blank, Lower, Lookup, Content;
    StripEmpty(BaseName(op.upload.fileName));
    var r := NewRecord(config, op.upload, op.context, op.id, op.createdAt);
    assert PayloadAlone(r) == map[BaseName(op.upload.fileName) := Data(Flatten(op.upload.chunks))];
    assert Complete(r) == map[BaseName(op.upload.fileName) := Data(Flatten(op.upload.chunks)), MANIFEST := Manifest(r)];
    hide PayloadAlone, Complete;
  }

  // ---------------------------------------------------------------- whole runs

  /** The ids being new each time, what has been staged under one stays what it was. */
  lemma {:induction false} StagedStays(config: Config, steps: seq<Step>, i: nat, id: string, r: Record)
    requires Run(config, steps) && i < |steps| && StagedBy(config, steps[i], id, r)
    ensures id in Issued(config, steps) && Issued(config, steps)[id] == r
  {
    hide Goal, Possible, State, GeneratedId, Next;
    var before, e := steps[..|steps| - 1], steps[|steps| - 1];
    if i < |before| { StagedStays(config, before, i, id, r); }
  }

  /**
   * In any run, whoever is another subject, or in another conversation than the one it was staged in,
   * is told that there is no such attachment; and his reading, consuming or discarding it does nothing
   * beyond the cleanup of what is due.
   */
  lemma OutOfScope(config: Config, steps: seq<Step>, i: nat, k: nat, r: Record)
    requires k < |steps| && Run(config, steps[..k]) && Possible(config, State(config, steps[..k]), steps[k])
    requires steps[k].Do? && (steps[k].op.Read? || steps[k].op.Consume? || steps[k].op.Discard?)
    requires i < k && StagedBy(config, steps[i], Strip(steps[k].op.raw), r)
    requires var staged, caller := steps[i].op.context, steps[k].op.context;
      || staged.subject != caller.subject
      || (staged.conversation.Some? && staged.conversation != caller.conversation)
    ensures Observed(config, steps, k) ==
      Some(if steps[k].op.Discard? then Discarded(false) else Unavailable(Missing, None))
    ensures var s, s' := State(config, steps[..k]).store, Next(config, State(config, steps[..k]), steps[k]);
      && s'.Up?
      && forall x | x in s.records && !(s.records[x].status == Available && s.records[x].expiresAt <= steps[k].now) ::
           && x in s'.store.records && s'.store.records[x] == s.records[x]
           && (x in s.disk ==> x in s'.store.disk && s'.store.disk[x] == s.disk[x])
  {
    var op, now, s := steps[k].op, steps[k].now, State(config, steps[..k]).store;
    var issued, id := Issued(config, steps[..k]), Strip(steps[k].op.raw);
    RunKeeps(config, steps[..k]);
    StagedStays(config, steps[..k], i, id, r);
    GoalContext(config, steps[i].op);
    hide Run, Issued, State, Quiet, AllGenuine, Goal, Strip, QuietRecord;
    if id in s.records { RecordContext(issued, s, id); }
    HiddenAnswer(config, issued, s, op, now);
    CleanupEffect(config, issued, s, now);
    EndedHasNoDirectory(issued, s);
    hide Cleanup, Apply;
  }

  lemma GoalContext(config: Config, op: Op)
    requires op.Stage? && Goal(config, op).Some?
    ensures Goal(config, op).value.owner == op.context.subject
    ensures Goal(config, op).value.conversation == op.context.conversation
  {
    hide Screen, CopyError, RecordError;
  }

  lemma RecordContext(issued: map<string, Record>, s: Store, id: string)
    requires Quiet(issued, s) && id in s.records
    ensures id in issued
    ensures s.records[id].owner == issued[id].owner && s.records[id].conversation == issued[id].conversation
  {
    assert QuietRecord(issued, s, id);
    hide Complete;
  }

  /**
   * Wherever a call is cut off, a restart offers again every available attachment with a readable name
   * that is not due, unless the call was consuming or discarding it for a caller it admits.
   */
  lemma CrashLosesNothingElse(config: Config, issued: map<string, Record>, s: Store, op: Op, now: int, d: Disk,
      restartedAt: int, id: string)
    requires AllGenuine(config, issued) && Quiet(issued, s) && FreshId(issued, op)
    requires Between(s.disk, Changes(config, s, op, now), d)
    requires id in s.records && s.records[id].status == Available
    requires !EndsWith(s.records[id].reference.fileName, ".part")
    requires s.records[id].expiresAt > now && s.records[id].expiresAt > restartedAt
    requires !((op.Consume? || op.Discard?) && Strip(op.raw) == id && Admits(s.records[id], op.context))
    ensures id in Restart(config, d, restartedAt).records
    ensures Restart(config, d, restartedAt).records[id] == s.records[id]
  {
    hide AllGenuine, Quiet, FreshId, Between, Restart, EndsWith, Strip, Changes, Admits;
    CrashConsistency(config, issued, s, op, now, d, restartedAt);
    NotRemoved(config, issued, s, op, now, id);
  }

  /** Such an attachment is not among the directories the call may remove. */
  lemma NotRemoved(config: Config, issued: map<string, Record>, s: Store, op: Op, now: int, id: string)
    requires AllGenuine(config, issued) && Quiet(issued, s)
    requires id in s.records && s.records[id].status == Available && s.records[id].expiresAt > now
    requires !EndsWith(s.records[id].reference.fileName, ".part")
    requires !((op.Consume? || op.Discard?) && Strip(op.raw) == id && Admits(s.records[id], op.context))
    ensures id !in Changes(config, s, op, now).removing
  {
    hide AllGenuine, Quiet, EndsWith, Strip, Lookup, Content, Goal, Adding;
    var cleaned := Cleanup(s, now);
    CleanupIsQuiet(issued, s, now);
    CleanedRecords(s, now);
    if op.Read? || op.Consume? || op.Discard? { LookupByFields(config, issued, cleaned, op.raw, op.context); }
    ContentOfAvailable(config, issued, cleaned, id);
    hide Cleanup;
  }

  // ---------------------------------------------------------------- restarts on any disk

  /** The one payload file of a directory, whatever else lies there. */
  ghost predicate OnePayloadFile(dir: Directory, f: string) {
    && f in dir && !EndsWith(f, ".part") && (f == "" || f[0] != '.')
    && forall g | g in dir && g != f :: EndsWith(g, ".part") || (g != "" && g[0] == '.')
  }

  /** A manifest that a restart believes: it is about this directory, unexpired, and well-formed. */
  ghost predicate Believable(config: Config, id: string, r: Record, now: int) {
    && r.reference.id == id && GeneratedId(id)
    && Strip(r.reference.fileName) != "" && '/' !in r.reference.fileName && r.reference.fileName[0] != '.'
    && r.reference.mediaType in config.mediaTypes
    && Strip(r.owner) != "" && (r.conversation.Some? ==> Strip(r.conversation.value) != "")
    && r.status == Available && r.expiresAt > now
  }

  /**
   * Whatever lies in the directory, a restart offers exactly the attachments with a believable manifest
   * whose one payload file has the recorded size and hash; it removes every other directory and touches
   * none of these.
   */
  lemma RestartOnAnyDisk(config: Config, disk: Disk, now: int, id: string)
    ensures var s := Restart(config, disk, now);
      && (id in s.records <==>
            && id in disk && MANIFEST in disk[id] && disk[id][MANIFEST].Manifest?
            && var r := disk[id][MANIFEST].record;
               && Believable(config, id, r, now)
               && exists f :: OnePayloadFile(disk[id], f) && disk[id][f].Data?
                              && |disk[id][f].bytes| == r.reference.sizeBytes
                              && Sha256(disk[id][f].bytes) == r.reference.digest)
      && (id in s.records ==>
            var r := disk[id][MANIFEST].record;
            s.records[id] == r.(owner := Strip(r.owner),
              conversation := if r.conversation == None then None else Some(Strip(r.conversation.value))))
      && (id in s.disk <==> id in s.records)
      && (id in s.disk ==> s.disk[id] == disk[id])
  {
    if id in disk && MANIFEST in disk[id] && disk[id][MANIFEST].Manifest? {
      var r := disk[id][MANIFEST].record;
      BelievedManifest(config, id, disk[id], now);
      VerifiedOne(r, disk[id]);
      if ReadManifest(config, id, disk[id]).Some? {
        SameVerified(ReadManifest(config, id, disk[id]).value, r, disk[id]);
      }
    }
    hide Verified, Believable, OnePayloadFile, GeneratedId, Blank, Strip, SafeFileName;
  }

  lemma SameVerified(r: Record, q: Record, dir: Directory)
    requires r.reference == q.reference
    ensures Verified(r, dir) == Verified(q, dir)
  {
  }

  lemma BelievedManifest(config: Config, id: string, dir: Directory, now: int)
    requires MANIFEST in dir && dir[MANIFEST].Manifest?
    ensures var r, read := dir[MANIFEST].record, ReadManifest(config, id, dir);
      && (Believable(config, id, r, now) <==>
            read.Some? && read.value.status == Available && read.value.expiresAt > now)
      && (read.Some? ==> read.value.reference == r.reference)
  {
    var r := dir[MANIFEST].record;
    StripEmpty(r.reference.fileName);
    StripEmpty(r.owner);
    if r.conversation.Some? { StripEmpty(r.conversation.value); }
    SafeNames(r.reference.fileName);
    assert Strip(r.reference.fileName) != "" ==> r.reference.fileName != "";
    hide Blank, Strip, GeneratedId, SafeFileName;
  }

  lemma VerifiedOne(r: Record, dir: Directory)
    ensures Verified(r, dir).Some? <==>
      exists f :: OnePayloadFile(dir, f) && dir[f].Data? && |dir[f].bytes| == r.reference.sizeBytes
                  && Sha256(dir[f].bytes) == r.reference.digest
  {
    hide EndsWith;
    forall f ensures OnePayloadFile(dir, f) <==> OnlyPayload(dir, f) {
      assert Dotted(f) <==> f != "" && f[0] == '.';
    }
    assert forall f, g | OnlyPayload(dir, f) && OnlyPayload(dir, g) :: f == g;
  }
}
