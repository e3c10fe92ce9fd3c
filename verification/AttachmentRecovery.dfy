/** What a crash between any two disk effects can leave behind, and what a restart makes of it. */
module AttachmentRecovery {
  import opened Outcomes
  import opened Text
  import opened AttachmentStorage

  // ---------------------------------------------------------------- the disk during an operation

  /**
   * What an operation may do to the directories: empty and remove some, and assemble one.  An
   * assembled directory ends up complete only if its record is given.
   */
  datatype Change = Change(removing: set<string>, adding: map<string, Option<Record>>)

  ghost predicate Within(part: Directory, whole: Directory) {
    forall f | f in part :: f in whole && part[f] == whole[f]
  }

  ghost predicate Assembling(goal: Option<Record>, dir: Directory) {
    MANIFEST !in dir || (goal.Some? && dir == Complete(goal.value))
  }

  ghost predicate Reached(base: Disk, c: Change, id: string, d: Disk) {
    && (id in d ==>
          || (id in base && Within(d[id], base[id]))
          || (id in c.adding && Assembling(c.adding[id], d[id])))
    && (id in base && id !in c.removing && id !in c.adding ==> id in d && d[id] == base[id])
  }

  /** d is a state the disk can be in while an operation with change c works on base. */
  ghost predicate Between(base: Disk, c: Change, d: Disk) {
    forall id :: Reached(base, c, id, d)
  }

  /** The directory an operation removes on a cleaned store: a damaged one, the consumed or the discarded one. */
  ghost function Target(s: Store, op: Op): set<string>
  {
    match op
    case Stage(_, _, _, _) => {}
    case Read(raw, context) =>
      (match Lookup(s, raw, context)
       case None => {}
       case Some(id) => if s.records[id].status == Available && Content(s, id).None? then {id} else {})
    case Consume(raw, context) =>
      (match Lookup(s, raw, context)
       case None => {}
       case Some(id) => if s.records[id].status == Available then {id} else {})
    case Discard(raw, context) =>
      (match Lookup(s, raw, context)
       case None => {}
       case Some(id) => {id})
    case Sweep => {}
  }

  /** The record a staging will publish, unless something goes wrong. */
  function Goal(config: Config, op: Op): Option<Record>
    requires op.Stage?
  {
    var up := op.upload;
    if Screen(config, up).Some? || CopyError(config, up).Some? || RecordError(up).Some? then None
    else Some(NewRecord(config, up, op.context, op.id, op.createdAt))
  }

  function Adding(config: Config, s: Store, op: Op): map<string, Option<Record>> {
    if op.Stage? && Screen(config, op.upload).None? && op.id !in s.disk then map[op.id := Goal(config, op)] else map[]
  }

  ghost function Changes(config: Config, s: Store, op: Op, now: int): Change {
    var cleaned := Cleanup(s, now);
    Change(Doomed(s, now) + Target(cleaned, op), Adding(config, cleaned, op))
  }

  // ---------------------------------------------------------------- invariants

  /** A record as staging publishes it. */
  ghost predicate Genuine(config: Config, id: string, r: Record) {
    && r.reference.id == id && GeneratedId(id)
    && SafeFileName(r.reference.fileName) && !Blank(r.reference.fileName)
    && r.reference.mediaType in config.mediaTypes
    && Stripped(r.owner) && (r.conversation.Some? ==> Stripped(r.conversation.value))
    && 0 < |r.reference.digest.of| == r.reference.sizeBytes <= config.maxSize
    && r.status == Available
  }

  /** `issued` holds every record staging has tried to publish. */
  ghost predicate AllGenuine(config: Config, issued: map<string, Record>) {
    forall id | id in issued :: Genuine(config, id, issued[id])
  }

  ghost predicate SoundDirectory(issued: map<string, Record>, id: string, dir: Directory) {
    MANIFEST in dir ==> id in issued && Within(dir, Complete(issued[id]))
  }

  /** Any disk a crash can leave. */
  ghost predicate SoundDisk(issued: map<string, Record>, disk: Disk) {
    forall id | id in disk :: SoundDirectory(issued, id, disk[id])
  }

  ghost predicate QuietRecord(issued: map<string, Record>, s: Store, id: string)
    requires id in s.records
  {
    && id in issued && s.records[id].(status := Available) == issued[id]
    && (if s.records[id].status == Available then id in s.disk && s.disk[id] == Complete(issued[id]) else id !in s.disk)
  }

  /** The state between two operations. */
  ghost predicate Quiet(issued: map<string, Record>, s: Store) {
    && (forall id | id in s.records :: QuietRecord(issued, s, id))
    && (forall id | id in s.disk && id !in s.records :: MANIFEST !in s.disk[id])
  }

  ghost predicate Readable(r: Record) {
    !EndsWith(r.reference.fileName, ".part")
  }

  // ---------------------------------------------------------------- reading one directory back

  lemma GenuineFacts(config: Config, id: string, r: Record)
    requires Genuine(config, id, r)
    ensures r.reference.fileName != MANIFEST && |r.reference.digest.of| == r.reference.sizeBytes
    ensures !Payload(MANIFEST) && (Payload(r.reference.fileName) <==> Readable(r))
  {
    hide EndsWith, GeneratedId, Blank, Stripped, BaseName;
    assert Dotted(MANIFEST);
  }

  lemma StrippedNotBlank(s: string)
    requires Stripped(s)
    ensures !Blank(s)
  {
    StripEmpty(s);
  }

  /** The manifest gives back the very record it was written for. */
  lemma ManifestRoundTrip(config: Config, id: string, r: Record, dir: Directory)
    requires Genuine(config, id, r) && MANIFEST in dir && dir[MANIFEST] == Manifest(r)
    ensures ReadManifest(config, id, dir) == Some(r)
  {
    StrippedNotBlank(r.owner);
    if r.conversation.Some? { StrippedNotBlank(r.conversation.value); }
    hide Strip, Blank, SafeFileName, GeneratedId;
    assert r.conversation.Some? ==> Some(Strip(r.conversation.value)) == r.conversation;
  }

  lemma VerifiedPart(r: Record, dir: Directory)
    requires |r.reference.digest.of| == r.reference.sizeBytes
    requires !Payload(MANIFEST) && (Payload(r.reference.fileName) <==> Readable(r))
    requires Within(dir, Complete(r))
    ensures Verified(r, dir) ==
      if r.reference.fileName in dir && Readable(r) then Some(r.reference.digest.of) else None
  {
    hide Payload, Readable;
    var name := r.reference.fileName;
    forall f | f in dir && Payload(f) ensures f == name { assert f in Complete(r); }
    assert name in dir && Readable(r) <==> OnlyPayload(dir, name);
    assert forall f | OnlyPayload(dir, f) :: f == name;
    assert name in dir && Readable(r) ==> dir[name] == Data(r.reference.digest.of);
  }

  lemma IssuedIsGenuine(config: Config, issued: map<string, Record>, id: string)
    requires AllGenuine(config, issued) && id in issued
    ensures Genuine(config, id, issued[id]) && issued[id].status == Available
  {
    hide GeneratedId, Blank, Stripped, SafeFileName;
  }

  /** A directory is restored exactly when it is whole, unexpired and has a readable name. */
  lemma RestoredExactly(config: Config, issued: map<string, Record>, id: string, dir: Directory, now: int)
    requires AllGenuine(config, issued) && SoundDirectory(issued, id, dir)
    ensures Restored(config, id, dir, now).Some? <==>
      id in issued && dir == Complete(issued[id]) && issued[id].expiresAt > now && Readable(issued[id])
    ensures Restored(config, id, dir, now).Some? ==> Restored(config, id, dir, now).value == issued[id]
  {
    hide AllGenuine, Genuine, Payload, Readable, Verified, ReadManifest;
    if MANIFEST in dir {
      var r := issued[id];
      IssuedIsGenuine(config, issued, id);
      GenuineFacts(config, id, r);
      assert dir[MANIFEST] == Manifest(r) by { assert MANIFEST in Complete(r); }
      ManifestRoundTrip(config, id, r, dir);
      VerifiedPart(r, dir);
      WholeDirectory(r, dir);
    } else {
      NoManifest(config, id, dir);
      assert id in issued ==> MANIFEST in Complete(issued[id]);
    }
  }

  lemma NoManifest(config: Config, id: string, dir: Directory)
    requires MANIFEST !in dir
    ensures ReadManifest(config, id, dir).None?
  {
  }

  lemma WholeDirectory(r: Record, dir: Directory)
    requires Within(dir, Complete(r)) && r.reference.fileName != MANIFEST
    ensures dir == Complete(r) <==> MANIFEST in dir && r.reference.fileName in dir
  {
    if MANIFEST in dir && r.reference.fileName in dir {
      assert dir.Keys == Complete(r).Keys;
    }
  }

  // ---------------------------------------------------------------- restart

  /** Whatever a crash left, the restarted store is quiet, and holds complete originals only. */
  lemma RestartIsQuiet(config: Config, issued: map<string, Record>, disk: Disk, now: int)
    requires AllGenuine(config, issued) && SoundDisk(issued, disk)
    ensures var s := Restart(config, disk, now);
      && Quiet(issued, s)
      && (forall id :: id in s.records <==>
            id in disk && id in issued && disk[id] == Complete(issued[id]) && issued[id].expiresAt > now
              && Readable(issued[id]))
      && (forall id | id in s.records :: s.records[id] == issued[id] && id in s.disk && s.disk[id] == disk[id])
      && s.disk.Keys == s.records.Keys
  {
    hide AllGenuine, Genuine, Restored, Complete, Readable, SoundDirectory;
    forall id | id in disk
      ensures Restored(config, id, disk[id], now).Some? <==>
                id in issued && disk[id] == Complete(issued[id]) && issued[id].expiresAt > now && Readable(issued[id])
      ensures Restored(config, id, disk[id], now).Some? ==> Restored(config, id, disk[id], now).value == issued[id]
    {
      RestoredExactly(config, issued, id, disk[id], now);
    }
    forall id | id in issued ensures issued[id].status == Available { IssuedIsGenuine(config, issued, id); }
  }

  /** A clean restart keeps exactly the available, unexpired attachments with a readable name. */
  lemma RestartExact(config: Config, issued: map<string, Record>, s: Store, now: int)
    requires AllGenuine(config, issued) && Quiet(issued, s)
    ensures var s' := Restart(config, s.disk, now);
      && (forall id :: id in s'.records <==>
            id in s.records && s.records[id].status == Available && s.records[id].expiresAt > now
              && Readable(s.records[id]))
      && (forall id | id in s'.records :: s'.records[id] == s.records[id] && s'.disk[id] == s.disk[id])
      && s'.disk.Keys == s'.records.Keys
  {
    QuietIsSound(issued, s);
    RestartIsQuiet(config, issued, s.disk, now);
    hide AllGenuine, Restart, EndsWith;
    forall id | id in issued ensures MANIFEST in Complete(issued[id]) {}
    hide Complete;
  }

  // ---------------------------------------------------------------- one operation

  /** Staging gets an id nobody has had. */
  ghost predicate FreshId(issued: map<string, Record>, op: Op) {
    op.Stage? ==> GeneratedId(op.id) && op.id !in issued
  }

  function Issue(config: Config, issued: map<string, Record>, op: Op): map<string, Record> {
    if op.Stage? && Goal(config, op).Some? then issued[op.id := Goal(config, op).value] else issued
  }

  lemma GoalIsGenuine(config: Config, op: Op)
    requires op.Stage? && GeneratedId(op.id) && Goal(config, op).Some?
    ensures Genuine(config, op.id, Goal(config, op).value)
  {
    BaseNameIsSafe(op.upload.fileName);
    hide BaseName, Strip, Lower, Blank, Flatten, GeneratedId;
  }

  lemma IssueIsGenuine(config: Config, issued: map<string, Record>, op: Op)
    requires AllGenuine(config, issued) && FreshId(issued, op)
    ensures AllGenuine(config, Issue(config, issued, op))
  {
    hide Goal, Genuine, GeneratedId;
    if op.Stage? && Goal(config, op).Some? { GoalIsGenuine(config, op); }
  }

  lemma QuietIsSound(issued: map<string, Record>, s: Store)
    requires Quiet(issued, s)
    ensures SoundDisk(issued, s.disk)
  {
    hide Complete;
  }

  lemma CleanupIsQuiet(issued: map<string, Record>, s: Store, now: int)
    requires Quiet(issued, s)
    ensures Quiet(issued, Cleanup(s, now))
  {
    hide Complete;
  }

  lemma EndedIsQuiet(issued: map<string, Record>, s: Store, id: string, status: Status)
    requires Quiet(issued, s) && id in s.records && status != Available
    ensures Quiet(issued, Ended(s, id, status))
  {
    hide Complete;
  }

  lemma PerformIsQuiet(config: Config, issued: map<string, Record>, s: Store, op: Op)
    requires Quiet(issued, s) && FreshId(issued, op)
    ensures Quiet(Issue(config, issued, op), Perform(config, s, op).0)
  {
    match op
    case Stage(up, context, id, createdAt) =>
      StageIsQuiet(config, issued, s, op);
    case Read(raw, context) =>
      var found := Lookup(s, raw, context);
      if found.Some? { EndedIsQuiet(issued, s, found.value, Missing); }
    case Consume(raw, context) =>
      var found := Lookup(s, raw, context);
      if found.Some? {
        EndedIsQuiet(issued, s, found.value, Missing);
        EndedIsQuiet(issued, s, found.value, Consumed);
      }
    case Discard(raw, context) =>
      hide Complete, Lookup;
    case Sweep =>
  }

  lemma QuietGrows(issued: map<string, Record>, s: Store, id: string, r: Record)
    requires Quiet(issued, s) && id !in issued
    ensures Quiet(issued[id := r], s)
  {
    hide Complete;
    forall x | x in s.records ensures QuietRecord(issued[id := r], s, x) { assert QuietRecord(issued, s, x); }
  }

  lemma QuietPublishes(issued: map<string, Record>, s: Store, id: string, r: Record)
    requires Quiet(issued, s) && id !in issued && r.status == Available
    ensures Quiet(issued[id := r], Store(s.records[id := r], s.disk[id := Complete(r)]))
  {
    hide Complete;
    var s' := Store(s.records[id := r], s.disk[id := Complete(r)]);
    forall x | x in s.records ensures QuietRecord(issued[id := r], s', x) { assert QuietRecord(issued, s, x); }
  }

  lemma QuietLeaks(issued: map<string, Record>, s: Store, id: string, dir: Directory)
    requires Quiet(issued, s) && id !in issued && MANIFEST !in dir
    ensures Quiet(issued, s.(disk := s.disk[id := dir]))
  {
    hide Complete;
    var s' := s.(disk := s.disk[id := dir]);
    forall x | x in s.records ensures QuietRecord(issued, s', x) { assert QuietRecord(issued, s, x); }
  }

  lemma ScreenedName(config: Config, up: Upload)
    requires Screen(config, up).None?
    ensures !Dotted(BaseName(up.fileName)) && BaseName(up.fileName) != MANIFEST
  {
    hide BaseName;
    assert Dotted(MANIFEST);
  }

  lemma StageIsQuiet(config: Config, issued: map<string, Record>, s: Store, op: Op)
    requires op.Stage? && Quiet(issued, s) && op.id !in issued
    ensures Quiet(Issue(config, issued, op), Perform(config, s, op).0)
  {
    hide Quiet, Complete, BaseName, Strip, Lower, Blank, Flatten, GeneratedId, Screen, CopyError, RecordError, Dotted;
    if Screen(config, op.upload).None? {
      var r := NewRecord(config, op.upload, op.context, op.id, op.createdAt);
      ScreenedName(config, op.upload);
      QuietGrows(issued, s, op.id, r);
      QuietPublishes(issued, s, op.id, r);
      QuietLeaks(issued, s, op.id, PayloadAlone(r));
    }
  }

  lemma ApplyIsQuiet(config: Config, issued: map<string, Record>, s: Store, op: Op, now: int)
    requires Quiet(issued, s) && FreshId(issued, op)
    ensures Quiet(Issue(config, issued, op), Apply(config, s, op, now).0)
  {
    CleanupIsQuiet(issued, s, now);
    PerformIsQuiet(config, issued, Cleanup(s, now), op);
  }

  // ---------------------------------------------------------------- crashes

  lemma WithinWhole(issued: map<string, Record>, id: string, part: Directory, whole: Directory)
    requires SoundDirectory(issued, id, whole) && Within(part, whole)
    ensures SoundDirectory(issued, id, part)
  {
    hide Complete;
  }

  lemma CrashIsSound(config: Config, issued: map<string, Record>, s: Store, op: Op, now: int, d: Disk)
    requires Quiet(issued, s) && FreshId(issued, op) && Between(s.disk, Changes(config, s, op, now), d)
    ensures SoundDisk(Issue(config, issued, op), d)
  {
    var issued' := Issue(config, issued, op);
    var c := Changes(config, s, op, now);
    QuietIsSound(issued, s);
    forall id | id in d ensures SoundDirectory(issued', id, d[id]) {
      assert Reached(s.disk, c, id, d);
      if id in s.disk && Within(d[id], s.disk[id]) {
        assert SoundDirectory(issued, id, s.disk[id]);
        WithinWhole(issued, id, d[id], s.disk[id]);
        hide Complete, Goal, Between, Changes, SoundDisk, Quiet;
      } else {
        hide Complete, Goal, Between, SoundDisk, Quiet;
      }
    }
  }

  /** A restart may itself be interrupted. */
  lemma CrashInRestartIsSound(issued: map<string, Record>, disk: Disk, removing: set<string>, d: Disk)
    requires SoundDisk(issued, disk) && Between(disk, Change(removing, map[]), d)
    ensures SoundDisk(issued, d)
  {
    forall id | id in d ensures SoundDirectory(issued, id, d[id]) {
      assert Reached(disk, Change(removing, map[]), id, d);
      WithinWhole(issued, id, d[id], disk[id]);
    }
  }

  /**
   * Crash consistency.  Whatever the operation and wherever it is cut off, every attachment is
   * afterwards either gone or complete and original; only attachments that were available, and the
   * one being staged, can be there; and the ones the operation was not removing are.
   */
  lemma CrashConsistency(config: Config, issued: map<string, Record>, s: Store, op: Op, now: int, d: Disk,
      restartedAt: int)
    requires AllGenuine(config, issued) && Quiet(issued, s) && FreshId(issued, op)
    requires Between(s.disk, Changes(config, s, op, now), d)
    ensures var s' := Restart(config, d, restartedAt);
      && Quiet(Issue(config, issued, op), s')
      && (forall id | id in s'.records ::
            || (id in s.records && s.records[id].status == Available && s'.records[id] == s.records[id]
                && id in s.disk && s'.disk[id] == s.disk[id])
            || (op.Stage? && id == op.id && Goal(config, op) == Some(s'.records[id])
              && s'.disk[id] == Complete(s'.records[id])))
      && (forall id | id in s.records && s.records[id].status == Available
                      && id !in Changes(config, s, op, now).removing
                      && s.records[id].expiresAt > restartedAt && Readable(s.records[id]) ::
            id in s'.records && s'.records[id] == s.records[id])
  {
    hide AllGenuine, FreshId, Goal, Complete, Quiet, Between, SoundDisk, Restart, Doomed, Target, EndsWith;
    var issued' := Issue(config, issued, op);
    FreshIsNew(issued, s, op);
    IssueIsGenuine(config, issued, op);
    CrashIsSound(config, issued, s, op, now, d);
    RestartIsQuiet(config, issued', d, restartedAt);
    var s' := Restart(config, d, restartedAt);
    var c := Changes(config, s, op, now);
    forall id | id in s'.records && !(op.Stage? && id == op.id)
      ensures id in s.records && s.records[id].status == Available && s'.records[id] == s.records[id]
      ensures id in s.disk && s'.disk[id] == s.disk[id]
    {
      Survivor(issued, s, c, d, id);
    }
    forall id | id in s.records && s.records[id].status == Available && id !in c.removing
      ensures id in d && id in issued' && d[id] == Complete(issued'[id]) && issued'[id] == s.records[id]
    {
      Untouched(issued, s, c, d, id);
    }
  }

  lemma FreshIsNew(issued: map<string, Record>, s: Store, op: Op)
    requires Quiet(issued, s) && FreshId(issued, op)
    ensures op.Stage? ==> op.id !in issued && op.id !in s.records
  {
    hide Complete, GeneratedId;
  }

  lemma Untouched(issued: map<string, Record>, s: Store, c: Change, d: Disk, id: string)
    requires Quiet(issued, s) && Between(s.disk, c, d)
    requires id in s.records && s.records[id].status == Available && id !in c.removing && id !in c.adding
    ensures id in d && id in issued && d[id] == Complete(issued[id]) && issued[id] == s.records[id]
  {
    hide Complete;
    assert QuietRecord(issued, s, id) && Reached(s.disk, c, id, d);
  }

  lemma Survivor(issued: map<string, Record>, s: Store, c: Change, d: Disk, id: string)
    requires Quiet(issued, s) && Between(s.disk, c, d) && id !in c.adding
    requires id in d && id in issued && d[id] == Complete(issued[id])
    ensures id in s.records && s.records[id].status == Available && s.records[id] == issued[id]
    ensures id in s.disk && s.disk[id] == d[id]
  {
    assert Reached(s.disk, c, id, d);
    assert MANIFEST in d[id];
    hide Complete;
  }
}
