/**
 * The storage object itself.  Every disk effect is a step of its own, and `history` records the
 * disk after each, so that a crash can fall between any two.
 */
module AttachmentService {
  import opened Outcomes
  import opened Text
  import opened AttachmentStorage
  import opened AttachmentRecovery

  /** The file system calls the storage makes, each of them atomic. */
  datatype Effect =
    | MakeDirectory(id: string)
    | WriteFile(id: string, f: string, file: File)
    | RenameFile(id: string, from: string, to: string)
    | DeleteFile(id: string, f: string)
    | DeleteDirectory(id: string)

  predicate Can(d: Disk, e: Effect) {
    match e
    case MakeDirectory(id) => id !in d
    case WriteFile(id, _, _) => id in d
    case RenameFile(id, from, _) => id in d && from in d[id]
    case DeleteFile(id, f) => id in d && f in d[id]
    case DeleteDirectory(id) => id in d && d[id] == map[]
  }

  function Done(d: Disk, e: Effect): Disk
    requires Can(d, e)
  {
    match e
    case MakeDirectory(id) => d[id := map[]]
    case WriteFile(id, f, file) => d[id := d[id][f := file]]
    case RenameFile(id, from, to) => d[id := (d[id] - {from})[to := d[id][from]]]
    case DeleteFile(id, f) => d[id := d[id] - {f}]
    case DeleteDirectory(id) => d - {id}
  }

  lemma WroteInside(base: Disk, id: string, dir: Directory, f: string, file: File)
    ensures Can(base[id := dir], WriteFile(id, f, file))
    ensures Done(base[id := dir], WriteFile(id, f, file)) == base[id := dir[f := file]]
  {
  }

  lemma RenamedInside(base: Disk, id: string, dir: Directory, from: string, to: string)
    requires from in dir
    ensures Can(base[id := dir], RenameFile(id, from, to))
    ensures Done(base[id := dir], RenameFile(id, from, to)) == base[id := (dir - {from})[to := dir[from]]]
  {
  }

  ghost predicate OneEffect(d: Disk, d': Disk) {
    exists e :: Can(d, e) && d' == Done(d, e)
  }

  /** The history ends with the disk as it is, and no state between two effects is missing. */
  ghost predicate Traced(history: seq<Disk>, disk: Disk) {
    && history != [] && history[|history| - 1] == disk
    && forall k | 0 < k < |history| :: OneEffect(history[k - 1], history[k])
  }

  /** The history grew, and only by states an operation with change c can leave on base. */
  ghost predicate Grew(before: seq<Disk>, after: seq<Disk>, base: Disk, c: Change) {
    && |before| <= |after| && after[..|before|] == before
    && forall k | |before| <= k < |after| :: Between(base, c, after[k])
  }

  lemma GrewThen(h0: seq<Disk>, h1: seq<Disk>, h2: seq<Disk>, base: Disk, c: Change)
    requires Grew(h0, h1, base, c) && Grew(h1, h2, base, c)
    ensures Grew(h0, h2, base, c)
  {
    hide Between;
    assert forall k | |h0| <= k < |h1| :: h2[k] == h2[..|h1|][k] == h1[k];
    assert h2[..|h0|] == h2[..|h1|][..|h0|];
  }

  lemma GrewOne(h: seq<Disk>, base: Disk, c: Change, d: Disk)
    requires Between(base, c, d)
    ensures Grew(h, h + [d], base, c)
  {
    hide Between;
  }

  /** A change after some directories are gone is part of the larger change. */
  lemma GrewAfter(h0: seq<Disk>, h1: seq<Disk>, base: Disk, gone: set<string>, c: Change, whole: Change)
    requires Grew(h0, h1, base - gone, c) && gone + c.removing <= whole.removing && c.adding == whole.adding
    ensures Grew(h0, h1, base, whole)
  {
    forall k | |h0| <= k < |h1| ensures Between(base, whole, h1[k]) {
      BetweenAfter(base, gone, c, whole, h1[k]);
    }
    hide Between;
  }

  lemma BetweenAfter(base: Disk, gone: set<string>, c: Change, whole: Change, d: Disk)
    requires Between(base - gone, c, d) && gone + c.removing <= whole.removing && c.adding == whole.adding
    ensures Between(base, whole, d)
  {
    forall id ensures Reached(base, whole, id, d) {
      assert Reached(base - gone, c, id, d);
      hide Within, Assembling, Between;
    }
  }

  lemma GrewWider(h0: seq<Disk>, h1: seq<Disk>, base: Disk, c: Change, whole: Change)
    requires Grew(h0, h1, base, c) && c.removing <= whole.removing && c.adding == map[]
    ensures Grew(h0, h1, base, whole)
  {
    forall k | |h0| <= k < |h1| ensures Between(base, whole, h1[k]) {
      forall id ensures Reached(base, whole, id, h1[k]) {
        assert Reached(base, c, id, h1[k]);
        hide Within, Assembling, Between;
      }
    }
    hide Between;
  }

  lemma GrewNothing(h: seq<Disk>, base: Disk, c: Change)
    ensures Grew(h, h, base, c)
  {
  }

  /** Undoing an unfinished staging is part of it. */
  lemma GrewUndone(h0: seq<Disk>, h1: seq<Disk>, base: Disk, id: string, dir: Directory, goal: Option<Record>)
    requires Grew(h0, h1, base[id := dir], Change({id}, map[])) && MANIFEST !in dir
    ensures Grew(h0, h1, base, Change({}, map[id := goal]))
  {
    forall k | |h0| <= k < |h1| ensures Between(base, Change({}, map[id := goal]), h1[k]) {
      forall x ensures Reached(base, Change({}, map[id := goal]), x, h1[k]) {
        assert Reached(base[id := dir], Change({id}, map[]), x, h1[k]);
      }
    }
    hide Between;
  }

  lemma AssemblingBetween(base: Disk, id: string, dir: Directory, goal: Option<Record>)
    requires Assembling(goal, dir)
    ensures Between(base, Change({}, map[id := goal]), base[id := dir])
  {
    var d := base[id := dir];
    forall x ensures Reached(base, Change({}, map[id := goal]), x, d) {}
  }

  /** What a restart has loaded, and what it has thrown away, after looking at some directories. */
  ghost function Loaded(config: Config, found: Disk, seen: set<string>, now: int): map<string, Record> {
    map id | id in seen && id in found && Restored(config, id, found[id], now).Some? ::
        Restored(config, id, found[id], now).value
  }

  ghost function Lost(config: Config, found: Disk, seen: set<string>, now: int): set<string> {
    set id | id in seen && id in found && Restored(config, id, found[id], now).None?
  }

  lemma NextCandidate(config: Config, found: Disk, seen: set<string>, now: int, id: string)
    requires id in found && id !in seen
    ensures id !in Lost(config, found, seen, now)
    ensures var r := Restored(config, id, found[id], now);
      && Loaded(config, found, seen + {id}, now) ==
           (if r.Some? then Loaded(config, found, seen, now)[id := r.value] else Loaded(config, found, seen, now))
      && Lost(config, found, seen + {id}, now) ==
           (if r.None? then Lost(config, found, seen, now) + {id} else Lost(config, found, seen, now))
      && (r.None? ==> id in Unrestorable(config, found, now))
    ensures Lost(config, found, seen, now) <= Unrestorable(config, found, now)
  {
    hide Restored;
  }

  lemma AllSeen(config: Config, found: Disk, seen: set<string>, now: int)
    requires seen == found.Keys
    ensures Restart(config, found, now) ==
      Store(Loaded(config, found, seen, now), found - Lost(config, found, seen, now))
  {
    hide Restored;
    assert Lost(config, found, seen, now) == Unrestorable(config, found, now);
  }

  lemma OnePayload(dir: Directory, files: set<string>)
    requires files == set f | f in dir && Payload(f)
    ensures |files| == 1 <==> exists f :: OnlyPayload(dir, f)
    ensures |files| == 1 ==> forall f | f in files :: OnlyPayload(dir, f)
  {
    hide Payload;
    forall f | OnlyPayload(dir, f) ensures |files| == 1 { assert files == {f}; }
    forall f | f in files && |files| == 1 ensures OnlyPayload(dir, f) {
      assert |files - {f}| == 0;
      assert files == {f};
      assert forall g | g in dir && Payload(g) :: g in files;
    }
  }

  lemma MarkedKeys(records: map<string, Record>, ids: set<string>, status: Status)
    ensures Marked(records, ids, status).Keys == records.Keys
  {
  }

  /** Some directories are gone, and count of them were there. */
  ghost predicate Removed(base: Disk, gone: set<string>, d: Disk, count: nat) {
    d == base - gone && count == |gone * base.Keys|
  }

  lemma RemovedNothing(base: Disk)
    ensures Removed(base, {}, base, 0)
  {
    assert base - {} == base;
    assert {} * base.Keys == {};
  }

  lemma CountOne(gone: set<string>, there: set<string>, id: string)
    requires id !in gone
    ensures |(gone + {id}) * there| == |gone * there| + if id in there then 1 else 0
  {
    if id in there {
      assert (gone + {id}) * there == gone * there + {id};
    } else {
      assert (gone + {id}) * there == gone * there;
    }
  }

  lemma RemovedOne(base: Disk, gone: set<string>, d: Disk, count: nat, id: string)
    requires Removed(base, gone, d, count) && id !in gone
    ensures Removed(base, gone + {id}, d - {id}, if id in d then count + 1 else count)
  {
    CountOne(gone, base.Keys, id);
    TwiceWithout(base, gone, id);
  }

  lemma TwiceWithout(base: Disk, gone: set<string>, id: string)
    ensures (base - gone) - {id} == base - (gone + {id})
    ensures id !in gone ==> (id in base - gone <==> id in base)
  {
    assert ((base - gone) - {id}).Keys == (base - (gone + {id})).Keys;
  }

  lemma RemovedAll(base: Disk, gone: set<string>, d: Disk, count: nat)
    requires Removed(base, gone, d, count)
    ensures d == base - gone && count == |gone * base.Keys|
  {
  }

  lemma MarkedNothing(records: map<string, Record>, status: Status)
    ensures Marked(records, {}, status) == records
  {
  }

  lemma MarkedOne(records: map<string, Record>, marked: set<string>, now: int, id: string)
    requires id in records && id !in marked
    ensures var m := Marked(records, marked, Expired);
      && id in m && m[id] == records[id]
      && Marked(records, marked + {id}, Expired) == m[id := m[id].(status := Expired)]
      && (id in Due(records, now) <==> m[id].status == Available && m[id].expiresAt <= now)
  {
    assert Marked(records, marked + {id}, Expired).Keys == records.Keys;
  }

  /** Of some wanted directories, those seen so far, next to the ones already gone. */
  ghost predicate Seen(wanted: set<string>, gone: set<string>, todo: set<string>, now: set<string>) {
    forall id :: id in now <==> id in gone || (id in wanted && id !in todo)
  }

  lemma SeenNone(wanted: set<string>, gone: set<string>, todo: set<string>)
    requires wanted <= todo
    ensures Seen(wanted, gone, todo, gone)
  {
  }

  lemma SeenOne(wanted: set<string>, gone: set<string>, todo: set<string>, now: set<string>, id: string)
    requires Seen(wanted, gone, todo, now) && id in todo && id !in gone
    ensures id !in now && Seen(wanted, gone, todo - {id}, if id in wanted then now + {id} else now)
  {
  }

  lemma SeenWithin(wanted: set<string>, gone: set<string>, todo: set<string>, now: set<string>, whole: set<string>)
    requires Seen(wanted, gone, todo, now) && gone <= whole && wanted <= whole
    ensures now <= whole
  {
  }

  lemma SeenAll(wanted: set<string>, gone: set<string>, now: set<string>)
    requires Seen(wanted, gone, {}, now)
    ensures now == gone + wanted
    ensures gone == {} ==> now == wanted
  {
  }

  /** The outcome of a screened staging, case by case. */
  lemma ScreenedStage(config: Config, s: Store, op: Op)
    requires op.Stage? && Screen(config, op.upload).None? && op.id !in s.disk
    ensures var after, failed := Perform(config, s, op), CopyError(config, op.upload);
      var r := NewRecord(config, op.upload, op.context, op.id, op.createdAt);
      && (failed.Some? ==> after == (s, Staged(Err(failed.value))))
      && (failed.None? && Blank(BaseName(op.upload.fileName)) ==>
            after == (s.(disk := s.disk[op.id := PayloadAlone(r)]), Staged(Err(BlankName))))
      && (failed.None? && !Blank(BaseName(op.upload.fileName)) && op.upload.manifestFails ==>
            after == (s, Staged(Err(ManifestFailed))))
      && (failed.None? && !Blank(BaseName(op.upload.fileName)) && !op.upload.manifestFails ==>
            after == (Store(s.records[op.id := r], s.disk[op.id := Complete(r)]), Staged(Ok(r.reference)))
            && Goal(config, op) == Some(r))
  {
    hide CopyError, Screen, Blank, BaseName, Complete, PayloadAlone, NewRecord;
  }

  /** A discard on a cleaned store, and what it removes. */
  lemma DiscardCases(config: Config, s: Store, op: Op)
    requires op.Discard?
    ensures var found := Lookup(s, op.raw, op.context);
      && (found.None? ==> Perform(config, s, op) == (s, Discarded(false)) && Target(s, op) == {})
      && (found.Some? ==>
            Perform(config, s, op) == (Forgotten(s, found.value), Discarded(true)) && Target(s, op) == {found.value})
  {
    hide Lookup, Forgotten;
  }

  /** The files written under a temporary name are neither payload nor manifest. */
  lemma TemporaryNames(id: string)
    ensures PartFile(id) != MANIFEST && Dotted(PartFile(id))
    ensures ManifestPart(id) != MANIFEST && Dotted(ManifestPart(id)) && Dotted(MANIFEST)
  {
    var part, manifestPart := PartFile(id), ManifestPart(id);
    assert part[|part| - 1] == 't' && manifestPart[|manifestPart| - 1] == 't';
    assert MANIFEST[|MANIFEST| - 1] == 'n';
  }

  lemma {:induction false} FlattenNext(chunks: seq<Chunk>, i: nat)
    requires i < |chunks|
    ensures Flatten(chunks[..i + 1]) == Flatten(chunks[..i]) + chunks[i]
    ensures |Flatten(chunks[..i + 1])| <= |Flatten(chunks)|
    decreases |chunks|
  {
    assert chunks[..i + 1][..i] == chunks[..i];
    if i + 1 == |chunks| {
      assert chunks[..i + 1] == chunks;
    } else {
      var front := chunks[..|chunks| - 1];
      assert front[..i + 1] == chunks[..i + 1] && front[..i] == chunks[..i];
      FlattenNext(front, i);
    }
  }

  class FilesystemAttachmentStorage {
    const config: Config
    var records: map<string, Record>
    var disk: Disk
    ghost var history: seq<Disk>

    ghost function Contents(): Store
      reads this
    {
      Store(records, disk)
    }

    /** A process starting on the given directory, at time now. */
    constructor (config: Config, found: Disk, now: int)
      ensures this.config == config && Contents() == Restart(config, found, now)
      ensures Traced(history, disk) && Grew([found], history, found, Change(Unrestorable(config, found, now), map[]))
    {
      this.config := config;
      records, disk, history := map[], found, [found];
      new;
      ghost var whole := Change(Unrestorable(config, found, now), map[]);
      var todo := found.Keys;
      ghost var seen: set<string>, gone: set<string> := {}, {};
      GrewNothing(history, found, whole);
      assert Traced(history, disk);
      hide Restored, Traced, Grew, Unrestorable;
      while todo != {}
        invariant todo == found.Keys - seen && seen <= found.Keys
        invariant gone == Lost(config, found, seen, now) && disk == found - gone
        invariant records == Loaded(config, found, seen, now)
        invariant Traced(history, disk) && Grew([found], history, found, whole)
        decreases todo
      {
        hide Restored, Traced, Grew, Unrestorable, Loaded, Lost;
        var id :| id in todo;
        NextCandidate(config, found, seen, now, id);
        assert id in disk && disk[id] == found[id];
        var r := Restore(id, now);
        todo, seen := todo - {id}, seen + {id};
        if r.Some? {
          records := records[id := r.value];
        } else {
          ghost var before := history;
          var existed := RemoveDirectory(id);
          GrewAfter(before, history, found, gone, Change({id}, map[]), whole);
          GrewThen([found], before, history, found, whole);
          gone := gone + {id};
        }
      }
      AllSeen(config, found, seen, now);
    }

    /** The whole constructor: bad settings are refused before anything is read. */
    static method Open(settings: Settings, found: Disk, now: int)
      returns (r: Result<FilesystemAttachmentStorage, ConfigError>)
      ensures r.Err? <==> Configured(settings).Err?
      ensures r.Err? ==> r.error == Configured(settings).error
      ensures r.Ok? ==> fresh(r.value) && r.value.config == Configured(settings).value
      ensures r.Ok? ==> r.value.Contents() == Restart(r.value.config, found, now)
      ensures r.Ok? ==> Traced(r.value.history, r.value.disk)
    {
      var config := Configured(settings);
      if config.Err? { return Err(config.error); }
      var storage := new FilesystemAttachmentStorage(config.value, found, now);
      r := Ok(storage);
    }

    method Restore(id: string, now: int) returns (restored: Option<Record>)
      requires id in disk
      ensures restored == Restored(config, id, disk[id], now)
    {
      restored := ReadManifest(config, id, disk[id]);
      if restored.Some? {
        if restored.value.status != Available || restored.value.expiresAt <= now { return None; }
        var content := ReadVerifiedContent(restored.value, disk[id]);
        if content.None? { return None; }
      }
    }

    /** `_read_verified_content` on one directory. */
    static method ReadVerifiedContent(r: Record, dir: Directory) returns (content: Option<seq<Byte>>)
      ensures content == Verified(r, dir)
    {
      var files := set f | f in dir && Payload(f);
      OnePayload(dir, files);
      hide Payload;
      if |files| != 1 { return None; }
      var f :| f in files;
      assert OnlyPayload(dir, f);
      match dir[f]
      case Data(bytes) =>
        var matches := |bytes| == r.reference.sizeBytes && Sha256(bytes) == r.reference.digest;
        content := if matches then Some(bytes) else None;
      case _ =>
        content := None;
    }

    /** The one place where the disk changes. */
    method Do(e: Effect, ghost start: seq<Disk>, ghost base: Disk, ghost c: Change)
      requires Traced(history, disk) && Grew(start, history, base, c)
      requires Can(disk, e) && Between(base, c, Done(disk, e))
      modifies this`disk, this`history
      ensures Traced(history, disk) && disk == Done(old(disk), e) && Grew(start, history, base, c)
    {
      hide Between, Grew, Can, Done;
      disk := Done(disk, e);
      history := history + [disk];
      GrewOne(old(history), base, c, disk);
      GrewThen(start, old(history), history, base, c);
    }

    /** `shutil.rmtree`: the files go one by one, in any order, and the directory last. */
    method RemoveDirectory(id: string) returns (existed: bool)
      requires Traced(history, disk)
      modifies this`disk, this`history
      ensures existed == (id in old(disk)) && disk == old(disk) - {id}
      ensures Traced(history, disk) && Grew(old(history), history, old(disk), Change({id}, map[]))
    {
      existed := id in disk;
      GrewNothing(history, disk, Change({id}, map[]));
      if !existed { return; }
      ghost var base := disk;
      hide Traced, Grew;
      while disk[id] != map[]
        invariant id in disk && Within(disk[id], base[id]) && disk == base[id := disk[id]]
        invariant Traced(history, disk) && Grew(old(history), history, base, Change({id}, map[]))
        decreases disk[id].Keys
      {
        hide Traced, Grew;
        var f :| f in disk[id];
        Do(DeleteFile(id, f), old(history), base, Change({id}, map[]));
      }
      Do(DeleteDirectory(id), old(history), base, Change({id}, map[]));
    }

    /** `cleanup_expired`: first the due records, then the directories nobody owns. */
    method CleanupExpired(now: int) returns (removed: nat)
      requires Traced(history, disk)
      modifies this`records, this`disk, this`history
      ensures Traced(history, disk)
      ensures Contents() == Cleanup(old(Contents()), now)
      ensures removed == |Doomed(old(Contents()), now) * old(disk).Keys|
      ensures Grew(old(history), history, old(disk), Change(Doomed(old(Contents()), now), map[]))
    {
      ghost var was, base, doomed := records, disk, Doomed(Contents(), now);
      hide Traced, Grew, Marked;
      removed := ExpireDue(now, doomed);
      MarkedKeys(was, Due(was, now), Expired);
      removed := RemoveOrphans(old(history), base, Due(was, now), doomed, removed);
    }

    method ExpireDue(now: int, ghost doomed: set<string>) returns (removed: nat)
      requires Due(records, now) <= doomed
      requires Traced(history, disk)
      modifies this`records, this`disk, this`history
      ensures Traced(history, disk)
      ensures records == Marked(old(records), Due(old(records), now), Expired)
      ensures Removed(old(disk), Due(old(records), now), disk, removed)
      ensures Grew(old(history), history, old(disk), Change(doomed, map[]))
    {
      ghost var was, base, due := records, disk, Due(records, now);
      removed := 0;
      var todo := records.Keys;
      ghost var gone: set<string> := {};
      GrewNothing(history, base, Change(doomed, map[]));
      RemovedNothing(base);
      MarkedNothing(was, Expired);
      SeenNone(due, {}, todo);
      hide Traced, Grew, Removed, Marked, Due, Seen;
      while todo != {}
        invariant todo <= was.Keys && Seen(due, {}, todo, gone)
        invariant records == Marked(was, gone, Expired)
        invariant Removed(base, gone, disk, removed)
        invariant Traced(history, disk) && Grew(old(history), history, base, Change(doomed, map[]))
        decreases |todo|
      {
        hide Traced, Grew, Removed, Marked, Due, Seen;
        var id :| id in todo;
        SeenOne(due, {}, todo, gone, id);
        MarkedOne(was, gone, now, id);
        todo := todo - {id};
        if records[id].status == Available && records[id].expiresAt <= now {
          SeenWithin(due, {}, todo, gone + {id}, doomed);
          removed := Expire(old(history), was, base, gone, doomed, removed, id);
          gone := gone + {id};
        }
      }
      SeenAll(due, {}, gone);
    }

    method Expire(ghost start: seq<Disk>, ghost was: map<string, Record>, ghost base: Disk,
        ghost gone: set<string>, ghost doomed: set<string>,
                  count: nat, id: string) returns (counted: nat)
      requires id in was && id !in gone && records == Marked(was, gone, Expired) && gone + {id} <= doomed
      requires Removed(base, gone, disk, count) && Grew(start, history, base, Change(doomed, map[]))
      requires Traced(history, disk)
      modifies this`records, this`disk, this`history
      ensures Traced(history, disk)
      ensures records == Marked(was, gone + {id}, Expired)
      ensures Removed(base, gone + {id}, disk, counted) && Grew(start, history, base, Change(doomed, map[]))
    {
      MarkedOne(was, gone, 0, id);
      hide Marked, Removed, Traced, Grew;
      records := records[id := records[id].(status := Expired)];
      counted := Drop(start, base, gone, doomed, count, id);
    }

    method RemoveOrphans(ghost start: seq<Disk>, ghost base: Disk, ghost due: set<string>,
        ghost doomed: set<string>, count: nat)
      returns (removed: nat)
      requires Removed(base, due, disk, count) && due <= records.Keys && doomed == due + (base.Keys - records.Keys)
      requires Grew(start, history, base, Change(doomed, map[]))
      requires Traced(history, disk)
      modifies this`disk, this`history
      ensures Traced(history, disk)
      ensures disk == base - doomed && removed == |doomed * base.Keys|
      ensures Grew(start, history, base, Change(doomed, map[]))
    {
      removed := count;
      var todo := disk.Keys;
      RemovedAll(base, due, disk, count);
      ghost var orphans, gone := base.Keys - records.Keys, due;
      SeenNone(orphans, due, todo);
      hide Traced, Grew, Removed, Seen;
      while todo != {}
        invariant todo <= base.Keys - due && Seen(orphans, due, todo, gone)
        invariant Removed(base, gone, disk, removed)
        invariant Traced(history, disk) && Grew(start, history, base, Change(doomed, map[]))
        decreases |todo|
      {
        hide Traced, Grew, Removed, Seen;
        var id :| id in todo;
        SeenOne(orphans, due, todo, gone, id);
        todo := todo - {id};
        if id !in records {
          SeenWithin(orphans, due, todo, gone + {id}, doomed);
          removed := Drop(start, base, gone, doomed, removed, id);
          gone := gone + {id};
        }
      }
      SeenAll(orphans, due, gone);
      RemovedAll(base, gone, disk, removed);
    }

    /** One more directory goes, and is counted if it was there. */
    method Drop(ghost start: seq<Disk>, ghost base: Disk, ghost gone: set<string>, ghost doomed: set<string>,
        count: nat, id: string)
      returns (counted: nat)
      requires Removed(base, gone, disk, count) && id !in gone && gone + {id} <= doomed
      requires Grew(start, history, base, Change(doomed, map[]))
      requires Traced(history, disk)
      modifies this`disk, this`history
      ensures Traced(history, disk)
      ensures Removed(base, gone + {id}, disk, counted)
      ensures Grew(start, history, base, Change(doomed, map[]))
    {
      hide Traced, Grew;
      ghost var was := disk;
      var existed := RemoveDirectory(id);
      counted := count + (if existed then 1 else 0);
      RemovedOne(base, gone, was, count, id);
      GrewAfter(old(history), history, base, gone, Change({id}, map[]), Change(doomed, map[]));
      GrewThen(start, old(history), history, base, Change(doomed, map[]));
    }

    /** `_record_for_context` on a normalised id */
    method RecordForContext(raw: string, context: AccessContext) returns (found: Option<string>)
      ensures found == Lookup(Contents(), raw, context)
    {
      var id := AttachmentId(raw);
      if id.None? || id.value !in records || !VisibleTo(records[id.value], context) { return None; }
      found := id;
    }

    method ContentOf(id: string) returns (content: Option<seq<Byte>>)
      requires id in records
      ensures content == AttachmentStorage.Content(Contents(), id)
    {
      if id !in disk { return None; }
      content := ReadVerifiedContent(records[id], disk[id]);
    }

    /** The attachment is over: its status changes in memory, then its directory goes. */
    method End(id: string, status: Status)
      requires id in records
      requires Traced(history, disk)
      modifies this`records, this`disk, this`history
      ensures Traced(history, disk)
      ensures Contents() == Ended(old(Contents()), id, status)
      ensures Grew(old(history), history, old(disk), Change({id}, map[]))
    {
      records := records[id := records[id].(status := status)];
      var existed := RemoveDirectory(id);
    }

    method Forget(id: string)
      requires id in records
      requires Traced(history, disk)
      modifies this`records, this`disk, this`history
      ensures Traced(history, disk)
      ensures Contents() == Forgotten(old(Contents()), id)
      ensures Grew(old(history), history, old(disk), Change({id}, map[]))
    {
      var existed := RemoveDirectory(id);
      records := records - {id};
    }

    method Read(raw: string, context: AccessContext, now: int) returns (outcome: Outcome)
      requires Traced(history, disk)
      modifies this`records, this`disk, this`history
      ensures Traced(history, disk)
      ensures (Contents(), outcome) == Apply(config, old(Contents()), Op.Read(raw, context), now)
      ensures Grew(old(history), history, old(disk), Changes(config, old(Contents()), Op.Read(raw, context), now))
    {
      ghost var start, base, whole := history, disk, Changes(config, Contents(), Op.Read(raw, context), now);
      ghost var doomed := Doomed(Contents(), now);
      var removed := CleanupExpired(now);
      ghost var middle := history;
      hide Traced, Grew, Cleanup, Doomed, Lookup, Content, Ended, Forgotten;
      GrewWider(start, middle, base, Change(doomed, map[]), whole);
      GrewNothing(middle, disk, Change({}, map[]));
      outcome := Unavailable(Missing, None);
      var found := RecordForContext(raw, context);
      if found.Some? {
        var id := found.value;
        outcome := Unavailable(records[id].status, Some(records[id].reference));
        if records[id].status == Available {
          var content := ContentOf(id);
          if content.None? {
            outcome := Unavailable(Missing, Some(records[id].reference));
            End(id, Missing);
            GrewAfter(middle, history, base, doomed, Change({id}, map[]), whole);
            GrewThen(start, middle, history, base, whole);
          } else {
            outcome := Delivered(records[id].reference, content.value);
          }
        }
      }
    }

    method Consume(raw: string, context: AccessContext, now: int) returns (outcome: Outcome)
      requires Traced(history, disk)
      modifies this`records, this`disk, this`history
      ensures Traced(history, disk)
      ensures (Contents(), outcome) == Apply(config, old(Contents()), Op.Consume(raw, context), now)
      ensures Grew(old(history), history, old(disk), Changes(config, old(Contents()), Op.Consume(raw, context), now))
    {
      ghost var start, base, whole := history, disk, Changes(config, Contents(), Op.Consume(raw, context), now);
      ghost var doomed := Doomed(Contents(), now);
      var removed := CleanupExpired(now);
      ghost var middle := history;
      hide Traced, Grew, Cleanup, Doomed, Lookup, Content, Ended, Forgotten;
      GrewWider(start, middle, base, Change(doomed, map[]), whole);
      outcome := Unavailable(Missing, None);
      var found := RecordForContext(raw, context);
      if found.Some? {
        var id := found.value;
        outcome := Unavailable(records[id].status, Some(records[id].reference));
        if records[id].status == Available {
          var content := ContentOf(id);
          if content.None? {
            outcome := Unavailable(Missing, Some(records[id].reference));
            End(id, Missing);
          } else {
            outcome := Delivered(records[id].reference, content.value);
            End(id, Consumed);
          }
          GrewAfter(middle, history, base, doomed, Change({id}, map[]), whole);
          GrewThen(start, middle, history, base, whole);
        }
      }
    }

    method Discard(raw: string, context: AccessContext, now: int) returns (outcome: Outcome)
      requires Traced(history, disk)
      modifies this`records, this`disk, this`history
      ensures Traced(history, disk)
      ensures (Contents(), outcome) == Apply(config, old(Contents()), Op.Discard(raw, context), now)
      ensures Grew(old(history), history, old(disk), Changes(config, old(Contents()), Op.Discard(raw, context), now))
    {
      ghost var start, base, whole := history, disk, Changes(config, Contents(), Op.Discard(raw, context), now);
      ghost var doomed := Doomed(Contents(), now);
      var removed := CleanupExpired(now);
      ghost var middle := history;
      hide Traced, Grew, Cleanup, Doomed, Lookup, Content, Ended, Forgotten;
      GrewWider(start, middle, base, Change(doomed, map[]), whole);
      outcome := Discarded(false);
      DiscardCases(config, Contents(), Op.Discard(raw, context));
      hide Perform, Target;
      var found := RecordForContext(raw, context);
      if found.Some? {
        var id := found.value;
        Forget(id);
        outcome := Discarded(true);
        GrewAfter(middle, history, base, doomed, Change({id}, map[]), whole);
        GrewThen(start, middle, history, base, whole);
      }
    }

    /** `stage_attachment`, with the id the generator drew. */
    method Stage(up: Upload, context: AccessContext, id: string, createdAt: int,
        now: int) returns (result: Result<Reference, StageError>)
      requires Traced(history, disk)
      modifies this`records, this`disk, this`history
      ensures Traced(history, disk)
      ensures var op := Op.Stage(up, context, id, createdAt);
        (Contents(), Staged(result)) == Apply(config, old(Contents()), op, now)
      ensures var op := Op.Stage(up, context, id, createdAt);
        Grew(old(history), history, old(disk), Changes(config, old(Contents()), op, now))
    {
      ghost var op := Op.Stage(up, context, id, createdAt);
      ghost var start, base, whole := history, disk, Changes(config, Contents(), op, now);
      ghost var doomed := Doomed(Contents(), now);
      var removed := CleanupExpired(now);
      ghost var middle := history;
      GrewWider(start, middle, base, Change(doomed, map[]), whole);
      hide Traced, Grew, Cleanup, Doomed, BaseName, MediaType, Complete, Flatten, Goal;
      var name := BaseName(up.fileName);
      if name == "" || Dotted(name) { return Err(BadName); }
      if MediaType(up) !in config.mediaTypes { return Err(BadMediaType); }
      if id in disk { return Err(IdTaken); }
      result := Assemble(up, context, id, createdAt, name);
      GrewAfter(middle, history, base, doomed, Change({}, map[id := Goal(config, op)]), whole);
      GrewThen(start, middle, history, base, whole);
    }

    method Assemble(up: Upload, context: AccessContext, id: string, createdAt: int,
        name: string) returns (result: Result<Reference, StageError>)
      requires Screen(config, up).None? && id !in disk && name == BaseName(up.fileName)
      requires Traced(history, disk)
      modifies this`records, this`disk, this`history
      ensures Traced(history, disk)
      ensures (Contents(), Staged(result)) == Perform(config, old(Contents()), Op.Stage(up, context, id, createdAt))
      ensures var goal := Goal(config, Op.Stage(up, context, id, createdAt));
        Grew(old(history), history, old(disk), Change({}, map[id := goal]))
    {
      ghost var start, base, goal := history, disk, Goal(config, Op.Stage(up, context, id, createdAt));
      ScreenedStage(config, Contents(), Op.Stage(up, context, id, createdAt));
      hide Goal, Traced, Grew, Complete, BaseName, Flatten, MediaType, Screen, CopyError, Blank, Perform;
      var copied, size, digest := CopyPayload(up, id, name, goal);
      if copied.Some? { return Err(copied.value); }
      if Blank(name) { return Err(BlankName); }
      var reference := Reference(id, name, MediaType(up), size, digest);
      var r := Record(reference, context.subject, context.conversation, createdAt + config.retention, Available);
      var written := WriteManifest(start, base, r, up.manifestFails, goal);
      if !written { return Err(ManifestFailed); }
      records := records[id := r];
      result := Ok(reference);
    }

    /** One effect on the directory being assembled. */
    method Put(e: Effect, ghost start: seq<Disk>, ghost base: Disk, ghost id: string, ghost dir: Directory,
        ghost goal: Option<Record>)
      requires Traced(history, disk) && Grew(start, history, base, Change({}, map[id := goal]))
      requires Can(disk, e) && Done(disk, e) == base[id := dir] && Assembling(goal, dir)
      modifies this`disk, this`history
      ensures Traced(history, disk) && disk == base[id := dir]
        && Grew(start, history, base, Change({}, map[id := goal]))
    {
      hide Traced, Grew, Assembling, Can, Done;
      AssemblingBetween(base, id, dir, goal);
      Do(e, start, base, Change({}, map[id := goal]));
    }

    /** Removes the half-finished directory. */
    method Abandon(ghost start: seq<Disk>, ghost base: Disk, id: string, ghost dir: Directory,
        ghost goal: Option<Record>)
      requires Grew(start, history, base, Change({}, map[id := goal])) && MANIFEST !in dir
      requires id !in base && disk == base[id := dir]
      requires Traced(history, disk)
      modifies this`disk, this`history
      ensures Traced(history, disk)
      ensures disk == base && Grew(start, history, base, Change({}, map[id := goal]))
    {
      hide Traced, Grew;
      var existed := RemoveDirectory(id);
      assert disk == base;
      GrewUndone(old(history), history, base, id, dir, goal);
      GrewThen(start, old(history), history, base, Change({}, map[id := goal]));
    }

    /** The copy loop, and the rename that puts the payload in place. */
    method CopyPayload(up: Upload, id: string, name: string, ghost goal: Option<Record>)
      returns (failed: Option<StageError>, size: nat, digest: Digest)
      requires id !in disk && name != "" && !Dotted(name)
      requires Traced(history, disk)
      modifies this`disk, this`history
      ensures Traced(history, disk)
      ensures failed == CopyError(config, up)
      ensures failed.None? ==> digest == Sha256(Flatten(up.chunks)) && size == |Flatten(up.chunks)|
      ensures disk == if failed.Some? then old(disk) else old(disk)[id := map[name := Data(digest.of)]]
      ensures Grew(old(history), history, old(disk), Change({}, map[id := goal]))
    {
      ghost var start, base := history, disk;
      var part := PartFile(id);
      TemporaryNames(id);
      assert name != part;
      hide Traced, Grew, Dotted, Flatten;
      failed, size, digest := CopyChunks(up, id, part, goal);
      if failed.Some? { return; }
      hide Can, Done;
      if up.streamBreaks {
        failed := Some(StreamBroken);
      } else if size == 0 {
        failed := Some(EmptyFile);
      } else if up.renameFails {
        failed := Some(RenameFailed);
      }
      if failed.Some? {
        Abandon(start, base, id, disk[id], goal);
      } else {
        RenamedInside(base, id, disk[id], part, name);
        assert (disk[id] - {part})[name := Data(digest.of)] == map[name := Data(digest.of)];
        Put(RenameFile(id, part, name), start, base, id, map[name := Data(digest.of)], goal);
      }
    }

    /** `digest.update` and `handle.write` for one chunk. */
    method AppendChunk(ghost start: seq<Disk>, ghost base: Disk, id: string, part: string, digest: Digest,
        chunk: Chunk, ghost goal: Option<Record>)
      returns (updated: Digest)
      requires Traced(history, disk) && Grew(start, history, base, Change({}, map[id := goal]))
      requires part != MANIFEST && disk == base[id := map[part := Data(digest.of)]]
      modifies this`disk, this`history
      ensures Traced(history, disk) && Grew(start, history, base, Change({}, map[id := goal]))
      ensures updated == Sha256(digest.of + chunk) && disk == base[id := map[part := Data(updated.of)]]
    {
      hide Traced, Grew, Can, Done;
      updated := Sha256(digest.of + chunk);
      var grown := Data(disk[id][part].bytes + chunk);
      WroteInside(base, id, disk[id], part, grown);
      assert disk[id][part := grown] == map[part := Data(updated.of)];
      Put(WriteFile(id, part, grown), start, base, id, map[part := Data(updated.of)], goal);
    }

    method CopyChunks(up: Upload, id: string, part: string, ghost goal: Option<Record>)
      returns (failed: Option<StageError>, size: nat, digest: Digest)
      requires id !in disk && part != MANIFEST
      requires Traced(history, disk)
      modifies this`disk, this`history
      ensures Traced(history, disk)
      ensures failed == if |Flatten(up.chunks)| > config.maxSize then Some(TooLarge) else None
      ensures failed.None? ==> digest == Sha256(Flatten(up.chunks)) && size == |Flatten(up.chunks)|
      ensures disk == if failed.Some? then old(disk) else old(disk)[id := map[part := Data(digest.of)]]
      ensures Grew(old(history), history, old(disk), Change({}, map[id := goal]))
    {
      ghost var start, base := history, disk;
      GrewNothing(history, base, Change({}, map[id := goal]));
      assert Flatten(up.chunks[..0]) == [];
      hide Traced, Grew, Flatten;
      failed, size, digest := None, 0, Sha256([]);
      Put(MakeDirectory(id), start, base, id, map[], goal);
      WroteInside(base, id, map[], part, Data([]));
      hide Can, Done;
      Put(WriteFile(id, part, Data([])), start, base, id, map[part := Data([])], goal);
      var i := 0;
      while i < |up.chunks|
        invariant i <= |up.chunks| && digest == Sha256(Flatten(up.chunks[..i])) && size == |digest.of| <= config.maxSize
        invariant disk == base[id := map[part := Data(digest.of)]]
        invariant Traced(history, disk) && Grew(start, history, base, Change({}, map[id := goal]))
      {
        hide Traced, Grew, Flatten, Can, Done;
        var chunk := up.chunks[i];
        FlattenNext(up.chunks, i);
        size := size + |chunk|;
        if size > config.maxSize {
          Abandon(start, base, id, disk[id], goal);
          return Some(TooLarge), size, digest;
        }
        digest := AppendChunk(start, base, id, part, digest, chunk, goal);
        i := i + 1;
      }
      assert up.chunks[..i] == up.chunks;
    }

    /** `_write_manifest`: written beside its final name, then renamed. */
    method WriteManifest(ghost start: seq<Disk>, ghost base: Disk, r: Record, fails: bool,
        ghost goal: Option<Record>) returns (written: bool)
      requires r.reference.id !in base && disk == base[r.reference.id := PayloadAlone(r)]
      requires !Dotted(r.reference.fileName) && (!fails ==> goal == Some(r))
      requires Grew(start, history, base, Change({}, map[r.reference.id := goal]))
      requires Traced(history, disk)
      modifies this`disk, this`history
      ensures Traced(history, disk)
      ensures written == !fails
      ensures disk == if written then base[r.reference.id := Complete(r)] else base
      ensures Grew(start, history, base, Change({}, map[r.reference.id := goal]))
    {
      var id := r.reference.id;
      ghost var payload := disk[id];
      var part := ManifestPart(id);
      TemporaryNames(id);
      assert r.reference.fileName !in {part, MANIFEST};
      WroteInside(base, id, payload, part, Torn);
      hide Traced, Grew, Dotted, Can, Done;
      Put(WriteFile(id, part, Torn), start, base, id, payload[part := Torn], goal);
      if fails {
        Abandon(start, base, id, disk[id], goal);
        return false;
      }
      WroteInside(base, id, disk[id], part, Manifest(r));
      assert disk[id][part := Manifest(r)] == payload[part := Manifest(r)];
      Put(WriteFile(id, part, Manifest(r)), start, base, id, payload[part := Manifest(r)], goal);
      RenamedInside(base, id, disk[id], part, MANIFEST);
      assert (disk[id] - {part})[MANIFEST := Manifest(r)] == Complete(r);
      Put(RenameFile(id, part, MANIFEST), start, base, id, Complete(r), goal);
      written := true;
    }
  }
}
