/** What one subject sees of the attachment store does not depend on what the others do. */
module AttachmentIsolation {
  import opened Outcomes
  import opened Text
  import opened AttachmentStorage
  import opened AttachmentRecovery

  datatype Event = Call(op: Op, now: int) | Reboot(now: int)

  ghost function After(config: Config, s: Store, e: Event): Store {
    match e
    case Call(op, now) => Apply(config, s, op, now).0
    case Reboot(now) => Restart(config, s.disk, now)
  }

  predicate Mine(e: Event, subject: string) {
    e.Call? && !e.op.Sweep? && e.op.context.subject == subject
  }

  /** What the subject is told. */
  ghost function Observations(config: Config, s: Store, events: seq<Event>, subject: string): seq<Outcome>
    decreases |events|
  {
    if events == [] then []
    else
      var e := events[0];
      (if Mine(e, subject) then [Apply(config, s, e.op, e.now).1] else [])
      + Observations(config, After(config, s, e), events[1..], subject)
  }

  /** The run without the calls of the other subjects. */
  function Purged(events: seq<Event>, subject: string): seq<Event> {
    if events == [] then []
    else (if events[0].Reboot? || Mine(events[0], subject) then [events[0]] else []) + Purged(events[1..], subject)
  }

  predicate Ordered(events: seq<Event>, from: int) {
    events != [] ==> from <= events[0].now && Ordered(events[1..], events[0].now)
  }

  ghost predicate FreshIds(config: Config, issued: map<string, Record>, events: seq<Event>)
    decreases |events|
  {
    events != [] ==>
      var e := events[0];
      if e.Call? then FreshId(issued, e.op) && FreshIds(config, Issue(config, issued, e.op), events[1..])
      else FreshIds(config, issued, events[1..])
  }

  // ---------------------------------------------------------------- one subject's share

  function Share(s: Store, subject: string): Store {
    Store(map id | id in s.records && s.records[id].owner == subject :: s.records[id],
          map id | id in s.disk && id in s.records && s.records[id].owner == subject :: s.disk[id])
  }

  lemma ShareOfCleanup(s: Store, subject: string, now: int)
    ensures Share(Cleanup(s, now), subject) == Cleanup(Share(s, subject), now)
  {
    assert Share(Cleanup(s, now), subject).records == Cleanup(Share(s, subject), now).records;
    assert Share(Cleanup(s, now), subject).disk == Cleanup(Share(s, subject), now).disk;
  }

  lemma ShareOfEnded(s: Store, subject: string, id: string, status: Status)
    requires id in s.records
    ensures Share(Ended(s, id, status), subject) ==
      if s.records[id].owner == subject then Ended(Share(s, subject), id, status) else Share(s, subject)
  {
    var ended, share := Share(Ended(s, id, status), subject), Share(s, subject);
    if s.records[id].owner == subject {
      EndedShare(s, subject, id, status);
    } else {
      assert ended.records == share.records;
      assert ended.disk == share.disk;
    }
  }

  lemma EndedShare(s: Store, subject: string, id: string, status: Status)
    requires id in s.records && s.records[id].owner == subject
    ensures Share(Ended(s, id, status), subject) == Ended(Share(s, subject), id, status)
  {
    var ended, share := Share(Ended(s, id, status), subject), Share(s, subject);
    assert ended.records == share.records[id := s.records[id].(status := status)];
    assert ended.disk == share.disk - {id};
  }

  lemma ShareOfRemoved(s: Store, subject: string, id: string)
    requires id in s.records
    ensures Share(Forgotten(s, id), subject) ==
      if s.records[id].owner == subject then Forgotten(Share(s, subject), id) else Share(s, subject)
  {
    var removed, share := Share(Forgotten(s, id), subject), Share(s, subject);
    if s.records[id].owner == subject {
      assert removed.records == share.records - {id};
      assert removed.disk == share.disk - {id};
    } else {
      assert removed.records == share.records;
      assert removed.disk == share.disk;
    }
  }

  lemma ShareOfLeaked(s: Store, subject: string, id: string, dir: Directory)
    requires id !in s.records
    ensures Share(s.(disk := s.disk[id := dir]), subject) == Share(s, subject)
  {
    var leaked, share := Share(s.(disk := s.disk[id := dir]), subject), Share(s, subject);
    assert leaked.records == share.records;
    assert leaked.disk == share.disk;
  }

  lemma ShareOfAdded(s: Store, subject: string, id: string, r: Record, dir: Directory)
    requires id !in s.records && r.owner == subject
    ensures Share(Store(s.records[id := r], s.disk[id := dir]), subject)
         == Store(Share(s, subject).records[id := r], Share(s, subject).disk[id := dir])
  {
    var added, share := Share(Store(s.records[id := r], s.disk[id := dir]), subject), Share(s, subject);
    assert added.records == share.records[id := r];
    assert added.disk == share.disk[id := dir];
  }

  lemma ShareWithoutAdded(s: Store, subject: string, id: string, r: Record, dir: Directory)
    requires id !in s.records && r.owner != subject
    ensures Share(Store(s.records[id := r], s.disk[id := dir]), subject) == Share(s, subject)
  {
    var added, share := Share(Store(s.records[id := r], s.disk[id := dir]), subject), Share(s, subject);
    assert added.records == share.records;
    assert added.disk == share.disk;
  }

  lemma ShareTwice(s: Store, subject: string)
    ensures Share(Share(s, subject), subject) == Share(s, subject)
  {
    assert Share(Share(s, subject), subject).records == Share(s, subject).records;
    assert Share(Share(s, subject), subject).disk == Share(s, subject).disk;
  }

  lemma LookupInShare(s: Store, raw: string, context: AccessContext)
    ensures Lookup(Share(s, context.subject), raw, context) == Lookup(s, raw, context)
    ensures var found := Lookup(s, raw, context);
      found.Some? ==>
        var id, share := found.value, Share(s, context.subject);
        s.records[id].owner == context.subject && share.records[id] == s.records[id]
          && Content(share, id) == Content(s, id)
  {
    hide AttachmentId, Verified;
  }

  // ---------------------------------------------------------------- one call

  ghost predicate New(s: Store, op: Op) {
    op.Stage? ==> op.id !in s.records && op.id !in s.disk
  }

  /** A call of another subject leaves the share alone. */
  lemma ForeignCall(config: Config, s: Store, op: Op, subject: string)
    requires New(s, op) && !Mine(Call(op, 0), subject)
    ensures Share(Perform(config, s, op).0, subject) == Share(s, subject)
  {
    hide Lookup, Content, Screen, CopyError, RecordError, Complete, Share;
    match op
    case Stage(up, context, id, createdAt) =>
      var r := NewRecord(config, up, context, id, createdAt);
      ShareWithoutAdded(s, subject, id, r, Complete(r));
      ShareOfLeaked(s, subject, id, PayloadAlone(r));
    case Read(raw, context) =>
      LookupInShare(s, raw, context);
      if Lookup(s, raw, context).Some? { ShareOfEnded(s, subject, Lookup(s, raw, context).value, Missing); }
    case Consume(raw, context) =>
      LookupInShare(s, raw, context);
      if Lookup(s, raw, context).Some? {
        ShareOfEnded(s, subject, Lookup(s, raw, context).value, Missing);
        ShareOfEnded(s, subject, Lookup(s, raw, context).value, Consumed);
      }
    case Discard(raw, context) =>
      LookupInShare(s, raw, context);
      if Lookup(s, raw, context).Some? { ShareOfRemoved(s, subject, Lookup(s, raw, context).value); }
    case Sweep =>
  }

  ghost predicate Suffices(config: Config, s: Store, op: Op, subject: string) {
    var share := Share(s, subject);
    && Perform(config, share, op).1 == Perform(config, s, op).1
    && Share(Perform(config, share, op).0, subject) == Share(Perform(config, s, op).0, subject)
  }

  /** Given a new id, staging looks at the upload alone. */
  lemma StageOutcome(config: Config, s1: Store, s2: Store, op: Op)
    requires op.Stage? && New(s1, op) && New(s2, op)
    ensures Perform(config, s1, op).1 == Perform(config, s2, op).1
  {
    hide Screen, CopyError, RecordError, Complete, NewRecord;
  }

  lemma ShareOfStage(config: Config, s: Store, op: Op)
    requires op.Stage? && New(s, op)
    ensures var subject := op.context.subject;
      Share(Perform(config, s, op).0, subject) ==
        if Perform(config, s, op).1.result.Err? then Share(s, subject)
        else var r := NewRecord(config, op.upload, op.context, op.id, op.createdAt);
             Store(Share(s, subject).records[op.id := r], Share(s, subject).disk[op.id := Complete(r)])
  {
    var r := NewRecord(config, op.upload, op.context, op.id, op.createdAt);
    StageCases(config, s, op);
    hide Perform, Complete, Share, PayloadAlone, Flatten, BaseName, MediaType;
    ShareOfAdded(s, op.context.subject, op.id, r, Complete(r));
    ShareOfLeaked(s, op.context.subject, op.id, PayloadAlone(r));
  }

  lemma OwnStage(config: Config, s: Store, op: Op)
    requires op.Stage? && New(s, op)
    ensures Suffices(config, s, op, op.context.subject)
  {
    var share := Share(s, op.context.subject);
    ShareTwice(s, op.context.subject);
    assert New(share, op);
    hide Perform, Share, Complete, NewRecord;
    StageOutcome(config, s, share, op);
    ShareOfStage(config, s, op);
    ShareOfStage(config, share, op);
  }

  lemma OwnRead(config: Config, s: Store, op: Op)
    requires op.Read?
    ensures Suffices(config, s, op, op.context.subject)
  {
    var subject, found := op.context.subject, Lookup(s, op.raw, op.context);
    var share := Share(s, subject);
    ShareTwice(s, subject);
    LookupInShare(s, op.raw, op.context);
    hide Lookup, Content, Share, Ended;
    if found.Some? {
      ShareOfEnded(s, subject, found.value, Missing);
      ShareOfEnded(share, subject, found.value, Missing);
    }
  }

  lemma OwnConsume(config: Config, s: Store, op: Op)
    requires op.Consume?
    ensures Suffices(config, s, op, op.context.subject)
  {
    var subject, found := op.context.subject, Lookup(s, op.raw, op.context);
    var share := Share(s, subject);
    ShareTwice(s, subject);
    LookupInShare(s, op.raw, op.context);
    hide Lookup, Content, Share, Ended;
    if found.Some? {
      ShareOfEnded(s, subject, found.value, Missing);
      ShareOfEnded(share, subject, found.value, Missing);
      ShareOfEnded(s, subject, found.value, Consumed);
      ShareOfEnded(share, subject, found.value, Consumed);
    }
  }

  lemma OwnDiscard(config: Config, s: Store, op: Op)
    requires op.Discard?
    ensures Suffices(config, s, op, op.context.subject)
  {
    var subject, found := op.context.subject, Lookup(s, op.raw, op.context);
    var share := Share(s, subject);
    ShareTwice(s, subject);
    LookupInShare(s, op.raw, op.context);
    hide Lookup, Share, Forgotten;
    if found.Some? {
      ShareOfRemoved(s, subject, found.value);
      ShareOfRemoved(share, subject, found.value);
    }
  }

  /** The subject's own call needs no more than the share. */
  lemma OwnCall(config: Config, s: Store, op: Op, subject: string)
    requires New(s, op) && Mine(Call(op, 0), subject)
    ensures Suffices(config, s, op, subject)
  {
    hide Suffices;
    match op
    case Stage(_, _, _, _) => OwnStage(config, s, op);
    case Read(_, _) => OwnRead(config, s, op);
    case Consume(_, _) => OwnConsume(config, s, op);
    case Discard(_, _) => OwnDiscard(config, s, op);
  }

  // ---------------------------------------------------------------- runs

  /** The subject cannot tell the two stores apart from time t on. */
  ghost predicate Alike(s1: Store, s2: Store, subject: string, t: int) {
    Cleanup(Share(s1, subject), t) == Cleanup(Share(s2, subject), t)
  }

  lemma AlikeLater(s1: Store, s2: Store, subject: string, t: int, later: int)
    requires Alike(s1, s2, subject, t) && t <= later
    ensures Alike(s1, s2, subject, later)
  {
    CleanupComposes(Share(s1, subject), t, later);
    CleanupComposes(Share(s2, subject), t, later);
  }

  lemma NewAfterCleanup(issued: map<string, Record>, s: Store, op: Op, now: int)
    requires Quiet(issued, s) && FreshId(issued, op)
    ensures New(Cleanup(s, now), op)
  {
    FreshIsNew(issued, s, op);
    hide Quiet, GeneratedId;
  }

  lemma AfterForeignCall(config: Config, issued: map<string, Record>, s1: Store, s2: Store, op: Op,
      subject: string, now: int)
    requires Quiet(issued, s1) && FreshId(issued, op) && !Mine(Call(op, now), subject) && Alike(s1, s2, subject, now)
    ensures Alike(Apply(config, s1, op, now).0, s2, subject, now)
  {
    NewAfterCleanup(issued, s1, op, now);
    hide Quiet, FreshId, Cleanup, Share, Perform;
    ForeignCall(config, Cleanup(s1, now), op, subject);
    ShareOfCleanup(s1, subject, now);
    CleanupComposes(Share(s1, subject), now, now);
  }

  lemma AfterOwnCall(config: Config, issued: map<string, Record>, s1: Store, s2: Store, op: Op, subject: string,
      now: int)
    requires Quiet(issued, s1) && Quiet(issued, s2) && FreshId(issued, op)
    requires Mine(Call(op, now), subject) && Alike(s1, s2, subject, now)
    ensures Apply(config, s1, op, now).1 == Apply(config, s2, op, now).1
    ensures Alike(Apply(config, s1, op, now).0, Apply(config, s2, op, now).0, subject, now)
  {
    NewAfterCleanup(issued, s1, op, now);
    NewAfterCleanup(issued, s2, op, now);
    hide Quiet, FreshId, Cleanup, Share, Perform;
    OwnCall(config, Cleanup(s1, now), op, subject);
    OwnCall(config, Cleanup(s2, now), op, subject);
    ShareOfCleanup(s1, subject, now);
    ShareOfCleanup(s2, subject, now);
  }

  /** What a restart at time now keeps of a cleaned share. */
  ghost function Offered(s: Store): Store {
    Store(map id | id in s.records && s.records[id].status == Available && Readable(s.records[id]) :: s.records[id],
          map id | id in s.disk && id in s.records && s.records[id].status == Available && Readable(s.records[id]) ::
            s.disk[id])
  }

  lemma OfferedShare(s: Store, s': Store, subject: string, now: int)
    requires forall id :: id in s'.records <==>
      id in s.records && s.records[id].status == Available && s.records[id].expiresAt > now && Readable(s.records[id])
    requires forall id | id in s'.records ::
      id in s.disk && s'.records[id] == s.records[id] && id in s'.disk && s'.disk[id] == s.disk[id]
    requires s'.disk.Keys == s'.records.Keys
    ensures Share(s', subject) == Offered(Cleanup(Share(s, subject), now))
  {
    hide Readable;
    var restarted, offered := Share(s', subject), Offered(Cleanup(Share(s, subject), now));
    OfferedCleanup(Share(s, subject), now);
    hide Cleanup, Doomed;
    assert restarted.records == offered.records;
    assert restarted.disk == offered.disk;
  }

  lemma OfferedCleanup(s: Store, now: int)
    ensures var offered := Offered(Cleanup(s, now));
      && (forall id :: id in offered.records <==>
            id in s.records && s.records[id].status == Available && s.records[id].expiresAt > now
              && Readable(s.records[id]))
      && (forall id | id in offered.records :: offered.records[id] == s.records[id])
      && (forall id :: id in offered.disk <==> id in offered.records && id in s.disk)
      && (forall id | id in offered.disk :: offered.disk[id] == s.disk[id])
  {
    hide EndsWith;
  }

  lemma ShareOfRestart(config: Config, issued: map<string, Record>, s: Store, subject: string, now: int)
    requires AllGenuine(config, issued) && Quiet(issued, s)
    ensures Share(Restart(config, s.disk, now), subject) == Offered(Cleanup(Share(s, subject), now))
  {
    hide AllGenuine, Restart, Readable, Share, Offered, Cleanup;
    RestartExact(config, issued, s, now);
    forall id | id in s.records ensures s.records[id].status == Available ==> id in s.disk {
      assert QuietRecord(issued, s, id);
    }
    OfferedShare(s, Restart(config, s.disk, now), subject, now);
  }

  /** The subject's observations are the same when every call of the others is left out. */
  lemma {:induction false} Isolated(config: Config, issued: map<string, Record>, s1: Store, s2: Store,
      events: seq<Event>, subject: string, t: int)
    requires AllGenuine(config, issued) && Quiet(issued, s1) && Quiet(issued, s2) && Alike(s1, s2, subject, t)
    requires Ordered(events, t) && FreshIds(config, issued, events)
    ensures Observations(config, s1, events, subject) == Observations(config, s2, Purged(events, subject), subject)
    decreases |events|
  {
    if events != [] {
      var e, rest := events[0], events[1..];
      var kept := Purged(rest, subject);
      hide AllGenuine, Quiet, Alike, FreshId, Apply, Restart, Issue;
      AlikeLater(s1, s2, subject, t, e.now);
      if e.Call? {
        var issued' := Issue(config, issued, e.op);
        IssueIsGenuine(config, issued, e.op);
        ApplyIsQuiet(config, issued, s1, e.op, e.now);
        if Mine(e, subject) {
          ApplyIsQuiet(config, issued, s2, e.op, e.now);
          AfterOwnCall(config, issued, s1, s2, e.op, subject, e.now);
          Isolated(config, issued', After(config, s1, e), After(config, s2, e), rest, subject, e.now);
          assert ([e] + kept)[1..] == kept;
        } else {
          IssueKeepsQuiet(config, issued, s2, e.op);
          AfterForeignCall(config, issued, s1, s2, e.op, subject, e.now);
          Isolated(config, issued', After(config, s1, e), s2, rest, subject, e.now);
          assert Purged(events, subject) == kept;
        }
      } else {
        AfterReboot(config, issued, s1, s2, subject, e.now);
        Isolated(config, issued, After(config, s1, e), After(config, s2, e), rest, subject, e.now);
        assert ([e] + kept)[1..] == kept;
      }
    }
  }

  lemma IssueKeepsQuiet(config: Config, issued: map<string, Record>, s: Store, op: Op)
    requires Quiet(issued, s) && FreshId(issued, op)
    ensures Quiet(Issue(config, issued, op), s)
  {
    hide Quiet, Goal, GeneratedId;
    if op.Stage? && Goal(config, op).Some? { QuietGrows(issued, s, op.id, Goal(config, op).value); }
  }

  lemma AfterReboot(config: Config, issued: map<string, Record>, s1: Store, s2: Store, subject: string, now: int)
    requires AllGenuine(config, issued) && Quiet(issued, s1) && Quiet(issued, s2) && Alike(s1, s2, subject, now)
    ensures Quiet(issued, Restart(config, s1.disk, now)) && Quiet(issued, Restart(config, s2.disk, now))
    ensures Alike(Restart(config, s1.disk, now), Restart(config, s2.disk, now), subject, now)
  {
    hide AllGenuine, Quiet, SoundDisk, Restart, Share, Cleanup, Offered;
    QuietIsSound(issued, s1);
    QuietIsSound(issued, s2);
    RestartIsQuiet(config, issued, s1.disk, now);
    RestartIsQuiet(config, issued, s2.disk, now);
    ShareOfRestart(config, issued, s1, subject, now);
    ShareOfRestart(config, issued, s2, subject, now);
  }

  /** From an empty store on, whatever the other subjects stage, read, consume or discard. */
  lemma OnlyOwnCallsMatter(config: Config, events: seq<Event>, subject: string, t: int)
    requires Ordered(events, t) && FreshIds(config, map[], events)
    ensures var empty := Store(map[], map[]);
      Observations(config, empty, events, subject) == Observations(config, empty, Purged(events, subject), subject)
  {
    var empty := Store(map[], map[]);
    Isolated(config, map[], empty, empty, events, subject, t);
  }

  // ---------------------------------------------------------------- what the subject is told

  ghost function AfterAll(config: Config, s: Store, events: seq<Event>): Store
    decreases |events|
  {
    if events == [] then s else AfterAll(config, After(config, s, events[0]), events[1..])
  }

  /** What the subject is told along a run: the answer of each call of its own, given at the store of that moment. */
  lemma {:induction false} ToldInOrder(config: Config, s: Store, a: seq<Event>, e: Event, subject: string)
    ensures var before := AfterAll(config, s, a);
      Observations(config, s, a + [e], subject) == Observations(config, s, a, subject)
        + if e.Call? && !e.op.Sweep? && e.op.context.subject == subject
          then [Apply(config, before, e.op, e.now).1] else []
    ensures var before := AfterAll(config, s, a);
      AfterAll(config, s, a + [e]) ==
        if e.Call? then Apply(config, before, e.op, e.now).0 else Restart(config, before.disk, e.now)
    decreases |a|
  {
    hide Apply, Restart;
    if a == [] {
      assert [] + [e] == [e] && [e][1..] == [];
      assert Observations(config, After(config, s, e), [], subject) == [];
    } else {
      assert (a + [e])[0] == a[0] && (a + [e])[1..] == a[1..] + [e];
      ToldInOrder(config, After(config, s, a[0]), a[1..], e, subject);
    }
  }

  /** Positions in order, exactly those of the restarts and of the subject's own calls. */
  ghost predicate OwnPositions(events: seq<Event>, subject: string, kept: seq<nat>) {
    && (forall i, j | 0 <= i < j < |kept| :: kept[i] < kept[j])
    && (forall p: nat :: p in kept <==>
          && p < |events|
          && (events[p].Reboot? || (!events[p].op.Sweep? && events[p].op.context.subject == subject)))
  }

  ghost predicate EventsAt(part: seq<Event>, events: seq<Event>, kept: seq<nat>) {
    |part| == |kept| && forall i | 0 <= i < |kept| :: kept[i] < |events| && part[i] == events[kept[i]]
  }

  /** The purged run is the restarts and the subject's own calls, in order. */
  lemma {:induction false} PurgedIsOwn(events: seq<Event>, subject: string) returns (kept: seq<nat>)
    ensures OwnPositions(events, subject, kept) && EventsAt(Purged(events, subject), events, kept)
  {
    if events == [] {
      kept := [];
    } else {
      var rest := PurgedIsOwn(events[1..], subject);
      var moved := seq(|rest|, i requires 0 <= i < |rest| => rest[i] + 1);
      var own, later := events[0].Reboot? || Mine(events[0], subject), Purged(events[1..], subject);
      assert Purged(events, subject) == (if own then [events[0]] else []) + later;
      hide Purged, OwnPositions, EventsAt, Mine;
      OwnMoved(events, subject, rest, moved);
      EventsMoved(events, later, rest, moved);
      if own {
        kept := [0] + moved;
      } else {
        kept := moved;
        assert [] + later == later;
      }
    }
  }

  lemma EventsMoved(events: seq<Event>, part: seq<Event>, rest: seq<nat>, moved: seq<nat>)
    requires events != [] && EventsAt(part, events[1..], rest)
    requires |moved| == |rest| && forall i | 0 <= i < |rest| :: moved[i] == rest[i] + 1
    ensures EventsAt(part, events, moved) && EventsAt([events[0]] + part, events, [0] + moved)
  {
    forall i | 0 <= i < |rest| ensures moved[i] < |events| && part[i] == events[moved[i]] {
      assert events[1..][rest[i]] == events[moved[i]];
    }
  }

  lemma OwnMoved(events: seq<Event>, subject: string, rest: seq<nat>, moved: seq<nat>)
    requires events != [] && OwnPositions(events[1..], subject, rest)
    requires |moved| == |rest| && forall i | 0 <= i < |rest| :: moved[i] == rest[i] + 1
    ensures OwnPositions(events, subject,
      if events[0].Reboot? || Mine(events[0], subject) then [0] + moved else moved)
  {
    var own := events[0].Reboot? || Mine(events[0], subject);
    var kept := if own then [0] + moved else moved;
    forall p: nat
      ensures p in kept <==>
        && p < |events|
        && (events[p].Reboot? || (!events[p].op.Sweep? && events[p].op.context.subject == subject))
    {
      if p > 0 && p - 1 in rest {
        var i :| 0 <= i < |rest| && rest[i] == p - 1;
        assert moved[i] == p;
      }
      if p in moved {
        var i :| 0 <= i < |moved| && moved[i] == p;
        assert rest[i] == p - 1;
      }
      assert p in kept <==> p in moved || (own && p == 0);
      if 0 < p < |events| { assert events[1..][p - 1] == events[p]; }
    }
    forall i, j | 0 <= i < j < |kept| ensures kept[i] < kept[j] {}
  }
}
