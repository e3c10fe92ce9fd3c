/**
 * Temporary attachments: a table of records in memory and one directory per attachment on disk.
 * Times are in microseconds.  A hash is as good as the bytes it was taken of.
 */
module AttachmentStorage {
  import opened Outcomes
  import opened Text

  type Byte = b: int | 0 <= b < 256
  type Chunk = c: seq<Byte> | |c| > 0 witness [0]

  datatype Digest = Sha256(of: seq<Byte>)
  datatype Status = Available | Consumed | Expired | Missing

  datatype Reference = Reference(id: string, fileName: string, mediaType: string, sizeBytes: nat, digest: Digest)

  datatype Record = Record(
    reference: Reference, owner: string, conversation: Option<string>, expiresAt: int, status: Status)

  /** `Torn` is a manifest whose text is still incomplete. */
  datatype File = Data(bytes: seq<Byte>) | Manifest(record: Record) | Torn
  type Directory = map<string, File>
  type Disk = map<string, Directory>

  datatype Store = Store(records: map<string, Record>, disk: Disk)
  datatype Config = Config(maxSize: nat, retention: nat, mediaTypes: set<string>)

  /** The constructor's arguments, in the units of the settings: bytes and seconds. */
  datatype Settings = Settings(maxSizeBytes: int, retentionSeconds: int, allowedMediaTypes: seq<string>)
  datatype ConfigError = SizeNotPositive | RetentionNotPositive | NoMediaTypes

  datatype Caller = Caller(subject: string, conversation: Option<string>)
  type AccessContext = c: Caller | Stripped(c.subject) && (c.conversation.Some? ==> Stripped(c.conversation.value))
    witness (StripFixed("a"); Caller("a", None))

  /** The flags say which of the calls into the stream and the file system raises. */
  datatype Upload = Upload(
    fileName: string, mediaType: string, chunks: seq<Chunk>,
    streamBreaks: bool, renameFails: bool, manifestFails: bool)

  datatype StageError =
    BadName | BadMediaType | IdTaken | TooLarge | StreamBroken | EmptyFile | RenameFailed | BlankName | ManifestFailed

  datatype Op =
    | Stage(upload: Upload, context: AccessContext, id: string, createdAt: int)
    | Read(raw: string, context: AccessContext)
    | Consume(raw: string, context: AccessContext)
    | Discard(raw: string, context: AccessContext)
    | Sweep

  datatype Outcome =
    | Staged(result: Result<Reference, StageError>)
    | Delivered(reference: Reference, content: seq<Byte>)
    | Unavailable(status: Status, known: Option<Reference>)
    | Discarded(found: bool)
    | Swept(removed: nat)

  // ---------------------------------------------------------------- names

  predicate Stripped(s: string) {
    s != "" && Strip(s) == s
  }

  const MANIFEST := ".attachment.json"

  function PartFile(id: string): string { "." + id + ".part" }

  function ManifestPart(id: string): string { "." + id + ".manifest.part" }

  predicate Dotted(f: string) {
    f != "" && f[0] == '.'
  }

  /** The part of a path after its last slash. */
  function LastSegment(path: string): (r: string)
    ensures |r| <= |path| && r == path[|path| - |r|..] && '/' !in r
    ensures |r| < |path| ==> path[|path| - |r| - 1] == '/'
  {
    if path == "" || path[|path| - 1] == '/' then ""
    else LastSegment(path[..|path| - 1]) + [path[|path| - 1]]
  }

  /** `Path(path).name` on POSIX. */
  function BaseName(path: string): (r: string)
    ensures '/' !in r && r != "."
    decreases |path|
  {
    var last := LastSegment(path);
    if last != "" && last != "." then last
    else if |last| == |path| then ""
    else BaseName(path[..|path| - |last| - 1])
  }

  predicate SafeFileName(name: string) {
    name != "" && BaseName(name) == name && !Dotted(name)
  }

  lemma {:induction false} LastSegmentWhole(name: string)
    requires '/' !in name
    ensures LastSegment(name) == name
  {
    if name != "" { LastSegmentWhole(name[..|name| - 1]); }
  }

  /** A name taken from a path names the same file again. */
  lemma BaseNameIsSafe(path: string)
    requires BaseName(path) != "" && !Dotted(BaseName(path))
    ensures SafeFileName(BaseName(path))
  {
    LastSegmentWhole(BaseName(path));
  }

  lemma {:induction false} LastSegmentAfterSlash(dir: string, name: string)
    requires '/' !in name
    ensures LastSegment(dir + "/" + name) == name
  {
    var path := dir + "/" + name;
    if name == "" {
      assert path[|path| - 1] == '/';
    } else {
      var front := name[..|name| - 1];
      LastSegmentAfterSlash(dir, front);
      assert path[..|path| - 1] == dir + "/" + front;
    }
  }

  /** The name of a path is its last component; a slash or a dot component at its end does not count. */
  lemma BaseNameOfPath(dir: string, name: string)
    requires '/' !in name && name != "" && name != "."
    ensures BaseName(name) == name && BaseName(dir + "/" + name) == name
    ensures BaseName(dir + "/") == BaseName(dir) && BaseName(dir + "/.") == BaseName(dir)
    ensures BaseName("") == "" && BaseName(".") == ""
  {
    hide LastSegment, BaseName;
    LastSegmentWhole(name);
    LastSegmentAfterSlash(dir, name);
    NamelessPaths();
    BaseNameIs(name, name);
    BaseNameIs(dir + "/" + name, name);
    BaseNameSkips(dir, "");
    BaseNameSkips(dir, ".");
    assert dir + "/" + "" == dir + "/" && dir + "/" + "." == dir + "/.";
  }

  lemma NamelessPaths()
    ensures BaseName("") == "" && BaseName(".") == ""
  {
    LastSegmentWhole(".");
  }

  lemma BaseNameIs(path: string, name: string)
    requires LastSegment(path) == name && name != "" && name != "."
    ensures BaseName(path) == name
  {
    hide LastSegment;
  }

  lemma BaseNameSkips(dir: string, last: string)
    requires last == "" || last == "."
    ensures BaseName(dir + "/" + last) == BaseName(dir)
  {
    var path := dir + "/" + last;
    LastSegmentAfterSlash(dir, last);
    assert path[..|path| - |last| - 1] == dir;
    hide LastSegment;
  }

  lemma SafeNames(name: string)
    ensures SafeFileName(name) <==> name != "" && '/' !in name && name[0] != '.'
  {
    if '/' !in name { LastSegmentWhole(name); }
    hide LastSegment;
  }

  predicate HexDigit(c: char) {
    '0' <= c <= '9' || 'a' <= c <= 'f'
  }

  predicate GeneratedId(id: string) {
    |id| == 32 && forall i | 0 <= i < |id| :: HexDigit(id[i])
  }

  /** `_attachment_id`, which accepts upper-case digits too. */
  function AttachmentId(raw: string): Option<string> {
    var id := Strip(raw);
    if |id| == 32 && forall i | 0 <= i < |id| :: HexDigit(id[i]) || 'A' <= id[i] <= 'F' then Some(id) else None
  }

  function MediaTypes(allowed: seq<string>): set<string> {
    set t | t in allowed && !Blank(t) :: Lower(Strip(t))
  }

  /** What the constructor makes of its arguments. */
  function Configured(s: Settings): (r: Result<Config, ConfigError>)
    ensures r.Ok? <==> s.maxSizeBytes > 0 && s.retentionSeconds > 0 && exists t :: t in s.allowedMediaTypes && !Blank(t)
  {
    var mediaTypes := MediaTypes(s.allowedMediaTypes);
    NoTypes(s.allowedMediaTypes);
    if s.maxSizeBytes <= 0 then Err(SizeNotPositive)
    else if s.retentionSeconds <= 0 then Err(RetentionNotPositive)
    else if mediaTypes == {} then Err(NoMediaTypes)
    else Ok(Config(s.maxSizeBytes, s.retentionSeconds * 1_000_000, mediaTypes))
  }

  lemma NoTypes(allowed: seq<string>)
    ensures MediaTypes(allowed) == {} <==> forall t | t in allowed :: Blank(t)
  {
    hide Blank, Lower, Strip;
    if t :| t in allowed && !Blank(t) { assert Lower(Strip(t)) in MediaTypes(allowed); }
  }

  /** The same text, but for the case of the letters a to z. */
  predicate SameText(a: string, b: string) {
    |a| == |b| && forall i | 0 <= i < |a| ::
      || a[i] == b[i]
      || ('A' <= a[i] <= 'Z' && b[i] as int == a[i] as int + 32)
      || ('A' <= b[i] <= 'Z' && a[i] as int == b[i] as int + 32)
  }

  lemma LowerFolds(a: string, b: string)
    ensures Lower(a) == Lower(b) <==> SameText(a, b)
  {
    if Lower(a) == Lower(b) {
      forall i | 0 <= i < |a|
        ensures || a[i] == b[i]
                || ('A' <= a[i] <= 'Z' && b[i] as int == a[i] as int + 32)
                || ('A' <= b[i] <= 'Z' && a[i] as int == b[i] as int + 32)
      {
        assert Lower(a)[i] == Lower(b)[i];
      }
    }
  }

  /**
   * The limits of a storage are those of its settings, in bytes and microseconds, and it accepts a media
   * type exactly if some allowed one is the same but for letter case and surrounding blanks.
   */
  lemma ConfiguredLimits(s: Settings, mediaType: string)
    requires Configured(s).Ok?
    ensures var config := Configured(s).value;
      && config.maxSize == s.maxSizeBytes && config.retention == s.retentionSeconds * 1_000_000
      && (Lower(Strip(mediaType)) in config.mediaTypes <==>
            exists t :: t in s.allowedMediaTypes && Strip(t) != "" && SameText(Strip(t), Strip(mediaType)))
  {
    forall t ensures Strip(t) == "" <==> Blank(t) { StripEmpty(t); }
    forall t ensures Lower(Strip(t)) == Lower(Strip(mediaType)) <==> SameText(Strip(t), Strip(mediaType)) {
      LowerFolds(Strip(t), Strip(mediaType));
    }
    hide Blank, Lower, Strip, SameText;
  }

  // ---------------------------------------------------------------- one directory

  predicate Payload(f: string) {
    !EndsWith(f, ".part") && !Dotted(f)
  }

  ghost predicate OnlyPayload(dir: Directory, f: string) {
    f in dir && Payload(f) && forall g | g in dir && Payload(g) :: g == f
  }

  /** `_read_verified_content`: the one payload file, if its size and hash are as recorded. */
  ghost function Verified(r: Record, dir: Directory): Option<seq<Byte>> {
    if exists f :: OnlyPayload(dir, f) then
      var f :| OnlyPayload(dir, f);
      if dir[f].Data? && |dir[f].bytes| == r.reference.sizeBytes && Sha256(dir[f].bytes) == r.reference.digest
      then Some(dir[f].bytes) else None
    else None
  }

  /** `_read_manifest` */
  function ReadManifest(config: Config, id: string, dir: Directory): Option<Record> {
    if MANIFEST !in dir || !dir[MANIFEST].Manifest? then None
    else
      var r := dir[MANIFEST].record;
      if || r.reference.id != id || !GeneratedId(id) || Blank(r.reference.fileName)
         || r.reference.mediaType !in config.mediaTypes || !SafeFileName(r.reference.fileName)
         || Blank(r.owner) || (r.conversation.Some? && Blank(r.conversation.value))
      then None
      else Some(r.(owner := Strip(r.owner),
                   conversation := if r.conversation.Some? then Some(Strip(r.conversation.value)) else None))
  }

  ghost function Restored(config: Config, id: string, dir: Directory, now: int): Option<Record> {
    match ReadManifest(config, id, dir)
    case None => None
    case Some(r) =>
      if r.status == Available && r.expiresAt > now && Verified(r, dir).Some? then Some(r) else None
  }

  /** `_restore_records`: what a restarted process finds. */
  ghost function Restart(config: Config, disk: Disk, now: int): Store {
    Store(map id | id in disk && Restored(config, id, disk[id], now).Some? :: Restored(config, id, disk[id], now).value,
          disk - Unrestorable(config, disk, now))
  }

  ghost function Unrestorable(config: Config, disk: Disk, now: int): set<string> {
    set id | id in disk && Restored(config, id, disk[id], now).None?
  }

  // ---------------------------------------------------------------- cleanup

  function Due(records: map<string, Record>, now: int): set<string> {
    set id | id in records && records[id].status == Available && records[id].expiresAt <= now
  }

  function Marked(records: map<string, Record>, ids: set<string>, status: Status): map<string, Record> {
    map id | id in records :: if id in ids then records[id].(status := status) else records[id]
  }

  function Doomed(s: Store, now: int): set<string> {
    Due(s.records, now) + (s.disk.Keys - s.records.Keys)
  }

  /** `cleanup_expired`, with which every operation begins. */
  function Cleanup(s: Store, now: int): Store {
    Store(Marked(s.records, Due(s.records, now), Expired), s.disk - Doomed(s, now))
  }

  // ---------------------------------------------------------------- the operations

  predicate VisibleTo(r: Record, context: AccessContext) {
    r.owner == context.subject && (r.conversation.None? || r.conversation == context.conversation)
  }

  /** `_record_for_context` */
  function Lookup(s: Store, raw: string, context: AccessContext): (found: Option<string>)
    ensures found.Some? ==> found.value in s.records
  {
    match AttachmentId(raw)
    case None => None
    case Some(id) => if id in s.records && VisibleTo(s.records[id], context) then Some(id) else None
  }

  ghost function Content(s: Store, id: string): Option<seq<Byte>>
    requires id in s.records
  {
    if id in s.disk then Verified(s.records[id], s.disk[id]) else None
  }

  function Ended(s: Store, id: string, status: Status): Store
    requires id in s.records
  {
    Store(s.records[id := s.records[id].(status := status)], s.disk - {id})
  }

  function Forgotten(s: Store, id: string): Store {
    Store(s.records - {id}, s.disk - {id})
  }

  function Flatten(chunks: seq<Chunk>): seq<Byte> {
    if chunks == [] then [] else Flatten(chunks[..|chunks| - 1]) + chunks[|chunks| - 1]
  }

  /** The content is the chunks one after the other: chunk i lies where the chunks before it end. */
  lemma {:induction false} FlattenInOrder(chunks: seq<Chunk>, i: nat)
    requires i < |chunks|
    ensures var start, end := |Flatten(chunks[..i])|, |Flatten(chunks[..i + 1])|;
      start <= end <= |Flatten(chunks)| && Flatten(chunks)[start..end] == chunks[i]
    ensures Flatten(chunks[..0]) == []
    ensures Flatten(chunks[..|chunks|]) == Flatten(chunks)
    decreases |chunks|
  {
    var front := chunks[..|chunks| - 1];
    assert chunks[..|chunks|] == chunks;
    if i < |front| {
      FlattenInOrder(front, i);
      assert front[..i] == chunks[..i] && front[..i + 1] == chunks[..i + 1];
    } else {
      assert chunks[..i + 1] == chunks && chunks[..i] == front;
    }
  }

  function MediaType(up: Upload): string {
    Lower(Strip(up.mediaType))
  }

  /** What is checked before anything is written. */
  function Screen(config: Config, up: Upload): Option<StageError> {
    var name := BaseName(up.fileName);
    if name == "" || Dotted(name) then Some(BadName)
    else if MediaType(up) !in config.mediaTypes then Some(BadMediaType)
    else None
  }

  /** What goes wrong while the payload is copied. */
  function CopyError(config: Config, up: Upload): Option<StageError> {
    var size := |Flatten(up.chunks)|;
    if size > config.maxSize then Some(TooLarge)
    else if up.streamBreaks then Some(StreamBroken)
    else if size == 0 then Some(EmptyFile)
    else if up.renameFails then Some(RenameFailed)
    else None
  }

  /** What goes wrong once the payload is in place. */
  function RecordError(up: Upload): Option<StageError> {
    if Blank(BaseName(up.fileName)) then Some(BlankName)
    else if up.manifestFails then Some(ManifestFailed)
    else None
  }

  function NewRecord(config: Config, up: Upload, context: AccessContext, id: string, createdAt: int): Record {
    var content := Flatten(up.chunks);
    Record(Reference(id, BaseName(up.fileName), MediaType(up), |content|, Sha256(content)),
           context.subject, context.conversation, createdAt + config.retention, Available)
  }

  function Complete(r: Record): Directory {
    map[r.reference.fileName := Data(r.reference.digest.of), MANIFEST := Manifest(r)]
  }

  function PayloadAlone(r: Record): Directory {
    map[r.reference.fileName := Data(r.reference.digest.of)]
  }

  /** An operation on a store that has been cleaned up. */
  ghost function Perform(config: Config, s: Store, op: Op): (Store, Outcome) {
    match op
    case Stage(up, context, id, createdAt) =>
      if Screen(config, up).Some? then (s, Staged(Err(Screen(config, up).value)))
      else if id in s.disk then (s, Staged(Err(IdTaken)))
      else if CopyError(config, up).Some? then (s, Staged(Err(CopyError(config, up).value)))
      else
        var r := NewRecord(config, up, context, id, createdAt);
        (match RecordError(up)
         case Some(BlankName) =>
           (s.(disk := s.disk[id := PayloadAlone(r)]), Staged(Err(BlankName)))
         case Some(e) => (s, Staged(Err(e)))
         case None => (Store(s.records[id := r], s.disk[id := Complete(r)]), Staged(Ok(r.reference))))
    case Read(raw, context) =>
      (match Lookup(s, raw, context)
       case None => (s, Unavailable(Missing, None))
       case Some(id) =>
         var r := s.records[id];
         if r.status != Available then (s, Unavailable(r.status, Some(r.reference)))
         else if Content(s, id).None? then (Ended(s, id, Missing), Unavailable(Missing, Some(r.reference)))
         else (s, Delivered(r.reference, Content(s, id).value)))
    case Consume(raw, context) =>
      (match Lookup(s, raw, context)
       case None => (s, Unavailable(Missing, None))
       case Some(id) =>
         var r := s.records[id];
         if r.status != Available then (s, Unavailable(r.status, Some(r.reference)))
         else if Content(s, id).None? then (Ended(s, id, Missing), Unavailable(Missing, Some(r.reference)))
         else (Ended(s, id, Consumed), Delivered(r.reference, Content(s, id).value)))
    case Discard(raw, context) =>
      (match Lookup(s, raw, context)
       case None => (s, Discarded(false))
       case Some(id) => (Forgotten(s, id), Discarded(true)))
    case Sweep => (s, Swept(0))
  }

  ghost function Apply(config: Config, s: Store, op: Op, now: int): (Store, Outcome) {
    var (s', outcome) := Perform(config, Cleanup(s, now), op);
    (s', if op.Sweep? then Swept(|Doomed(s, now) * s.disk.Keys|) else outcome)
  }

  /** Cleaning up twice is cleaning up at the later time. */
  lemma CleanupComposes(s: Store, t1: int, t2: int)
    requires t1 <= t2
    ensures Cleanup(Cleanup(s, t1), t2) == Cleanup(s, t2)
  {
    var once := Cleanup(s, t1);
    assert Marked(once.records, Due(once.records, t2), Expired) == Marked(s.records, Due(s.records, t2), Expired);
    assert Cleanup(once, t2).disk == Cleanup(s, t2).disk;
  }

  /** A staging publishes its record, or leaves the store alone, or leaves the payload alone behind. */
  lemma StageCases(config: Config, s: Store, op: Op)
    requires op.Stage?
    ensures var (after, outcome) := Perform(config, s, op);
      var r := NewRecord(config, op.upload, op.context, op.id, op.createdAt);
      && outcome.Staged?
      && (outcome.result.Ok? ==>
            outcome.result.value == r.reference && after == Store(s.records[op.id := r], s.disk[op.id := Complete(r)]))
      && (outcome.result.Err? ==> after == s || after == s.(disk := s.disk[op.id := PayloadAlone(r)]))
  {
    hide Screen, CopyError, RecordError, Complete, PayloadAlone, NewRecord;
  }

  /** The uploads whose payload is in place when the reference turns out to have a blank name. */
  predicate LeavesPayload(config: Config, s: Store, op: Op)
    requires op.Stage?
  {
    && Screen(config, op.upload).None? && op.id !in s.disk
    && CopyError(config, op.upload).None? && Blank(BaseName(op.upload.fileName))
  }

  /**
   * A failed staging leaves the store as it was, except after those uploads; and the next cleanup
   * undoes it in any case.
   */
  lemma FailedStaging(config: Config, s: Store, op: Op, now: int)
    requires op.Stage? && op.id !in s.records
    ensures Perform(config, s, op).1.Staged?
    ensures Perform(config, s, op).1.result.Err? && Perform(config, s, op).0 != s <==> LeavesPayload(config, s, op)
    ensures Perform(config, s, op).1.result.Err? ==> Cleanup(Perform(config, s, op).0, now) == Cleanup(s, now)
  {
    hide Screen, CopyError, BaseName, Blank, MediaType, Flatten;
    StageCases(config, s, op);
    var after := Perform(config, s, op).0;
    if Perform(config, s, op).1.result.Err? {
      assert after.records == s.records;
      assert after != s ==> op.id in after.disk && op.id !in s.disk;
      assert Cleanup(after, now).disk == Cleanup(s, now).disk;
    }
  }
}
