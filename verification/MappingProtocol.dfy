/** The mapping table as a protocol between kubelet, the file watcher, the reload
    goroutine and the request goroutines. A reload is not atomic: it takes the
    lock, opens the file, reads it in pieces and only then parses and assigns. */
module MappingProtocol {
  import opened Strings

  type Table = map<string, string>

  /** json.Unmarshal into a map of strings: any function of the bytes. */
  type Parser = string -> Option<Table>

  /** The link kubelet swaps when it updates a projected volume. */
  const KUBELET_DATA_SYMLINK := "..data"

  predicate Relevant(base: string, name: string) {
    name == KUBELET_DATA_SYMLINK || name == base
  }

  function Get(table: Table, key: string): Option<string> {
    if key in table then Some(table[key]) else None
  }

  /** The end of loadMappings: what was read (None when opening or reading failed)
      either becomes the table as a whole or leaves it alone. */
  function AfterLoad(parse: Parser, table: Table, read: Option<string>): (r: (Table, bool))
    ensures r.1 <==> read.Some? && parse(read.value).Some?
    ensures r.0 == if r.1 then parse(read.value).value else table
  {
    match read
    case None => (table, false)
    case Some(data) =>
      match parse(data)
      case None => (table, false)
      case Some(parsed) => (parsed, true)
  }

  datatype Phase =
    | Starting   // the first load has not finished
    | Rejected   // the first load failed: no manager is returned
    | Unwatched  // loaded, the watch goroutine has not registered yet
    | Watching
    | Deaf       // registration failed or the event channel was closed

  /** The goroutine that may be inside loadMappings. Anything but Free holds the lock.
      `torn` records an in-place write to the very file being read. */
  datatype Loader = Free | Locked | Reading(inode: nat, data: string, torn: bool)

  /** What a table was made from. */
  datatype Source = Nothing | Whole(data: string, torn: bool)

  datatype Answer = Answer(source: Source, key: string, namespace: Option<string>)

  /** The MappingManager: its table, and what became of the last load. */
  datatype Manager = Manager(table: Table, lastLoadFailed: bool, source: Source)

  /** The mapped directory: contents by inode, old files included, and the inode the
      mapping path leads to. The rest is history: every content a file ever had. */
  datatype Disk = Disk(files: map<nat, string>, current: Option<nat>, published: set<string>)

  /** Undelivered events, by base name. The rest is history: whether the watcher dropped an
      event; whether contents changed between the first load, once it had opened the file, and
      the registration of the watch; whether a relevant event was queued since; and whether the
      table was current at the registration. */
  datatype Channel = Channel(queue: seq<string>, eventLost: bool, changedBeforeWatch: bool,
                             relevantSinceWatch: bool, currentAtWatch: bool)

  datatype State = State(
    phase: Phase,
    loader: Loader,
    manager: Manager,
    disk: Disk,
    channel: Channel,
    answers: map<nat, Answer>)  // by request

  /** The steps of loadMappings. */
  datatype LoadStep =
    | TakeLock  // by NewMappingManager; the event loop takes the lock in Deliver
    | Open
    | ReadChunk(length: nat)
    | ReadFails
    | Finish    // end of file: parse and assign

  /** What happens in the mapped directory. */
  datatype FileStep =
    // a kubelet swap, or a rename onto the file: the path leads to a new inode
    | Replace(name: string, inode: nat, content: string, lost: bool)
    | WriteInPlace(content: string, lost: bool)
    | Remove(name: string, lost: bool)

  /** The steps of watchFile. */
  datatype WatchStep =
    | Register
    | RegisterFails
    | ChannelCloses
    | OtherEvent(name: string)  // any event without a change of contents is queued
    | Deliver                   // the event loop takes one event

  datatype Step =
    | Load(load: LoadStep)
    | File(file: FileStep)
    | Watch(watch: WatchStep)
    | Lookup(request: nat, key: string)

  predicate LoadEnabled(s: State, step: LoadStep) {
    match step
    case TakeLock => s.phase == Starting && s.loader == Free
    case Open => s.loader == Locked
    case ReadChunk(length) =>
      && s.loader.Reading? && s.loader.inode in s.disk.files
      && 0 < length <= |s.disk.files[s.loader.inode]| - |s.loader.data|
    case ReadFails => s.loader.Reading?
    case Finish =>
      s.loader.Reading? && s.loader.inode in s.disk.files && |s.disk.files[s.loader.inode]| <= |s.loader.data|
  }

  function EndLoad(parse: Parser, s: State, read: Option<string>, torn: bool): State {
    var (table, ok) := AfterLoad(parse, s.manager.table, read);
    s.(loader := Free,
       manager := Manager(table, !ok, if ok then Whole(read.value, torn) else s.manager.source),
       phase := if s.phase != Starting then s.phase else if ok then Unwatched else Rejected)
  }

  function ApplyLoad(parse: Parser, s: State, step: LoadStep): State
    requires LoadEnabled(s, step)
  {
    match step
    case TakeLock => s.(loader := Locked)
    case Open =>
      if s.disk.current.Some? then s.(loader := Reading(s.disk.current.value, "", false))
      else EndLoad(parse, s, None, false)
    case ReadChunk(length) =>
      var at := |s.loader.data|;
      s.(loader := s.loader.(data := s.loader.data + s.disk.files[s.loader.inode][at..at + length]))
    case ReadFails => EndLoad(parse, s, None, false)
    case Finish => EndLoad(parse, s, Some(s.loader.data), s.loader.torn)
  }

  predicate FileEnabled(base: string, s: State, step: FileStep) {
    match step
    case Replace(name, inode, _, _) => (name == "..data" || name == base) && inode !in s.disk.files
    case WriteInPlace(_, _) => s.disk.current.Some? && s.disk.current.value in s.disk.files
    case Remove(name, _) => (name == "..data" || name == base) && s.disk.current.Some?
  }

  /** A change of contents: it is noticed through an event once the watch is registered,
      unless the watcher loses the event. */
  function Changed(s: State, name: string, lost: bool): Channel {
    if s.phase == Watching then
      if lost then s.channel.(eventLost := true)
      else s.channel.(queue := s.channel.queue + [name], relevantSinceWatch := true)
    else if s.phase == Unwatched || (s.phase == Starting && s.loader.Reading?) then
      s.channel.(changedBeforeWatch := true)
    else s.channel
  }

  function ApplyFile(base: string, s: State, step: FileStep): State
    requires FileEnabled(base, s, step)
  {
    match step
    case Replace(name, inode, content, lost) =>
      s.(disk := s.disk.(files := s.disk.files[inode := content], current := Some(inode),
                         published := s.disk.published + {content}),
         channel := Changed(s, name, lost))
    case WriteInPlace(content, lost) =>
      var inode := s.disk.current.value;
      s.(disk := s.disk.(files := s.disk.files[inode := content],
                         published := s.disk.published + {content}),
         channel := Changed(s, base, lost),
         loader := if s.loader.Reading? && s.loader.inode == inode
                   then s.loader.(torn := true) else s.loader)
    case Remove(name, lost) =>
      s.(disk := s.disk.(current := None), channel := Changed(s, name, lost))
  }

  /** The table was made from the newest contents. */
  predicate TableIsCurrent(s: State) {
    && s.disk.current.Some? && s.disk.current.value in s.disk.files
    && s.manager.source.Whole? && s.manager.source.data == s.disk.files[s.disk.current.value]
  }

  predicate WatchEnabled(s: State, step: WatchStep) {
    match step
    case Register => s.phase == Unwatched
    case RegisterFails => s.phase == Unwatched
    case ChannelCloses => s.phase == Watching && s.loader == Free
    case OtherEvent(_) => s.phase == Watching
    case Deliver => s.phase == Watching && s.loader == Free && s.channel.queue != []
  }

  function ApplyWatch(base: string, s: State, step: WatchStep): State
    requires WatchEnabled(s, step)
  {
    match step
    case Register => s.(phase := Watching, channel := s.channel.(currentAtWatch := TableIsCurrent(s)))
    case RegisterFails => s.(phase := Deaf)
    case ChannelCloses => s.(phase := Deaf)
    case OtherEvent(name) =>
      s.(channel := s.channel.(queue := s.channel.queue + [name],
                               relevantSinceWatch := s.channel.relevantSinceWatch || Relevant(base, name)))
    case Deliver =>
      s.(channel := s.channel.(queue := s.channel.queue[1..]),
         loader := if Relevant(base, s.channel.queue[0]) then Locked else Free)
  }

  predicate LookupEnabled(s: State, request: nat) {
    s.phase !in {Starting, Rejected} && s.loader == Free && request !in s.answers
  }

  function ApplyLookup(s: State, request: nat, key: string): State {
    s.(answers := s.answers[request := Answer(s.manager.source, key, Get(s.manager.table, key))])
  }

  predicate Enabled(base: string, s: State, step: Step) {
    match step
    case Load(l) => LoadEnabled(s, l)
    case File(f) => FileEnabled(base, s, f)
    case Watch(w) => WatchEnabled(s, w)
    case Lookup(request, _) => LookupEnabled(s, request)
  }

  function Apply(parse: Parser, base: string, s: State, step: Step): State
    requires Enabled(base, s, step)
  {
    match step
    case Load(l) => ApplyLoad(parse, s, l)
    case File(f) => ApplyFile(base, s, f)
    case Watch(w) => ApplyWatch(base, s, w)
    case Lookup(request, key) => ApplyLookup(s, request, key)
  }

  /** The state before the process starts, over any file system. */
  ghost predicate Init(s: State) {
    && s.phase == Starting && s.loader == Free && s.manager.table == map[] && s.manager.source == Nothing
    && s.channel == Channel([], false, false, false, false) && s.answers == map[]
    && s.disk.published == s.disk.files.Values
    && (s.disk.current.Some? ==> s.disk.current.value in s.disk.files)
  }

  ghost predicate IsRun(parse: Parser, base: string, s: State, steps: seq<Step>)
    decreases |steps|
  {
    steps != [] ==>
      && Enabled(base, s, steps[0])
      && IsRun(parse, base, Apply(parse, base, s, steps[0]), steps[1..])
  }

  ghost function Final(parse: Parser, base: string, s: State, steps: seq<Step>): State
    requires IsRun(parse, base, s, steps)
    decreases |steps|
  {
    if steps == [] then s else Final(parse, base, Apply(parse, base, s, steps[0]), steps[1..])
  }

  // ---------------------------------------------------------------- invariants

  ghost predicate FilesOk(s: State) {
    && (forall i | i in s.disk.files :: s.disk.files[i] in s.disk.published)
    && (s.disk.current.Some? ==> s.disk.current.value in s.disk.files)
    && (s.loader.Reading? ==>
          && s.loader.inode in s.disk.files
          && (!s.loader.torn ==> s.loader.data <= s.disk.files[s.loader.inode]))
  }

  /** A table comes from the bytes of one load. Without a torn read those bytes are one
      whole content that some file had. */
  ghost predicate SourceOk(parse: Parser, s: State, source: Source) {
    source.Whole? ==>
      && parse(source.data).Some?
      && (!source.torn ==> source.data in s.disk.published)
  }

  ghost predicate TableOk(parse: Parser, s: State) {
    && SourceOk(parse, s, s.manager.source)
    && s.manager.table == (if s.manager.source.Whole? then parse(s.manager.source.data).value else map[])
    && (s.manager.source == Nothing <==> s.phase in {Starting, Rejected})
  }

  ghost predicate AnswerOk(parse: Parser, s: State, answer: Answer) {
    && answer.source.Whole? && SourceOk(parse, s, answer.source)
    && answer.namespace == Get(parse(answer.source.data).value, answer.key)
  }

  ghost predicate RelevantPending(base: string, queue: seq<string>) {
    exists i | 0 <= i < |queue| :: Relevant(base, queue[i])
  }

  /** A load that is under way, if any, reads the current file. */
  ghost predicate LoadIsCurrent(s: State) {
    match s.loader
    case Free => TableIsCurrent(s)
    case Locked => true
    case Reading(inode, _, torn) => s.disk.current == Some(inode) && !torn
  }

  ghost predicate FreshnessOk(base: string, s: State) {
    match s.phase
    case Starting => s.channel.changedBeforeWatch || s.loader == Free || LoadIsCurrent(s)
    case Unwatched => s.loader == Free && (s.channel.changedBeforeWatch || TableIsCurrent(s))
    case Watching =>
      || s.channel.eventLost
      || RelevantPending(base, s.channel.queue)
      || !s.channel.relevantSinceWatch
      || LoadIsCurrent(s)
      || (s.loader == Free && s.manager.lastLoadFailed)
    case Rejected => s.loader == Free
    case Deaf => s.loader == Free
  }

  ghost predicate PhaseOk(s: State) {
    && (s.phase in {Starting, Unwatched, Rejected} ==>
          s.channel.queue == [] && !s.channel.relevantSinceWatch && !s.channel.eventLost)
    && (s.phase == Unwatched ==> !s.manager.lastLoadFailed)
  }

  /** Until a relevant event comes, a watch changes nothing: the table is as current as it was at the
      registration. */
  ghost predicate WatchOk(base: string, s: State) {
    s.phase == Watching ==>
      && (!s.channel.changedBeforeWatch ==> s.channel.currentAtWatch)
      && (!s.channel.relevantSinceWatch && !s.channel.eventLost ==>
            && s.loader == Free && !s.manager.lastLoadFailed && !RelevantPending(base, s.channel.queue)
            && (TableIsCurrent(s) <==> s.channel.currentAtWatch))
  }

  ghost predicate Inv(parse: Parser, base: string, s: State) {
    && FilesOk(s) && TableOk(parse, s) && PhaseOk(s) && FreshnessOk(base, s) && WatchOk(base, s)
    && forall r | r in s.answers :: AnswerOk(parse, s, s.answers[r])
  }

  lemma InitEstablishesInv(parse: Parser, base: string, s: State)
    requires Init(s)
    ensures Inv(parse, base, s)
  {
    forall i | i in s.disk.files ensures s.disk.files[i] in s.disk.published {}
  }

  lemma PendingAfterDelivery(base: string, queue: seq<string>)
    requires queue != [] && !Relevant(base, queue[0])
    ensures RelevantPending(base, queue) <==> RelevantPending(base, queue[1..])
  {
    if RelevantPending(base, queue) {
      var i :| 0 <= i < |queue| && Relevant(base, queue[i]);
      assert queue[1..][i - 1] == queue[i];
    }
    if RelevantPending(base, queue[1..]) {
      var i :| 0 <= i < |queue[1..]| && Relevant(base, queue[1..][i]);
      assert queue[i + 1] == queue[1..][i];
    }
  }

  lemma PendingAfterAppend(base: string, queue: seq<string>, name: string)
    ensures RelevantPending(base, queue) || Relevant(base, name) <==> RelevantPending(base, queue + [name])
  {
    var q := queue + [name];
    if RelevantPending(base, queue) {
      var i :| 0 <= i < |queue| && Relevant(base, queue[i]);
      assert q[i] == queue[i];
    }
    if Relevant(base, name) {
      assert q[|queue|] == name;
    }
    if RelevantPending(base, q) && !Relevant(base, name) {
      var i :| 0 <= i < |q| && Relevant(base, q[i]);
      assert queue[i] == q[i];
    }
  }

  /** Every change is on record: as an event, a lost event, or a change before the watch. */
  lemma ChangeIsNoted(base: string, s: State, name: string, lost: bool)
    requires PhaseOk(s) && Relevant(base, name)
    ensures var t := s.(channel := Changed(s, name, lost));
            && PhaseOk(t)
            && (t.phase == Watching ==> t.channel.eventLost || RelevantPending(base, t.channel.queue))
            && (t.phase == Unwatched || (t.phase == Starting && t.loader.Reading?) ==> t.channel.changedBeforeWatch)
  {
    PendingAfterAppend(base, s.channel.queue, name);
  }

  lemma EndLoadKeepsInv(parse: Parser, base: string, s: State, read: Option<string>, torn: bool)
    requires Inv(parse, base, s) && s.loader != Free
    requires s.loader.Locked? ==> read == None
    requires read.Some? && !torn ==> read.value == s.disk.files[s.loader.inode]
    requires read.Some? ==> torn == s.loader.torn
    ensures Inv(parse, base, EndLoad(parse, s, read, torn))
  {
    AnswersStayOk(parse, s, EndLoad(parse, s, read, torn));
  }

  lemma LoadStepKeepsInv(parse: Parser, base: string, s: State, step: LoadStep)
    requires Inv(parse, base, s) && LoadEnabled(s, step)
    ensures Inv(parse, base, ApplyLoad(parse, s, step))
  {
    if step.Finish? {
      EndLoadKeepsInv(parse, base, s, Some(s.loader.data), s.loader.torn);
    } else if step.ReadFails? || (step.Open? && s.disk.current.None?) {
      EndLoadKeepsInv(parse, base, s, None, false);
    } else {
      AnswersStayOk(parse, s, ApplyLoad(parse, s, step));
    }
  }

  lemma FileStepKeepsFreshness(base: string, s: State, step: FileStep)
    requires PhaseOk(s) && FreshnessOk(base, s) && FileEnabled(base, s, step)
    ensures PhaseOk(ApplyFile(base, s, step)) && FreshnessOk(base, ApplyFile(base, s, step))
  {
    ChangeIsNoted(base, s, if step.WriteInPlace? then base else step.name, step.lost);
  }

  lemma FileStepKeepsInv(parse: Parser, base: string, s: State, step: FileStep)
    requires Inv(parse, base, s) && FileEnabled(base, s, step)
    ensures Inv(parse, base, ApplyFile(base, s, step))
  {
    FileStepKeepsFreshness(base, s, step);
    ChangeIsNoted(base, s, if step.WriteInPlace? then base else step.name, step.lost);
    AnswersStayOk(parse, s, ApplyFile(base, s, step));
  }

  lemma WatchStepKeepsInv(parse: Parser, base: string, s: State, step: WatchStep)
    requires Inv(parse, base, s) && WatchEnabled(s, step)
    ensures Inv(parse, base, ApplyWatch(base, s, step))
  {
    if step.OtherEvent? {
      PendingAfterAppend(base, s.channel.queue, step.name);
    } else if step.Deliver? && !Relevant(base, s.channel.queue[0]) {
      PendingAfterDelivery(base, s.channel.queue);
    }
    AnswersStayOk(parse, s, ApplyWatch(base, s, step));
  }

  lemma LookupKeepsInv(parse: Parser, base: string, s: State, request: nat, key: string)
    requires Inv(parse, base, s) && LookupEnabled(s, request)
    ensures Inv(parse, base, ApplyLookup(s, request, key))
  {
    var t := ApplyLookup(s, request, key);
    forall r | r in t.answers ensures AnswerOk(parse, t, t.answers[r]) {
      if r != request {
        assert AnswerOk(parse, s, s.answers[r]);
      }
    }
  }

  lemma AnswersStayOk(parse: Parser, s: State, t: State)
    requires forall r | r in s.answers :: AnswerOk(parse, s, s.answers[r])
    requires t.answers == s.answers && s.disk.published <= t.disk.published
    ensures forall r | r in t.answers :: AnswerOk(parse, t, t.answers[r])
  {
    forall r | r in t.answers ensures AnswerOk(parse, t, t.answers[r]) {
      assert AnswerOk(parse, s, s.answers[r]);
    }
  }

  lemma StepKeepsInv(parse: Parser, base: string, s: State, step: Step)
    requires Inv(parse, base, s) && Enabled(base, s, step)
    ensures Inv(parse, base, Apply(parse, base, s, step))
  {
    match step
    case Load(l) => LoadStepKeepsInv(parse, base, s, l);
    case File(f) => FileStepKeepsInv(parse, base, s, f);
    case Watch(w) => WatchStepKeepsInv(parse, base, s, w);
    case Lookup(request, key) => LookupKeepsInv(parse, base, s, request, key);
  }

  // ---------------------------------------------------------------- whole runs

  lemma {:induction false} RunKeepsInv(parse: Parser, base: string, s: State, steps: seq<Step>)
    requires Inv(parse, base, s) && IsRun(parse, base, s, steps)
    ensures Inv(parse, base, Final(parse, base, s, steps))
    decreases |steps|
  {
    if steps != [] {
      StepKeepsInv(parse, base, s, steps[0]);
      RunKeepsInv(parse, base, Apply(parse, base, s, steps[0]), steps[1..]);
    }
  }

  /** The watch is registered, the event loop is idle, no relevant event is left and none was lost, and the
      last load succeeded. */
  ghost predicate IsQuiet(base: string, s: State) {
    && s.phase == Watching && s.loader == Free && !RelevantPending(base, s.channel.queue)
    && !s.manager.lastLoadFailed && !s.channel.eventLost
  }

  /** Freshness, exactly. In any run that has come to rest, the table is made from the newest contents if and
      only if a relevant event was queued since the registration, or the table was current then already; and
      it was if nothing changed between the first load and the registration. */
  lemma CurrentExactly(parse: Parser, base: string, s: State, steps: seq<Step>)
    requires Init(s) && IsRun(parse, base, s, steps) && IsQuiet(base, Final(parse, base, s, steps))
    ensures var t := Final(parse, base, s, steps);
            && (TableIsCurrent(t) <==> t.channel.relevantSinceWatch || t.channel.currentAtWatch)
            && (!t.channel.changedBeforeWatch ==> t.channel.currentAtWatch)
  {
    InitEstablishesInv(parse, base, s);
    RunKeepsInv(parse, base, s, steps);
  }

  /** A lookup then answers from the newest contents. */
  lemma LookupsAnswerTheNewestContents(parse: Parser, base: string, s: State, steps: seq<Step>, request: nat,
                                       key: string)
    requires Init(s) && IsRun(parse, base, s, steps)
    requires var t := Final(parse, base, s, steps);
             && IsQuiet(base, t) && (t.channel.relevantSinceWatch || t.channel.currentAtWatch)
             && request !in t.answers
    ensures var t := Final(parse, base, s, steps);
            && t.disk.current.Some? && t.disk.current.value in t.disk.files
            && var newest := parse(t.disk.files[t.disk.current.value]);
               && newest.Some? && t.manager.table == newest.value
               && Enabled(base, t, Lookup(request, key))
               && Apply(parse, base, t, Lookup(request, key)).answers[request].namespace
                  == if key in newest.value then Some(newest.value[key]) else None
  {
    CurrentExactly(parse, base, s, steps);
    InitEstablishesInv(parse, base, s);
    RunKeepsInv(parse, base, s, steps);
  }

  /** A step that neither changes a file nor brings a relevant event. */
  predicate IsUneventful(base: string, step: Step) {
    match step
    case File(_) => false
    case Watch(OtherEvent(name)) => !Relevant(base, name)
    case _ => true
  }

  /** What was missed stays missed: from an idle state, uneventful steps change neither the table nor the disk. */
  lemma {:induction false} UneventfulRunsChangeNothing(parse: Parser, base: string, s: State, steps: seq<Step>)
    requires s.phase in {Watching, Deaf} && s.loader == Free && !RelevantPending(base, s.channel.queue)
    requires IsRun(parse, base, s, steps) && forall i | 0 <= i < |steps| :: IsUneventful(base, steps[i])
    ensures var t := Final(parse, base, s, steps);
            t.manager == s.manager && t.disk == s.disk
    decreases |steps|
  {
    if steps != [] {
      UneventfulStep(parse, base, s, steps[0]);
      assert forall i | 0 <= i < |steps[1..]| :: steps[1..][i] == steps[i + 1];
      UneventfulRunsChangeNothing(parse, base, Apply(parse, base, s, steps[0]), steps[1..]);
    }
  }

  lemma UneventfulStep(parse: Parser, base: string, s: State, step: Step)
    requires s.phase in {Watching, Deaf} && s.loader == Free && !RelevantPending(base, s.channel.queue)
    requires Enabled(base, s, step) && IsUneventful(base, step)
    ensures var t := Apply(parse, base, s, step);
            && t.phase in {Watching, Deaf} && t.loader == Free && !RelevantPending(base, t.channel.queue)
            && t.manager == s.manager && t.disk == s.disk
  {
    match step
    case Watch(OtherEvent(name)) =>
      PendingAfterAppend(base, s.channel.queue, name);
    case Watch(Deliver) =>
      PendingAfterDelivery(base, s.channel.queue);
    case _ =>
  }

  /** The branch of ApplyFile in which a write hits the very file that is being read. */
  predicate Tears(s: State, step: Step) {
    step.File? && step.file.WriteInPlace? && s.loader.Reading? && s.disk.current == Some(s.loader.inode)
  }

  ghost predicate NothingTears(parse: Parser, base: string, s: State, steps: seq<Step>)
    requires IsRun(parse, base, s, steps)
    decreases |steps|
  {
    steps != [] ==> !Tears(s, steps[0]) && NothingTears(parse, base, Apply(parse, base, s, steps[0]), steps[1..])
  }

  ghost predicate IsUntorn(source: Source) {
    source.Whole? ==> !source.torn
  }

  ghost predicate AllUntorn(s: State) {
    && (s.loader.Reading? ==> !s.loader.torn)
    && IsUntorn(s.manager.source)
    && forall r | r in s.answers :: IsUntorn(s.answers[r].source)
  }

  lemma UntornStep(parse: Parser, base: string, s: State, step: Step)
    requires AllUntorn(s) && Enabled(base, s, step) && !Tears(s, step)
    ensures AllUntorn(Apply(parse, base, s, step))
  {
    var t := Apply(parse, base, s, step);
    forall r | r in t.answers ensures IsUntorn(t.answers[r].source) {
      if r in s.answers {
        assert IsUntorn(s.answers[r].source);
      }
    }
  }

  lemma {:induction false} RunStaysUntorn(parse: Parser, base: string, s: State, steps: seq<Step>)
    requires AllUntorn(s) && IsRun(parse, base, s, steps) && NothingTears(parse, base, s, steps)
    ensures AllUntorn(Final(parse, base, s, steps))
    decreases |steps|
  {
    if steps != [] {
      UntornStep(parse, base, s, steps[0]);
      RunStaysUntorn(parse, base, Apply(parse, base, s, steps[0]), steps[1..]);
    }
  }

  ghost predicate IsWholeContent(parse: Parser, s: State, content: string, table: Table) {
    content in s.disk.published && parse(content) == Some(table)
  }

  /** No mixture. In every interleaving of swaps, in-place writes, reloads and lookups in which no write hits
      the file that a load is reading, the table in use and every answer ever given come from one whole
      published content that parsed. */
  lemma TablesAreWholeContents(parse: Parser, base: string, s: State, steps: seq<Step>)
    requires Init(s) && IsRun(parse, base, s, steps) && NothingTears(parse, base, s, steps)
    ensures var t := Final(parse, base, s, steps);
            && (t.phase !in {Starting, Rejected} ==>
                  exists content :: IsWholeContent(parse, t, content, t.manager.table))
            && forall r | r in t.answers ::
                 exists content, table :: && IsWholeContent(parse, t, content, table)
                                          && t.answers[r].namespace == Get(table, t.answers[r].key)
  {
    InitEstablishesInv(parse, base, s);
    RunKeepsInv(parse, base, s, steps);
    RunStaysUntorn(parse, base, s, steps);
    var t := Final(parse, base, s, steps);
    if t.phase !in {Starting, Rejected} {
      assert IsWholeContent(parse, t, t.manager.source.data, t.manager.table);
    }
    forall r | r in t.answers
      ensures exists content, table :: && IsWholeContent(parse, t, content, table)
                                       && t.answers[r].namespace == Get(table, t.answers[r].key)
    {
      var data := t.answers[r].source.data;
      assert AnswerOk(parse, t, t.answers[r]) && IsUntorn(t.answers[r].source);
      assert IsWholeContent(parse, t, data, parse(data).value);
    }
  }

  /** Only a load that reached the end of the file with bytes that parse replaces the table,
      and it replaces all of it; every other step, a failed load included, leaves it alone. */
  lemma TableChangesOnlyByAGoodLoad(parse: Parser, base: string, s: State, step: Step)
    requires Enabled(base, s, step)
    ensures var t := Apply(parse, base, s, step);
            if step == Load(Finish) && parse(s.loader.data).Some?
            then t.manager.table == parse(s.loader.data).value && !t.manager.lastLoadFailed
            else t.manager.table == s.manager.table && t.manager.source == s.manager.source
  {
    match step
    case Load(l) =>
      assert Apply(parse, base, s, step) == ApplyLoad(parse, s, l);
    case File(f) =>
      assert Apply(parse, base, s, step) == ApplyFile(base, s, f);
    case Watch(w) =>
    case Lookup(_, _) =>
  }

  /** A request that has looked its tenant up never gets another answer. */
  lemma {:induction false} AnswersAreFinal(parse: Parser, base: string, s: State, steps: seq<Step>, request: nat)
    requires IsRun(parse, base, s, steps) && request in s.answers
    ensures var t := Final(parse, base, s, steps);
            request in t.answers && t.answers[request] == s.answers[request]
    decreases |steps|
  {
    if steps != [] {
      var next := Apply(parse, base, s, steps[0]);
      assert request in next.answers && next.answers[request] == s.answers[request];
      AnswersAreFinal(parse, base, next, steps[1..], request);
    }
  }

  /** The load of one file, undisturbed. */
  function LoadSteps(content: string): seq<Step> {
    [Load(Open)] + RestOfLoad(content, "")
  }

  lemma LoadStepsReachCurrent(parse: Parser, base: string, s: State)
    requires s.loader == Locked && s.disk.current.Some? && s.disk.current.value in s.disk.files
    ensures var content := s.disk.files[s.disk.current.value];
            && IsRun(parse, base, s, LoadSteps(content))
            && Final(parse, base, s, LoadSteps(content)) == EndLoad(parse, s, Some(content), false)
  {
    var content := s.disk.files[s.disk.current.value];
    var s1 := Apply(parse, base, s, Load(Open));
    assert LoadSteps(content) == [Load(Open)] + RestOfLoad(content, "");
    RestOfLoadReaches(parse, base, s1);
    RunCons(parse, base, s, Load(Open), RestOfLoad(content, ""));
    assert Mixed("", content) == content;
  }

  /** What a load has in the end that has read `data` when the file holds `content`. */
  function Mixed(data: string, content: string): string {
    if |data| < |content| then data + content[|data|..] else data
  }

  /** The rest of that load, undisturbed. */
  function RestOfLoad(content: string, data: string): seq<Step> {
    (if |data| < |content| then [Load(ReadChunk(|content| - |data|))] else []) + [Load(Finish)]
  }

  lemma RestOfLoadReaches(parse: Parser, base: string, s: State)
    requires s.loader.Reading? && s.loader.inode in s.disk.files
    ensures var content, data := s.disk.files[s.loader.inode], s.loader.data;
            && IsRun(parse, base, s, RestOfLoad(content, data))
            && Final(parse, base, s, RestOfLoad(content, data))
               == EndLoad(parse, s, Some(Mixed(data, content)), s.loader.torn)
  {
    var content, data := s.disk.files[s.loader.inode], s.loader.data;
    if |data| < |content| {
      var chunk := Load(ReadChunk(|content| - |data|));
      var s1 := Apply(parse, base, s, chunk);
      assert content[|data|..|data| + (|content| - |data|)] == content[|data|..];
      RunOne(parse, base, s1, Load(Finish));
      RunCons(parse, base, s, chunk, [Load(Finish)]);
    } else {
      assert RestOfLoad(content, data) == [Load(Finish)];
      RunOne(parse, base, s, Load(Finish));
    }
  }

  lemma RunOne(parse: Parser, base: string, s: State, step: Step)
    requires Enabled(base, s, step)
    ensures IsRun(parse, base, s, [step]) && Final(parse, base, s, [step]) == Apply(parse, base, s, step)
  {
    assert [step] == [step] + [];
    RunCons(parse, base, s, step, []);
  }

  lemma RunCons(parse: Parser, base: string, s: State, step: Step, rest: seq<Step>)
    requires Enabled(base, s, step) && IsRun(parse, base, Apply(parse, base, s, step), rest)
    ensures IsRun(parse, base, s, [step] + rest)
    ensures Final(parse, base, s, [step] + rest) == Final(parse, base, Apply(parse, base, s, step), rest)
  {
    assert ([step] + rest)[1..] == rest;
  }

  lemma {:induction false} RunAppend(parse: Parser, base: string, s: State, first: seq<Step>, rest: seq<Step>)
    requires IsRun(parse, base, s, first) && IsRun(parse, base, Final(parse, base, s, first), rest)
    ensures IsRun(parse, base, s, first + rest)
    ensures Final(parse, base, s, first + rest) == Final(parse, base, Final(parse, base, s, first), rest)
    decreases |first|
  {
    if first == [] {
      assert first + rest == rest;
    } else {
      RunAppend(parse, base, Apply(parse, base, s, first[0]), first[1..], rest);
      RunCons(parse, base, s, first[0], first[1..] + rest);
      assert first + rest == [first[0]] + (first[1..] + rest);
    }
  }

  /** What the event loop does when nothing else happens: it takes every event, and loads on
      the relevant ones. */
  function DrainSteps(base: string, queue: seq<string>, content: string): seq<Step> {
    if queue == [] then []
    else [Watch(Deliver)] + ((if Relevant(base, queue[0]) then LoadSteps(content) else [])
                             + DrainSteps(base, queue[1..], content))
  }

  /** Convergence. Left alone with a file that parses, the event loop empties its queue, and
      one relevant event in it is enough to bring the table up to date, whatever happened before. */
  lemma {:induction false} DrainingBringsTheTableUpToDate(parse: Parser, base: string, s: State)
    requires Inv(parse, base, s) && s.phase == Watching && s.loader == Free
    requires s.disk.current.Some? && parse(s.disk.files[s.disk.current.value]).Some?
    requires RelevantPending(base, s.channel.queue) || TableIsCurrent(s)
    ensures var content := s.disk.files[s.disk.current.value];
            var steps := DrainSteps(base, s.channel.queue, content);
            && IsRun(parse, base, s, steps)
            && var t := Final(parse, base, s, steps);
               && t.channel.queue == [] && t.disk == s.disk && t.answers == s.answers
               && t.phase == Watching && t.loader == Free && Some(t.manager.table) == parse(content)
    decreases |s.channel.queue|
  {
    var content := s.disk.files[s.disk.current.value];
    var queue := s.channel.queue;
    if queue != [] {
      var taken := Apply(parse, base, s, Watch(Deliver));
      StepKeepsInv(parse, base, s, Watch(Deliver));
      if Relevant(base, queue[0]) {
        LoadStepsReachCurrent(parse, base, taken);
        var loaded := Final(parse, base, taken, LoadSteps(content));
        RunKeepsInv(parse, base, taken, LoadSteps(content));
        DrainingBringsTheTableUpToDate(parse, base, loaded);
        RunAppend(parse, base, taken, LoadSteps(content), DrainSteps(base, queue[1..], content));
        RunCons(parse, base, s, Watch(Deliver), LoadSteps(content) + DrainSteps(base, queue[1..], content));
      } else {
        PendingAfterDelivery(base, queue);
        DrainingBringsTheTableUpToDate(parse, base, taken);
        assert [] + DrainSteps(base, queue[1..], content) == DrainSteps(base, queue[1..], content);
        RunCons(parse, base, s, Watch(Deliver), DrainSteps(base, queue[1..], content));
      }
    }
  }

  /** No kubelet swap and no rename onto the file is ignored: from any state in which the watch is idle, with whatever
      events still queued, the loop left alone ends with the table of the new contents. */
  lemma SwapsReachTheTable(parse: Parser, base: string, s: State, name: string, inode: nat, content: string)
    returns (steps: seq<Step>)
    requires Inv(parse, base, s) && s.phase == Watching && s.loader == Free
    requires (name == "..data" || name == base) && inode !in s.disk.files && parse(content).Some?
    ensures IsRun(parse, base, s, steps) && steps != [] && steps[0] == File(Replace(name, inode, content, false))
    ensures forall i | 0 < i < |steps| :: steps[i].Load? || steps[i] == Watch(Deliver)
    ensures var t := Final(parse, base, s, steps);
            && Some(t.manager.table) == parse(content) && t.channel.queue == [] && t.loader == Free
            && t.channel.eventLost == s.channel.eventLost
  {
    var swap := File(Replace(name, inode, content, false));
    var swapped := Apply(parse, base, s, swap);
    StepKeepsInv(parse, base, s, swap);
    PendingAfterAppend(base, s.channel.queue, name);
    var drain := DrainSteps(base, swapped.channel.queue, content);
    DrainingBringsTheTableUpToDate(parse, base, swapped);
    DrainingOnlyLoads(base, swapped.channel.queue, content);
    DrainingLosesNothing(parse, base, swapped, drain);
    RunCons(parse, base, s, swap, drain);
    steps := [swap] + drain;
  }

  lemma {:induction false} DrainingOnlyLoads(base: string, queue: seq<string>, content: string)
    ensures forall step | step in DrainSteps(base, queue, content) :: step.Load? || step == Watch(Deliver)
  {
    if queue != [] {
      DrainingOnlyLoads(base, queue[1..], content);
    }
  }

  lemma {:induction false} DrainingLosesNothing(parse: Parser, base: string, s: State, steps: seq<Step>)
    requires IsRun(parse, base, s, steps) && forall step | step in steps :: step.Load? || step == Watch(Deliver)
    ensures Final(parse, base, s, steps).channel.eventLost == s.channel.eventLost
    decreases |steps|
  {
    if steps != [] {
      assert steps[0] in steps && forall step | step in steps[1..] :: step in steps;
      DrainingLosesNothing(parse, base, Apply(parse, base, s, steps[0]), steps[1..]);
    }
  }

  /** The environment is not held back: while the watch runs, swaps and removals under either name, writes in place,
      events of any name, failing reads, a closing channel and lookups are all possible. */
  lemma NothingIsHeldBack(base: string, s: State, inode: nat, content: string, lost: bool, name: string, key: string)
    requires s.phase == Watching && s.disk.current.Some? && s.disk.current.value in s.disk.files
    requires inode !in s.disk.files
    ensures forall link | link in {"..data", base} ::
              && Enabled(base, s, File(Replace(link, inode, content, lost)))
              && Enabled(base, s, File(Remove(link, lost)))
    ensures Enabled(base, s, File(WriteInPlace(content, lost))) && Enabled(base, s, Watch(OtherEvent(name)))
    ensures s.loader.Reading? ==> Enabled(base, s, Load(ReadFails))
    ensures s.loader == Free ==>
              && Enabled(base, s, Watch(ChannelCloses))
              && (s.channel.queue != [] ==> Enabled(base, s, Watch(Deliver)))
              && forall request | request !in s.answers :: Enabled(base, s, Lookup(request, key))
  {
  }

  /** A mapping file before the process starts. */
  function Beginning(content: string): State {
    State(Starting, Free, Manager(map[], false, Nothing), Disk(map[0 := content], Some(0), {content}),
          Channel([], false, false, false, false), map[])
  }

  lemma BeginningIsInitial(content: string)
    ensures Init(Beginning(content))
  {
    var files := Beginning(content).disk.files;
    assert files.Values == {content} by { assert 0 in files; }
  }

  /** Why CurrentExactly asks for a relevant event: whatever the contents, a swap between the first load and the
      registration is never noticed. All is quiet, and the table is the old one; UneventfulRunsChangeNothing
      says that it stays so. */
  lemma ASwapBeforeTheWatchIsMissed(parse: Parser, base: string, before: string, after: string)
    returns (steps: seq<Step>)
    requires parse(before).Some? && before != after
    ensures Init(Beginning(before)) && IsRun(parse, base, Beginning(before), steps)
    ensures var t := Final(parse, base, Beginning(before), steps);
            && IsQuiet(base, t) && t.channel.queue == [] && !TableIsCurrent(t)
            && t.disk.current == Some(1) && 1 in t.disk.files && t.disk.files[1] == after
            && Some(t.manager.table) == parse(before)
  {
    var s0 := Beginning(before);
    BeginningIsInitial(before);
    var s1 := Apply(parse, base, s0, Load(TakeLock));
    LoadStepsReachCurrent(parse, base, s1);
    var s2 := EndLoad(parse, s1, Some(before), false);
    var swap := File(Replace(KUBELET_DATA_SYMLINK, 1, after, false));
    var s3 := Apply(parse, base, s2, swap);
    RunOne(parse, base, s3, Watch(Register));
    RunCons(parse, base, s2, swap, [Watch(Register)]);
    RunAppend(parse, base, s1, LoadSteps(before), [swap] + [Watch(Register)]);
    RunCons(parse, base, s0, Load(TakeLock), LoadSteps(before) + ([swap] + [Watch(Register)]));
    steps := [Load(TakeLock)] + (LoadSteps(before) + ([swap] + [Watch(Register)]));
  }

  /** Why TablesAreWholeContents excludes writes that tear, in every state: after one, the load ends with what it
      had read of the old contents and the rest of the new ones. The table is then made from a whole content
      exactly when that mixture happens to be one. */
  lemma AWriteDuringALoadMixes(parse: Parser, base: string, s: State, content: string) returns (steps: seq<Step>)
    requires s.loader.Reading? && s.loader.inode in s.disk.files && Tears(s, File(WriteInPlace(content, false)))
    requires parse(Mixed(s.loader.data, content)).Some?
    ensures steps != [] && steps[0] == File(WriteInPlace(content, false)) && IsRun(parse, base, s, steps)
    ensures var t, mixture := Final(parse, base, s, steps), Mixed(s.loader.data, content);
            && t.loader == Free && t.manager.source == Whole(mixture, true) && Some(t.manager.table) == parse(mixture)
            && (mixture in t.disk.published <==> mixture in s.disk.published || mixture == content)
  {
    var write := File(WriteInPlace(content, false));
    var s1 := Apply(parse, base, s, write);
    RestOfLoadReaches(parse, base, s1);
    RunCons(parse, base, s, write, RestOfLoad(content, s.loader.data));
    steps := [write] + RestOfLoad(content, s.loader.data);
  }

  /** It happens from the very beginning: for all two contents and every place to cut them, a run makes its table
      from the start of the one and the end of the other. */
  lemma AnInPlaceWriteCanTearALoad(parse: Parser, base: string, before: string, after: string, cut: nat)
    returns (steps: seq<Step>)
    requires 0 < cut <= |before| && cut <= |after| && parse(before[..cut] + after[cut..]).Some?
    ensures Init(Beginning(before)) && IsRun(parse, base, Beginning(before), steps)
    ensures var t, mixture := Final(parse, base, Beginning(before), steps), before[..cut] + after[cut..];
            && Some(t.manager.table) == parse(mixture) && t.manager.source == Whole(mixture, true)
            && (mixture in t.disk.published <==> mixture == before || mixture == after)
  {
    var s0 := Beginning(before);
    BeginningIsInitial(before);
    var s1 := Apply(parse, base, s0, Load(TakeLock));
    var s2 := Apply(parse, base, s1, Load(Open));
    var s3 := Apply(parse, base, s2, Load(ReadChunk(cut)));
    assert s3.loader.data == before[..cut];
    assert Mixed(before[..cut], after) == before[..cut] + after[cut..];
    var rest := AWriteDuringALoadMixes(parse, base, s3, after);
    RunCons(parse, base, s2, Load(ReadChunk(cut)), rest);
    RunCons(parse, base, s1, Load(Open), [Load(ReadChunk(cut))] + rest);
    RunCons(parse, base, s0, Load(TakeLock), [Load(Open)] + ([Load(ReadChunk(cut))] + rest));
    steps := [Load(TakeLock)] + ([Load(Open)] + ([Load(ReadChunk(cut))] + rest));
  }
}
