/** The scan, checkpoint and resume protocol
    (crates/reclaim-session/src/scan.rs with the durable part of store.rs).

    A carve thread sends results and progress over a bounded FIFO; one writer
    batches results, flushes them in transactions and checkpoints the cursor.
    Both sides, the durable state and a crash at any point are one step
    relation: `Enabled` says when an action can happen and `Apply` what it
    does.  Clocks are the `due` flags; a failing transaction is an action. */
module ScanProtocol {
  import opened Arith
  import opened Wrappers
  import opened CarveEngine

  const BATCH: nat := 1024
  const CAPACITY: nat := BATCH * 4
  const ONE_GIB: nat := 1024 * 1024 * 1024

  // ------------------------------------------------------------- durable state

  /** Rows are keyed by a hash of source, engine, offset and length. */
  datatype Key = Key(offset: nat, len: nat)

  function KeyOf(f: Carved): Key { Key(f.offset, f.len) }

  type Store = map<Key, Carved>

  /** INSERT OR IGNORE, one row after the other: the first one stays. */
  function InsertAll(store: Store, batch: seq<Carved>): Store {
    if batch == [] then store
    else
      var s := InsertAll(store, batch[..|batch| - 1]);
      var f := batch[|batch| - 1];
      if KeyOf(f) in s then s else s[KeyOf(f) := f]
  }

  datatype Row = Row(cursor: nat, scanned: nat, total: nat, found: nat, complete: bool, blockSize: nat)

  datatype Db = Db(store: Store, row: Option<Row>)

  // ------------------------------------------------------------------- writer

  datatype Phase =
    | Listening   // in recv_timeout
    | FlushBatch  // the batch is full
    | CkptFlush   // a checkpoint's two transactions
    | CkptPut
    | FinalFlush  // the producer is joined; the last two transactions
    | FinalPut
    | Failed      // a transaction failed: rx dropped, joining the producer

  datatype Writer = Writer(phase: Phase, pending: seq<Carved>,
                           cursor: nat, scanned: nat, total: nat, found: nat, lastScanned: nat)

  /** One received message.  `due`: the checkpoint interval has passed. */
  function Receive(w: Writer, m: Message, due: bool): Writer {
    match m
    case Found(f) =>
      var pending := w.pending + [f];
      w.(pending := pending, phase := if |pending| >= BATCH then FlushBatch else Listening)
    case Progress(cursor, scanned, total, found) =>
      var due := due || Minus(scanned, w.lastScanned) >= ONE_GIB;
      w.(cursor := cursor, scanned := scanned, total := total, found := found,
         phase := if due then CkptFlush else Listening)
  }

  function Tick(w: Writer, due: bool): Writer {
    if due then w.(phase := CkptFlush) else w
  }

  predicate Writing(w: Writer) {
    w.phase.FlushBatch? || w.phase.CkptFlush? || w.phase.CkptPut? || w.phase.FinalFlush? || w.phase.FinalPut?
  }

  /** Flushing an empty batch touches no table, so it cannot fail. */
  predicate MayFail(w: Writer) {
    Writing(w) && !((w.phase.CkptFlush? || w.phase.FinalFlush?) && w.pending == [])
  }

  function CheckpointRow(w: Writer, blockSize: nat): Row {
    Row(w.cursor, w.scanned, w.total, w.found, false, blockSize)
  }

  function FinalRow(w: Writer, o: Outcome, blockSize: nat): Row {
    Row(o.cursor, Min(w.total, Max(w.scanned, o.cursor)), w.total, o.found, !o.interrupted, blockSize)
  }

  /** The transaction the writer is at (`FinalPut` ends the run and is in `Apply`). */
  function Write(w: Writer, db: Db, blockSize: nat): (Writer, Db) {
    match w.phase
    case FlushBatch => (w.(phase := Listening, pending := []), db.(store := InsertAll(db.store, w.pending)))
    case CkptFlush => (w.(phase := CkptPut, pending := []), db.(store := InsertAll(db.store, w.pending)))
    case CkptPut => (w.(phase := Listening, lastScanned := w.scanned),
                     db.(row := Some(CheckpointRow(w, blockSize))))
    case FinalFlush => (w.(phase := FinalPut, pending := []), db.(store := InsertAll(db.store, w.pending)))
    case _ => (w, db)
  }

  // -------------------------------------------------------------- whole state

  /** The carve thread: chunks read, claims held, and messages not yet sent. */
  datatype Producer = Producer(chunks: nat, claims: seq<Claim>, found: nat,
                               todo: seq<Message>, outcome: Option<Outcome>)

  /** One call of `run_carve`.  `base` (the store when it began) and `received`
      are history. */
  datatype Session = Session(blockSize: nat, resumeFrom: nat, producer: Producer,
                             channel: seq<Message>, cancel: bool, writer: Writer,
                             base: Store, received: seq<Message>)

  datatype State = State(db: Db, run: Option<Session>)

  /** What a scan with a given block size finds; the other options are fixed. */
  type Job = nat -> Source

  datatype Action =
    | Start(blockSize: nat, resume: bool)
    | Crash
    | Cancel
    | ReadChunk
    | Send
    | EndScan
    | Recv(due: bool)
    | Timeout(due: bool)
    | Disconnect
    | Transact
    | TransactFails
    | JoinFailed

  function Src(job: Job, r: Session): Source { job(r.blockSize) }
  function StartPos(job: Job, r: Session): nat { StartOf(Src(job, r), r.resumeFrom) }
  function AllSteps(job: Job, r: Session): nat { Steps(Src(job, r), StartPos(job, r)) }

  predicate Enabled(job: Job, s: State, a: Action) {
    match a
    case Start(_, _) => s.run.None? && !(s.db.row.Some? && s.db.row.value.complete)
    case _ => s.run.Some? && RunEnabled(job, s.run.value, a)
  }

  predicate RunEnabled(job: Job, r: Session, a: Action) {
    var p, w := r.producer, r.writer;
    match a
    case Start(_, _) => false
    case Crash => true
    case Cancel => !r.cancel
    case ReadChunk => p.outcome.None? && p.todo == [] && p.chunks < AllSteps(job, r) && !r.cancel
    case Send => p.todo != [] && (w.phase.Failed? || |r.channel| < CAPACITY)
    case EndScan => p.outcome.None? && p.todo == [] && (p.chunks >= AllSteps(job, r) || r.cancel)
    case Recv(_) => w.phase.Listening? && r.channel != []
    case Timeout(_) => w.phase.Listening? && r.channel == [] && p.outcome.None?
    case Disconnect => w.phase.Listening? && r.channel == [] && p.outcome.Some?
    case Transact => Writing(w)
    case TransactFails => MayFail(w)
    case JoinFailed => w.phase.Failed? && p.outcome.Some?
  }

  function Started(s: State, job: Job, blockSize: nat, resume: bool): Session {
    var resuming := resume && s.db.row.Some?;
    var cursor := if resuming then s.db.row.value.cursor else 0;
    var bs := if resuming then s.db.row.value.blockSize else blockSize;
    Session(bs, cursor, Producer(0, [], 0, [], None), [], false,
            Writer(Listening, [], cursor, 0, job(bs).length, 0, 0), s.db.store, [])
  }

  function Apply(job: Job, s: State, a: Action): State
    requires Enabled(job, s, a)
  {
    if a.Start? then s.(run := Some(Started(s, job, a.blockSize, a.resume)))
    else
      var r := s.run.value;
      var p, w := r.producer, r.writer;
      match a
      case Crash => s.(run := None)
      case Cancel => s.(run := Some(r.(cancel := true)))
      case ReadChunk =>
        var t := Trace([], p.claims, p.found);
        var pass := ChunkPass(Src(job, r), StartPos(job, r), p.chunks, p.claims);
        s.(run := Some(r.(producer :=
          Producer(p.chunks + 1, pass.claims, p.found + |pass.emitted|,
                   ChunkMessages(Src(job, r), StartPos(job, r), p.chunks, t), None))))
      case Send =>
        s.(run := Some(r.(producer := p.(todo := p.todo[1..]),
                          channel := if w.phase.Failed? then r.channel else r.channel + [p.todo[0]])))
      case EndScan =>
        s.(run := Some(r.(producer := p.(outcome :=
          Some(Outcome(Min(Position(StartPos(job, r), p.chunks), Src(job, r).scanEnd), p.found,
                       p.chunks < AllSteps(job, r)))))))
      case Recv(due) =>
        s.(run := Some(r.(channel := r.channel[1..], writer := Receive(w, r.channel[0], due),
                          received := r.received + [r.channel[0]])))
      case Timeout(due) => s.(run := Some(r.(writer := Tick(w, due))))
      case Disconnect => s.(run := Some(r.(writer := w.(phase := FinalFlush))))
      case Transact =>
        if w.phase.FinalPut? && p.outcome.Some?
        then State(s.db.(row := Some(FinalRow(w, p.outcome.value, r.blockSize))), None)
        else
          var (w', db') := Write(w, s.db, r.blockSize);
          State(db', Some(r.(writer := w')))
      case TransactFails =>
        if w.phase.FinalFlush? || w.phase.FinalPut? then s.(run := None)
        else s.(run := Some(r.(writer := w.(phase := Failed), channel := [], cancel := true)))
      case JoinFailed => s.(run := None)
  }

  // --------------------------------------------------------------- executions

  predicate Legal(job: Job, s: State, acts: seq<Action>)
    decreases |acts|
  {
    acts == [] || (Enabled(job, s, acts[0]) && Legal(job, Apply(job, s, acts[0]), acts[1..]))
  }

  function Exec(job: Job, s: State, acts: seq<Action>): State
    requires Legal(job, s, acts)
    decreases |acts|
  {
    if acts == [] then s else Exec(job, Apply(job, s, acts[0]), acts[1..])
  }

  const Fresh: State := State(Db(map[], None), None)

  lemma {:induction false} ExecConcat(job: Job, s: State, a: seq<Action>, b: seq<Action>)
    requires Legal(job, s, a) && Legal(job, Exec(job, s, a), b)
    ensures Legal(job, s, a + b) && Exec(job, s, a + b) == Exec(job, Exec(job, s, a), b)
    decreases |a|
  {
    if a == [] {
      assert a + b == b;
    } else {
      assert (a + b)[1..] == a[1..] + b;
      ExecConcat(job, Apply(job, s, a[0]), a[1..], b);
    }
  }

  // ---------------------------------------------------------------- invariant

  function Reports(ms: seq<Message>): nat {
    if ms == [] then 0 else Reports(ms[..|ms| - 1]) + (if ms[|ms| - 1].Progress? then 1 else 0)
  }

  /** The cursor the last progress report named. */
  function LastCursor(initial: nat, ms: seq<Message>): nat {
    if ms == [] then initial
    else if ms[|ms| - 1].Progress? then ms[|ms| - 1].cursor
    else LastCursor(initial, ms[..|ms| - 1])
  }

  /** What a run is measured against: the reports of the chunks it has read,
      the number of chunks ahead of its start, and the cursor it has reached. */
  datatype Expected = Expected(trace: Trace, steps: nat, cursor: nat)

  function Expect(job: Job, r: Session, chunks: nat): Expected {
    var src, start := Src(job, r), StartPos(job, r);
    Expected(Run(src, start, chunks), Steps(src, start), Min(Position(start, chunks), src.scanEnd))
  }

  /** No message is lost or repeated: what was received, what is in the channel
      and what is still to be sent make up exactly what the scan reports. */
  predicate Delivery(x: Expected, r: Session) {
    var p, t := r.producer, x.trace;
    && p.chunks <= x.steps
    && p.claims == t.claims && p.found == t.found
    && r.received <= t.messages
    && (!r.writer.phase.Failed? ==> t.messages == r.received + r.channel + p.todo)
    && |r.channel| <= CAPACITY
  }

  predicate Ending(x: Expected, r: Session) {
    var p := r.producer;
    && (p.outcome.Some? ==>
          && p.todo == []
          && p.outcome.value == Outcome(x.cursor, p.found, p.chunks < x.steps)
          && (p.outcome.value.interrupted ==> r.cancel))
    && (r.writer.phase.Failed? ==> r.cancel && r.channel == [])
    && (r.writer.phase.FinalFlush? || r.writer.phase.FinalPut? ==> p.outcome.Some? && r.channel == [])
  }

  /** A full batch is flushed before the next message is taken. */
  predicate Batching(w: Writer) {
    && |w.pending| <= BATCH
    && (w.phase.Listening? || w.phase.CkptFlush? || w.phase.FinalFlush? ==> |w.pending| < BATCH)
    && (w.phase.CkptPut? || w.phase.FinalPut? ==> w.pending == [])
  }

  /** The store holds what it held plus every result of `files` that is no
      longer pending. */
  predicate FlushedAs(base: Store, files: seq<Carved>, pending: seq<Carved>, store: Store) {
    && |pending| <= |files|
    && pending == files[|files| - |pending|..]
    && store == InsertAll(base, files[..|files| - |pending|])
  }

  predicate Flushed(r: Session, store: Store) {
    && FlushedAs(r.base, Founds(r.received), r.writer.pending, store)
    && r.writer.cursor == LastCursor(r.resumeFrom, r.received)
  }

  /** A checkpoint is never further behind than 1 GiB of scanning. */
  predicate Recent(w: Writer) {
    w.phase.Listening? || w.phase.FlushBatch? ==> Minus(w.scanned, w.lastScanned) < ONE_GIB
  }

  predicate RunInv(x: Expected, r: Session, store: Store) {
    Delivery(x, r) && Ending(x, r) && Batching(r.writer) && Flushed(r, store) && Recent(r.writer)
  }

  predicate Inv(job: Job, s: State) {
    s.run.Some? ==> RunInv(Expect(job, s.run.value, s.run.value.producer.chunks), s.run.value, s.db.store)
  }

  lemma {:induction false} InsertConcat(store: Store, a: seq<Carved>, b: seq<Carved>)
    ensures InsertAll(store, a + b) == InsertAll(InsertAll(store, a), b)
    decreases |b|
  {
    if b == [] {
      assert a + b == a;
    } else {
      assert (a + b)[..|a + b| - 1] == a + b[..|b| - 1];
      InsertConcat(store, a, b[..|b| - 1]);
    }
  }

  function Received(r: Session, due: bool): Session
    requires r.channel != []
  {
    r.(channel := r.channel[1..], writer := Receive(r.writer, r.channel[0], due),
       received := r.received + [r.channel[0]])
  }

  lemma PendOne(base: Store, files: seq<Carved>, pending: seq<Carved>, store: Store, f: Carved)
    requires FlushedAs(base, files, pending, store)
    ensures FlushedAs(base, files + [f], pending + [f], store)
  {
    var n := |files| - |pending|;
    assert (files + [f])[..n] == files[..n];
    assert (files + [f])[n..] == files[n..] + [f];
  }

  lemma FlushPending(base: Store, files: seq<Carved>, pending: seq<Carved>, store: Store)
    requires FlushedAs(base, files, pending, store)
    ensures FlushedAs(base, files, [], InsertAll(store, pending))
  {
    var n := |files| - |pending|;
    assert files[..n] + pending == files;
    InsertConcat(base, files[..n], pending);
    assert files[|files|..] == [] && files[..|files|] == files;
  }

  lemma ReceiveDelivers(x: Expected, r: Session, due: bool)
    requires Delivery(x, r) && r.writer.phase.Listening? && r.channel != []
    ensures Delivery(x, Received(r, due))
  {
    var received := r.received + [r.channel[0]];
    assert r.received + r.channel + r.producer.todo == received + r.channel[1..] + r.producer.todo;
  }

  lemma ReceiveBooks(r: Session, store: Store, due: bool)
    requires Flushed(r, store) && r.channel != []
    ensures Flushed(Received(r, due), store)
  {
    var m := r.channel[0];
    var received := r.received + [m];
    assert received[..|received| - 1] == r.received;
    var files := Founds(r.received);
    if m.Found? {
      assert Founds(received) == files + [m.file];
      PendOne(r.base, files, r.writer.pending, store, m.file);
    } else {
      assert Founds(received) == files;
    }
  }

  lemma ReceivePaces(x: Expected, r: Session, due: bool)
    requires Ending(x, r) && Batching(r.writer) && Recent(r.writer) && r.writer.phase.Listening? && r.channel != []
    ensures Ending(x, Received(r, due)) && Batching(Received(r, due).writer) && Recent(Received(r, due).writer)
  {
  }

  lemma WriteKeeps(x: Expected, r: Session, db: Db)
    requires RunInv(x, r, db.store) && Writing(r.writer) && !r.writer.phase.FinalPut?
    ensures var (w', db') := Write(r.writer, db, r.blockSize);
            RunInv(x, r.(writer := w'), db'.store)
  {
    if !r.writer.phase.CkptPut? {
      FlushPending(r.base, Founds(r.received), r.writer.pending, db.store);
    }
  }

  lemma SendKeeps(x: Expected, r: Session, store: Store)
    requires RunInv(x, r, store) && r.producer.todo != [] && |r.channel| < CAPACITY && !r.writer.phase.Failed?
    ensures RunInv(x, r.(producer := r.producer.(todo := r.producer.todo[1..]),
                         channel := r.channel + [r.producer.todo[0]]), store)
  {
    var todo := r.producer.todo;
    assert r.received + r.channel + todo == r.received + (r.channel + [todo[0]]) + todo[1..];
  }

  /** The trace after one more chunk. */
  lemma ReadKeeps(x: Expected, y: Expected, r: Session, store: Store, p: Producer)
    requires RunInv(x, r, store) && r.producer.todo == [] && r.producer.outcome.None?
    requires p.chunks == r.producer.chunks + 1 <= x.steps && y.steps == x.steps
    requires y.trace == Trace(x.trace.messages + p.todo, p.claims, p.found) && p.outcome.None?
    ensures RunInv(y, r.(producer := p), store)
  {
    if !r.writer.phase.Failed? {
      assert r.received + r.channel + [] + p.todo == r.received + r.channel + p.todo;
    }
  }

  /** The steps that neither read a chunk nor move a message. */
  lemma QuietKeeps(x: Expected, r: Session, store: Store, due: bool)
    requires RunInv(x, r, store)
    ensures RunInv(x, r.(cancel := true), store)
    ensures r.producer.outcome.None? && r.producer.todo == [] && (r.producer.chunks >= x.steps || r.cancel) ==>
      RunInv(x, r.(producer := r.producer.(outcome :=
        Some(Outcome(x.cursor, r.producer.found, r.producer.chunks < x.steps)))), store)
    ensures r.writer.phase.Listening? ==> RunInv(x, r.(writer := Tick(r.writer, due)), store)
    ensures r.writer.phase.Listening? && r.channel == [] && r.producer.outcome.Some? ==>
      RunInv(x, r.(writer := r.writer.(phase := FinalFlush)), store)
    ensures !r.writer.phase.FinalFlush? && !r.writer.phase.FinalPut? ==>
      RunInv(x, r.(writer := r.writer.(phase := Failed), channel := [], cancel := true), store)
    ensures r.writer.phase.Failed? && r.producer.todo != [] ==>
      RunInv(x, r.(producer := r.producer.(todo := r.producer.todo[1..])), store)
  {
  }

  lemma StartInv(job: Job, s: State, blockSize: nat, resume: bool)
    ensures var r := Started(s, job, blockSize, resume);
            RunInv(Expect(job, r, 0), r, s.db.store)
  {
  }

  lemma ReadChunkInv(job: Job, s: State)
    requires Inv(job, s) && Enabled(job, s, ReadChunk)
    ensures Inv(job, Apply(job, s, ReadChunk))
  {
    var r := s.run.value;
    var x, y := Expect(job, r, r.producer.chunks), Expect(job, r, r.producer.chunks + 1);
    var r' := Apply(job, s, ReadChunk).run.value;
    ReadKeeps(x, y, r, s.db.store, r'.producer);
  }

  /** Every step keeps the invariant. */
  lemma StepKeepsInv(job: Job, s: State, a: Action)
    requires Inv(job, s) && Enabled(job, s, a)
    ensures Inv(job, Apply(job, s, a))
  {
    if a.Start? {
      StartInv(job, s, a.blockSize, a.resume);
    } else if a.ReadChunk? {
      ReadChunkInv(job, s);
    } else {
      var r := s.run.value;
      var x := Expect(job, r, r.producer.chunks);
      QuietKeeps(x, r, s.db.store, if a.Timeout? then a.due else false);
      match a
      case Recv(due) =>
        ReceiveDelivers(x, r, due);
        ReceiveBooks(r, s.db.store, due);
        ReceivePaces(x, r, due);
      case Send =>
        if !r.writer.phase.Failed? {
          SendKeeps(x, r, s.db.store);
        }
      case Transact =>
        if !r.writer.phase.FinalPut? {
          WriteKeeps(x, r, s.db);
        }
      case _ =>
    }
  }

  lemma {:induction false} ReachableInv(job: Job, s: State, acts: seq<Action>)
    requires Inv(job, s) && Legal(job, s, acts)
    ensures Inv(job, Exec(job, s, acts))
    decreases |acts|
  {
    if acts != [] {
      StepKeepsInv(job, s, acts[0]);
      ReachableInv(job, Apply(job, s, acts[0]), acts[1..]);
    }
  }

  // ------------------------------------------------------- what a cursor means

  lemma {:induction false} NoReportIn(a: seq<Message>, files: seq<Message>, initial: nat)
    requires forall i | 0 <= i < |files| :: files[i].Found?
    ensures Reports(a + files) == Reports(a) && LastCursor(initial, a + files) == LastCursor(initial, a)
    decreases |files|
  {
    if files == [] {
      assert a + files == a;
    } else {
      assert (a + files)[..|a + files| - 1] == a + files[..|files| - 1];
      NoReportIn(a, files[..|files| - 1], initial);
    }
  }

  function CursorAfter(src: Source, start: nat, initial: nat, m: nat): nat {
    if m == 0 then initial else Min(Position(start, m), src.scanEnd)
  }

  /** A prefix that ends inside one chunk's messages. */
  lemma PrefixOfChunk(prev: seq<Message>, files: seq<Message>, report: Message, got: seq<Message>, initial: nat)
    requires got <= prev + (files + [report]) && prev <= got && report.Progress?
    requires forall i | 0 <= i < |files| :: files[i].Found?
    ensures got == prev + (files + [report]) ==>
              Reports(got) == Reports(prev) + 1 && LastCursor(initial, got) == report.cursor
    ensures got != prev + (files + [report]) ==>
              Reports(got) == Reports(prev) && LastCursor(initial, got) == LastCursor(initial, prev)
  {
    var tail := got[|prev|..];
    assert got == prev + tail;
    assert tail <= files + [report] by {
      assert (prev + (files + [report]))[|prev|..] == files + [report];
      assert tail == (prev + (files + [report]))[|prev|..|got|];
    }
    if |tail| == |files| + 1 {
      assert tail == files + [report];
      NoReportIn(prev, files, initial);
      assert got[..|got| - 1] == prev + files;
    } else {
      assert tail <= files;
      NoReportIn(prev, tail, initial);
    }
  }

  /** Whatever prefix of a run's messages has arrived, its last report names a
      chunk boundary all of whose results have arrived too. */
  lemma {:induction false} PrefixMeaning(src: Source, start: nat, n: nat, got: seq<Message>, initial: nat)
    requires got <= Run(src, start, n).messages
    ensures Reports(got) <= n
    ensures Run(src, start, Reports(got)).messages <= got
    ensures LastCursor(initial, got) == CursorAfter(src, start, initial, Reports(got))
    ensures got == Run(src, start, n).messages ==> Reports(got) == n
  {
    if n > 0 {
      var t := Run(src, start, n - 1);
      var files := FoundMessages(ChunkPass(src, start, n - 1, t.claims).emitted);
      var report := Report(src, Position(start, n), t.found + |files|);
      assert Run(src, start, n).messages == t.messages + (files + [report]);
      if |got| < |t.messages| {
        assert got <= t.messages;
        PrefixMeaning(src, start, n - 1, got, initial);
      } else {
        assert t.messages <= got;
        PrefixMeaning(src, start, n - 1, t.messages, initial);
        PrefixOfChunk(t.messages, files, report, got, initial);
      }
    }
  }

  lemma {:induction false} FoundsPrefix(a: seq<Message>, b: seq<Message>)
    requires a <= b
    ensures Founds(a) <= Founds(b)
  {
    FoundsConcat(a, b[|a|..]);
    assert b == a + b[|a|..];
  }

  /** At the end of a run every message has been received, exactly once. */
  lemma AllReceived(job: Job, s: State)
    requires Inv(job, s) && s.run.Some?
    requires s.run.value.writer.phase.FinalFlush? || s.run.value.writer.phase.FinalPut?
    ensures var r := s.run.value;
            r.received == Run(Src(job, r), StartPos(job, r), r.producer.chunks).messages
  {
    var r := s.run.value;
    assert r.received + [] + [] == r.received;
  }

  // ------------------------------------------------------------------ progress

  /** A run is never stuck: besides time-outs, crashes, cancels and failing
      transactions, there is always a step to take. */
  function Next(job: Job, r: Session): Action {
    var p, w := r.producer, r.writer;
    if p.todo != [] && (w.phase.Failed? || |r.channel| < CAPACITY) then Send
    else if Writing(w) then Transact
    else if r.channel != [] then Recv(false)
    else if p.outcome.Some? then (if w.phase.Failed? then JoinFailed else Disconnect)
    else if p.chunks < AllSteps(job, r) && !r.cancel then ReadChunk
    else EndScan
  }

  lemma NeverStuck(job: Job, s: State)
    requires Inv(job, s) && s.run.Some?
    ensures Enabled(job, s, Next(job, s.run.value))
  {
  }

  function Rank(r: Session): nat {
    (if r.producer.outcome.None? then 10 else 0) +
    (match r.writer.phase
     case CkptFlush => 6
     case CkptPut => 5
     case FlushBatch => 5
     case Listening => 4
     case FinalFlush => 3
     case FinalPut => 2
     case Failed => 1)
  }

  /** Work left: chunks and the cancel still possible, messages to send,
      messages in the channel, then what the writer is doing. */
  predicate LessWork(job: Job, r': Session, r: Session)
    requires r'.producer.chunks <= AllSteps(job, r') && r.producer.chunks <= AllSteps(job, r)
  {
    var a := AllSteps(job, r) - r.producer.chunks + (if r.cancel then 0 else 1);
    var a' := AllSteps(job, r') - r'.producer.chunks + (if r'.cancel then 0 else 1);
    || a' < a
    || (a' == a && |r'.producer.todo| < |r.producer.todo|)
    || (a' == a && |r'.producer.todo| == |r.producer.todo| && |r'.channel| < |r.channel|)
    || (a' == a && |r'.producer.todo| == |r.producer.todo| && |r'.channel| == |r.channel| && Rank(r') < Rank(r))
  }

  predicate Drops(job: Job, s: State, s': State)
    requires s.run.Some?
  {
    s'.run.Some? ==>
      && s'.run.value.producer.chunks <= AllSteps(job, s'.run.value)
      && s.run.value.producer.chunks <= AllSteps(job, s.run.value)
      && LessWork(job, s'.run.value, s.run.value)
  }

  predicate InBounds(job: Job, s: State) {
    s.run.Some? ==> s.run.value.producer.chunks <= AllSteps(job, s.run.value)
  }

  /** The carve thread's steps, and the cancel. */
  lemma ProducerDrops(job: Job, s: State, a: Action)
    requires InBounds(job, s) && s.run.Some? && Enabled(job, s, a)
    requires a.ReadChunk? || a.Send? || a.EndScan? || a.Cancel?
    ensures Drops(job, s, Apply(job, s, a))
  {
  }

  /** The writer takes a message, or the end. */
  lemma ReceiverDrops(job: Job, s: State, a: Action)
    requires InBounds(job, s) && s.run.Some? && Enabled(job, s, a) && (a.Recv? || a.Disconnect?)
    ensures Drops(job, s, Apply(job, s, a))
  {
  }

  /** A transaction. */
  lemma TransactDrops(job: Job, s: State)
    requires InBounds(job, s) && s.run.Some? && Enabled(job, s, Transact)
    requires s.run.value.writer.phase.FinalPut? ==> s.run.value.producer.outcome.Some?
    ensures Drops(job, s, Apply(job, s, Transact))
  {
  }

  /** A transaction that fails: the cancel is set, the channel is dropped. */
  lemma FailureDrops(job: Job, s: State)
    requires InBounds(job, s) && s.run.Some? && Enabled(job, s, TransactFails)
    ensures Drops(job, s, Apply(job, s, TransactFails))
  {
  }

  /** Every step but a time-out uses work up, failing transactions included, so
      a run ends; the step that ends it frees both threads. */
  lemma WorkDrops(job: Job, s: State, a: Action)
    requires Inv(job, s) && s.run.Some? && Enabled(job, s, a) && !a.Timeout?
    ensures Drops(job, s, Apply(job, s, a))
  {
    match a
    case Recv(_) => ReceiverDrops(job, s, a);
    case Disconnect => ReceiverDrops(job, s, a);
    case Transact => TransactDrops(job, s);
    case TransactFails => FailureDrops(job, s);
    case Crash =>
    case JoinFailed =>
    case _ => ProducerDrops(job, s, a);
  }
}
