/** What one run that is not interrupted adds to the store, and what each step of
    a run may write (crates/reclaim-session/src/scan.rs:104-126, 166-304). */
module ScanRuns {
  import opened Arith
  import opened Wrappers
  import opened CarveEngine
  import opened ScanProtocol
  import opened ScanResume
  import opened ResumeCuts

  /** A run that goes over `src` from `from` to the end leaves this. */
  predicate WentThrough(src: Source, blockSize: nat, from: nat, base: Store, t: State) {
    var start := if from < src.scanStart then src.scanStart else from;
    t.db.row.Some? && t.db.row.value.blockSize == blockSize
    && t.db.store == InsertAll(base, ResultsOf(src, start, Steps(src, start)))
  }

  predicate NotYetComplete(s: State) { s.db.row.Some? ==> !s.db.row.value.complete }

  /** The last step of a run that completes. */
  lemma LastStepCompletes(job: Job, s: State)
    requires Inv(job, s) && s.run.Some? && s.run.value.writer.phase.FinalPut?
    requires Enabled(job, s, Transact) && Complete(Apply(job, s, Transact))
    ensures var r := s.run.value;
            WentThrough(job(r.blockSize), r.blockSize, r.resumeFrom, r.base, Apply(job, s, Transact))
  {
    var r := s.run.value;
    LastStep(job, s);
    RunResults(Src(job, r), StartPos(job, r), AllSteps(job, r));
  }

  /** Any other step that ends a run completes nothing. */
  lemma OnlyTheLastStepCompletes(job: Job, s: State, a: Action)
    requires Inv(job, s) && s.run.Some? && NotYetComplete(s) && Enabled(job, s, a)
    ensures Complete(Apply(job, s, a)) ==> a.Transact? && s.run.value.writer.phase.FinalPut?
    ensures Apply(job, s, a).run.Some? ==> NotYetComplete(Apply(job, s, a))
  {
  }

  lemma NothingWithoutAStart(job: Job, s: State, acts: seq<Action>)
    requires s.run.None? && Legal(job, s, acts) && forall i | 0 <= i < |acts| :: !acts[i].Start?
    ensures acts == []
  {
  }

  lemma {:induction false} RestOfRun(job: Job, s: State, acts: seq<Action>)
    requires Inv(job, s) && s.run.Some? && NotYetComplete(s)
    requires Legal(job, s, acts) && (forall a | a in acts :: !a.Start?) && Complete(Exec(job, s, acts))
    ensures var r := s.run.value;
            WentThrough(job(r.blockSize), r.blockSize, r.resumeFrom, r.base, Exec(job, s, acts))
    decreases |acts|
  {
    if acts != [] {
      var a, t := acts[0], Apply(job, s, acts[0]);
      assert a in acts && forall x | x in acts[1..] :: x in acts;
      StepKeepsInv(job, s, a);
      OnlyTheLastStepCompletes(job, s, a);
      if t.run.Some? {
        StepStays(job, s, a);
        RestOfRun(job, t, acts[1..]);
      } else {
        NothingWithoutAStart(job, t, acts[1..]);
        assert Exec(job, s, acts) == Exec(job, t, acts[1..]) == t;
        LastStepCompletes(job, s);
      }
    }
  }

  /** A run that completes, whatever was stored before: told to resume, with a row
      there, it adds what a scan from the row's cursor with the row's block size
      finds; otherwise, what a scan from the start with the given one finds. */
  lemma RunThatCompletes(job: Job, s: State, blockSize: nat, resume: bool, acts: seq<Action>)
    requires Inv(job, s) && Enabled(job, s, Start(blockSize, resume))
    requires Legal(job, Apply(job, s, Start(blockSize, resume)), acts) && forall a | a in acts :: !a.Start?
    requires Complete(Exec(job, Apply(job, s, Start(blockSize, resume)), acts))
    ensures var t := Exec(job, Apply(job, s, Start(blockSize, resume)), acts);
            var row := s.db.row;
            if resume && row.Some?
            then WentThrough(job(row.value.blockSize), row.value.blockSize, row.value.cursor, s.db.store, t)
            else WentThrough(job(blockSize), blockSize, 0, s.db.store, t)
  {
    StepKeepsInv(job, s, Start(blockSize, resume));
    RestOfRun(job, Apply(job, s, Start(blockSize, resume)), acts);
  }

  /** A run that is not told to resume scans everything, also over the row of an
      interrupted session. */
  lemma AnewScansAll(job: Job, s: State, blockSize: nat, acts: seq<Action>)
    requires Inv(job, s) && Enabled(job, s, Start(blockSize, false))
    requires Legal(job, Apply(job, s, Start(blockSize, false)), acts) && forall a | a in acts :: !a.Start?
    requires Complete(Exec(job, Apply(job, s, Start(blockSize, false)), acts))
    ensures Exec(job, Apply(job, s, Start(blockSize, false)), acts).db.store
         == InsertAll(s.db.store, WholeScan(job(blockSize)))
  {
    RunThatCompletes(job, s, blockSize, false, acts);
  }

  /** Such a run exists: left alone, it completes. */
  lemma AnewCanComplete(job: Job, s: State, blockSize: nat) returns (acts: seq<Action>)
    requires Inv(job, s) && Enabled(job, s, Start(blockSize, false))
    ensures Legal(job, Apply(job, s, Start(blockSize, false)), acts) && forall a | a in acts :: !a.Start?
    ensures Complete(Exec(job, Apply(job, s, Start(blockSize, false)), acts))
  {
    StepKeepsInv(job, s, Start(blockSize, false));
    acts := Drain(job, Apply(job, s, Start(blockSize, false)));
  }

  // ---------------------------------------------------------------- what is durable when

  /** Only transactions write: results when a batch or a checkpoint is flushed, the
      row when a checkpoint or a run is closed. A start, a crash, a cancel, a
      failure and all else leave both tables alone. */
  lemma OnlyTransactsWrite(job: Job, s: State, a: Action)
    requires Enabled(job, s, a)
    ensures Apply(job, s, a).db.row != s.db.row ==>
              a.Transact? && (s.run.value.writer.phase.CkptPut? || s.run.value.writer.phase.FinalPut?)
    ensures Apply(job, s, a).db.store != s.db.store ==>
              a.Transact? && s.run.value.writer.pending != []
              && Apply(job, s, a).db.store == InsertAll(s.db.store, s.run.value.writer.pending)
  {
  }

  /** A run begins with nothing read, claimed, received or reported, so its first
      checkpoint is due after a GiB. */
  lemma RunBegins(job: Job, s: State, blockSize: nat, resume: bool)
    requires Enabled(job, s, Start(blockSize, resume))
    ensures Apply(job, s, Start(blockSize, resume)).db == s.db && Apply(job, s, Start(blockSize, resume)).run.Some?
    ensures var r := Apply(job, s, Start(blockSize, resume)).run.value;
            && r.producer == Producer(0, [], 0, [], None) && r.channel == [] && r.received == [] && !r.cancel
            && r.writer == Writer(Listening, [], r.resumeFrom, 0, job(r.blockSize).length, 0, 0)
  {
  }

  /** Whatever the writer is about to write, writing it may fail; an empty flush before
      a row writes nothing. After a failure both tables are as they were, and the rest
      of the run writes nothing more. */
  lemma AnyWriteMayFail(job: Job, s: State)
    requires s.run.Some? && !Listens(s) && !s.run.value.writer.phase.Failed?
    ensures var w := s.run.value.writer;
            Enabled(job, s, TransactFails) <==> w.pending != [] || !(w.phase.CkptFlush? || w.phase.FinalFlush?)
    ensures Enabled(job, s, TransactFails) ==>
              var t := Apply(job, s, TransactFails);
              t.db == s.db && (t.run.Some? ==> t.run.value.cancel && t.run.value.writer.phase.Failed?)
  {
  }

  /** A run whose writer failed only winds up. */
  lemma FailedWritesNothing(job: Job, s: State, a: Action)
    requires s.run.Some? && s.run.value.writer.phase.Failed? && Enabled(job, s, a)
    ensures Apply(job, s, a).db == s.db
    ensures Apply(job, s, a).run.Some? ==> Apply(job, s, a).run.value.writer.phase.Failed?
  {
  }

  /** The interval is looked at when there is nothing to receive and the carve thread
      has not ended. */
  lemma QuietIff(job: Job, s: State, due: bool)
    requires Listens(s)
    ensures Enabled(job, s, Timeout(due)) <==> s.run.value.channel == [] && s.run.value.producer.outcome.None?
    ensures Enabled(job, s, Disconnect) <==> s.run.value.channel == [] && s.run.value.producer.outcome.Some?
    ensures Enabled(job, s, Recv(due)) <==> s.run.value.channel != []
  {
  }

  /** Once cancelled, a run reads no chunk. */
  lemma CancelIsHeeded(job: Job, s: State, a: Action)
    requires Enabled(job, s, a) && s.run.Some? && s.run.value.cancel && Apply(job, s, a).run.Some?
    ensures Apply(job, s, a).run.value.cancel
    ensures Apply(job, s, a).run.value.producer.chunks == s.run.value.producer.chunks
  {
  }

  /** The writer is listening, this message is next, and nothing comes between. */
  predicate Listens(s: State) { s.run.Some? && s.run.value.writer.phase.Listening? }

  /** A report that arrives when the interval has passed, or a GiB after the last
      checkpoint, is written down with everything received before it. */
  lemma DueReportIsWritten(job: Job, s: State, m: Message, due: bool)
    requires Listens(s) && s.run.value.channel != [] && s.run.value.channel[0] == m && m.Progress?
    requires due || m.scanned >= s.run.value.writer.lastScanned + 1_073_741_824
    ensures Legal(job, s, [Recv(due), Transact, Transact])
    ensures Exec(job, s, [Recv(due), Transact, Transact]).db
         == Db(InsertAll(s.db.store, s.run.value.writer.pending),
               Some(Row(m.cursor, m.scanned, m.total, m.found, false, s.run.value.blockSize)))
  {
    var s1 := Apply(job, s, Recv(due));
    assert Enabled(job, s1, Transact) && Enabled(job, Apply(job, s1, Transact), Transact);
    ThreeSteps(job, s, Recv(due), Transact, Transact);
  }

  lemma ThreeSteps(job: Job, s: State, a: Action, b: Action, c: Action)
    requires Enabled(job, s, a) && Enabled(job, Apply(job, s, a), b)
    requires Enabled(job, Apply(job, Apply(job, s, a), b), c)
    ensures Legal(job, s, [a, b, c])
    ensures Exec(job, s, [a, b, c]) == Apply(job, Apply(job, Apply(job, s, a), b), c)
  {
    var t := Apply(job, s, a);
    var u := Apply(job, t, b);
    Prepend(job, u, c, []);
    Prepend(job, t, b, [c]);
    Prepend(job, s, a, [b, c]);
    assert [c] + [] == [c] && [b] + [c] == [b, c] && [a] + [b, c] == [a, b, c];
  }

  /** Any other report is only remembered. */
  lemma EarlyReportIsKept(job: Job, s: State, m: Message)
    requires Listens(s) && s.run.value.channel != [] && s.run.value.channel[0] == m && m.Progress?
    requires m.scanned < s.run.value.writer.lastScanned + 1_073_741_824
    ensures Enabled(job, s, Recv(false)) && Listens(Apply(job, s, Recv(false)))
    ensures Apply(job, s, Recv(false)).db == s.db
    ensures var w, w' := s.run.value.writer, Apply(job, s, Recv(false)).run.value.writer;
            w' == w.(cursor := m.cursor, scanned := m.scanned, total := m.total, found := m.found)
  {
  }

  /** A quiet interval that has passed writes the last report down again. */
  lemma DueTimeoutIsWritten(job: Job, s: State)
    requires Listens(s) && Enabled(job, s, Timeout(true))
    ensures Legal(job, s, [Timeout(true), Transact, Transact])
    ensures var w := s.run.value.writer;
            Exec(job, s, [Timeout(true), Transact, Transact]).db
            == Db(InsertAll(s.db.store, w.pending),
                  Some(Row(w.cursor, w.scanned, w.total, w.found, false, s.run.value.blockSize)))
    ensures Apply(job, s, Timeout(false)) == s
  {
    ThreeSteps(job, s, Timeout(true), Transact, Transact);
  }

  /** A result is only remembered, unless it is the 1024th. */
  lemma FullBatchIsWritten(job: Job, s: State, f: Carved)
    requires Inv(job, s) && Listens(s) && s.run.value.channel != [] && s.run.value.channel[0] == Found(f)
    ensures var w := s.run.value.writer;
            if |w.pending| < 1023
            then
              && Listens(Apply(job, s, Recv(false)))
              && Apply(job, s, Recv(false)).run.value.writer.pending == w.pending + [f]
            else
              && Legal(job, s, [Recv(false), Transact])
              && Exec(job, s, [Recv(false), Transact]).db.store == InsertAll(s.db.store, w.pending + [f])
              && Exec(job, s, [Recv(false), Transact]).run.value.writer.pending == []
  {
    var a := [Recv(false), Transact];
    assert a[1..] == [Transact] && a[1..][1..] == [];
  }

  /** The channel holds at most 4096 messages. */
  lemma SendWaits(job: Job, s: State)
    requires s.run.Some? && !s.run.value.writer.phase.Failed? && s.run.value.producer.todo != []
    ensures Enabled(job, s, Send) <==> |s.run.value.channel| < 4096
  {
  }

  // --------------------------------------------------------------- what a row says

  /** The last report among some messages. */
  function LastOf(initial: Message, ms: seq<Message>): Message {
    if ms == [] then initial else if ms[|ms| - 1].Progress? then ms[|ms| - 1] else LastOf(initial, ms[..|ms| - 1])
  }

  /** What the writer remembers is the last report it received. */
  predicate Remembers(job: Job, s: State) {
    s.run.Some? ==>
      var r := s.run.value;
      Progress(r.writer.cursor, r.writer.scanned, r.writer.total, r.writer.found)
      == LastOf(Progress(r.resumeFrom, 0, Src(job, r).length, 0), r.received)
  }

  lemma StepRemembers(job: Job, s: State, a: Action)
    requires Remembers(job, s) && Enabled(job, s, a)
    ensures Remembers(job, Apply(job, s, a))
  {
    if a.Recv? {
      var r := s.run.value;
      assert (r.received + [r.channel[0]])[..|r.received|] == r.received;
    }
  }

  lemma {:induction false} ReportsConcat(a: seq<Message>, b: seq<Message>)
    ensures Reports(a + b) == Reports(a) + Reports(b)
    decreases |b|
  {
    if b == [] {
      assert a + b == a;
    } else {
      assert (a + b)[..|a + b| - 1] == a + b[..|b| - 1];
      ReportsConcat(a, b[..|b| - 1]);
    }
  }

  lemma {:induction false} LastOfConcat(initial: Message, a: seq<Message>, b: seq<Message>)
    requires Reports(b) == 0
    ensures LastOf(initial, a + b) == LastOf(initial, a)
    decreases |b|
  {
    if b == [] {
      assert a + b == a;
    } else {
      assert (a + b)[..|a + b| - 1] == a + b[..|b| - 1];
      LastOfConcat(initial, a, b[..|b| - 1]);
    }
  }

  /** What the report of the `m`-th chunk says: how far the scan has come, from
      where and to where it goes, and how many results there were. */
  function Account(src: Source, start: nat, m: nat): Message {
    var cursor := if start + m * 8_388_608 < src.scanEnd then start + m * 8_388_608 else src.scanEnd;
    Progress(cursor, if cursor < src.scanStart then 0 else cursor - src.scanStart,
             if src.scanEnd < src.scanStart then 0 else src.scanEnd - src.scanStart, |ResultsOf(src, start, m)|)
  }

  lemma LastReportIs(src: Source, start: nat, m: nat, initial: Message)
    requires m > 0
    ensures LastOf(initial, Run(src, start, m).messages) == Account(src, start, m)
  {
    var t, found := Run(src, start, m - 1), |ResultsOf(src, start, m)|;
    RunOn(src, start, m - 1, t);
    RunResults(src, start, m);
    EndsWithReport(src, start, m, t, found);
    LastOfReport(initial, t.messages, ChunkMessages(src, start, m - 1, t));
    ReportIsAccount(src, start, m, found);
  }

  lemma ReportIsAccount(src: Source, start: nat, m: nat, found: nat)
    requires found == |ResultsOf(src, start, m)|
    ensures Report(src, Position(start, m), found) == Account(src, start, m)
  {
  }

  lemma EndsWithReport(src: Source, start: nat, m: nat, t: Trace, found: nat)
    requires m > 0 && found == t.found + |ChunkPass(src, start, m - 1, t.claims).emitted|
    ensures ChunkMessages(src, start, m - 1, t) != []
    ensures ChunkMessages(src, start, m - 1, t)[|ChunkMessages(src, start, m - 1, t)| - 1]
         == Report(src, Position(start, m), found)
  {
  }

  lemma LastOfReport(initial: Message, before: seq<Message>, ms: seq<Message>)
    requires ms != [] && ms[|ms| - 1].Progress?
    ensures LastOf(initial, before + ms) == ms[|ms| - 1]
  {
  }

  lemma NoReportAfter(first: seq<Message>, got: seq<Message>, initial: Message)
    requires first <= got && Reports(first) == Reports(got)
    ensures LastOf(initial, got) == LastOf(initial, first)
  {
    var tail := got[|first|..];
    assert got == first + tail;
    ReportsConcat(first, tail);
    LastOfConcat(initial, first, tail);
  }

  /** What a run has received, down to its last report. */
  lemma ReceivedAccount(src: Source, start: nat, n: nat, got: seq<Message>, initial: Message)
    requires got <= Run(src, start, n).messages
    ensures LastOf(initial, got) == if Reports(got) == 0 then initial else Account(src, start, Reports(got))
  {
    var m := Reports(got);
    PrefixMeaning(src, start, n, got, 0);
    PrefixMeaning(src, start, m, Run(src, start, m).messages, 0);
    NoReportAfter(Run(src, start, m).messages, got, initial);
    if m > 0 {
      LastReportIs(src, start, m, initial);
    }
  }

  /** A checkpoint's row: the account of the last chunk whose report was received. */
  lemma CheckpointSays(job: Job, s: State)
    requires Inv(job, s) && Remembers(job, s) && s.run.Some? && s.run.value.writer.phase.CkptPut?
    ensures var r := s.run.value;
            var m := Reports(r.received);
            var x := if m == 0 then Progress(r.resumeFrom, 0, Src(job, r).length, 0)
                     else Account(Src(job, r), StartPos(job, r), m);
            Apply(job, s, Transact).db.row == Some(Row(x.cursor, x.scanned, x.total, x.found, false, r.blockSize))
  {
    var r := s.run.value;
    ReceivedAccount(Src(job, r), StartPos(job, r), r.producer.chunks, r.received,
                    Progress(r.resumeFrom, 0, Src(job, r).length, 0));
  }

  /** The last row of a run: where it stopped, the results of its chunks, and
      complete if it was not interrupted. */
  lemma FinalRowSays(job: Job, s: State)
    requires Inv(job, s) && Remembers(job, s) && s.run.Some? && s.run.value.writer.phase.FinalPut?
    ensures var r := s.run.value;
            var n, src, start := r.producer.chunks, Src(job, r), StartPos(job, r);
            var row := Apply(job, s, Transact).db.row;
            && row.Some? && Apply(job, s, Transact).run == None
            && row.value.cursor == Account(src, start, n).cursor && row.value.found == |ResultsOf(src, start, n)|
            && (row.value.complete <==> start + n * 8_388_608 >= src.scanEnd)
            && row.value.total == (if n == 0 then src.length else Account(src, start, n).total)
            && row.value.scanned
               == Min(row.value.total, Max(if n == 0 then 0 else Account(src, start, n).scanned, row.value.cursor))
  {
    var r := s.run.value;
    var n, src, start := r.producer.chunks, Src(job, r), StartPos(job, r);
    AllReceived(job, s);
    PrefixMeaning(src, start, n, r.received, 0);
    ReceivedAccount(src, start, n, r.received, Progress(r.resumeFrom, 0, src.length, 0));
    RunResults(src, start, n);
    StepsLeft(src, start, n);
  }
}
