/** What crashes, checkpoints and resumes leave in the store
    (crates/reclaim-session/src/scan.rs:1-5, 116-126, 187-304). */
module ScanResume {
  import opened Arith
  import opened Wrappers
  import opened CarveEngine
  import opened ScanProtocol
  import opened ResumeCuts

  function LastChunk(src: Source): nat { Steps(src, src.scanStart) }

  ghost predicate AllCutsSafe(src: Source) {
    forall k: nat | k <= LastChunk(src) :: CutSafe(src, k)
  }

  ghost predicate AllCutsClean(src: Source) {
    forall k: nat | k <= LastChunk(src) :: CutClean(src, k)
  }

  /** A stored cursor that names the start of chunk `k`, or the scan's end. */
  predicate AtChunk(src: Source, cursor: nat, k: nat) {
    && k <= LastChunk(src)
    && (k < LastChunk(src) ==> StartOf(src, cursor) == Position(src.scanStart, k))
    && (k == LastChunk(src) ==> StartOf(src, cursor) >= src.scanEnd)
  }

  lemma ResultsGrow(src: Source, k: nat, k': nat)
    requires k <= k'
    ensures ResultsUpTo(src, k) <= ResultsUpTo(src, k')
  {
    var n := k' - k;
    assert k + n == k';
    CandidatesSplit(src, src.scanStart, k, n);
    FoldConcat([], Candidates(src, src.scanStart, k), Candidates(src, Position(src.scanStart, k), n),
               src.keepCorrupted);
  }

  /** What is safe up to the end of the scan is safe up to any chunk. */
  lemma SafeUpTo(src: Source, k: nat, n: nat)
    requires k + n <= LastChunk(src) && CutSafe(src, k)
    ensures Forgettable(Run(src, src.scanStart, k).claims, Candidates(src, Position(src.scanStart, k), n),
                        src.keepCorrupted)
  {
    var rest := Candidates(src, Position(src.scanStart, k), n);
    CandidatesSplit(src, Position(src.scanStart, k), n, LastChunk(src) - k - n);
    assert n + (LastChunk(src) - k - n) == LastChunk(src) - k;
    assert rest == Rest(src, k)[..|rest|];
    ForgettableBefore(Run(src, src.scanStart, k).claims, Rest(src, k), src.keepCorrupted, |rest|);
  }

  /** From a safe cut, a loop with no claims continues as if it had them. */
  lemma SafeRun(src: Source, k: nat, n: nat)
    requires k + n <= LastChunk(src) && CutSafe(src, k)
    ensures ResultsUpTo(src, k) + Founds(Run(src, Position(src.scanStart, k), n).messages)
         == ResultsUpTo(src, k + n)
  {
    var rest := Candidates(src, Position(src.scanStart, k), n);
    CandidatesSplit(src, src.scanStart, k, n);
    RunResults(src, src.scanStart, k);
    FoldConcat([], Candidates(src, src.scanStart, k), rest, src.keepCorrupted);
    SafeUpTo(src, k, n);
    var x := FoldForgets(Run(src, src.scanStart, k).claims, rest, src.keepCorrupted);
    RunResults(src, Position(src.scanStart, k), n);
  }

  /** A run from a stored cursor, measured on the uninterrupted scan. */
  lemma RunFromCursor(src: Source, cursor: nat, k: nat, n: nat)
    requires AllCutsSafe(src) && AtChunk(src, cursor, k)
    requires n <= Steps(src, StartOf(src, cursor))
    ensures k + n <= LastChunk(src)
    ensures ResultsUpTo(src, k) + Founds(Run(src, StartOf(src, cursor), n).messages) == ResultsUpTo(src, k + n)
    ensures n == Steps(src, StartOf(src, cursor)) ==> k + n == LastChunk(src)
    ensures AtChunk(src, CursorAfter(src, StartOf(src, cursor), cursor, n), k + n)
  {
    var start := StartOf(src, cursor);
    if k == LastChunk(src) {
      assert Steps(src, start) == 0;
      assert Founds(Run(src, start, 0).messages) == [];
    } else {
      StepsFrom(src, k);
      SafeRun(src, k, n);
    }
  }

  lemma StepsFrom(src: Source, k: nat)
    requires k <= LastChunk(src)
    ensures Steps(src, Position(src.scanStart, k)) == LastChunk(src) - k
  {
  }

  // ------------------------------------------------------------ insert-or-ignore

  lemma {:induction false} InsertKeys(store: Store, batch: seq<Carved>)
    ensures forall q ::
              q in InsertAll(store, batch) <==> q in store || exists i :: 0 <= i < |batch| && KeyOf(batch[i]) == q
    decreases |batch|
  {
    if batch != [] {
      var last := |batch| - 1;
      InsertKeys(store, batch[..last]);
      forall q
        ensures q in InsertAll(store, batch) <==> q in store || exists i :: 0 <= i < |batch| && KeyOf(batch[i]) == q
      {
        if exists i :: 0 <= i < |batch| && KeyOf(batch[i]) == q {
          var i :| 0 <= i < |batch| && KeyOf(batch[i]) == q;
          assert i < last ==> KeyOf(batch[..last][i]) == q;
        }
        if exists i :: 0 <= i < last && KeyOf(batch[..last][i]) == q {
          var i :| 0 <= i < last && KeyOf(batch[..last][i]) == q;
          assert KeyOf(batch[i]) == q;
        }
      }
    }
  }

  lemma {:induction false} InsertKnown(store: Store, batch: seq<Carved>)
    requires forall i | 0 <= i < |batch| :: KeyOf(batch[i]) in store
    ensures InsertAll(store, batch) == store
    decreases |batch|
  {
    if batch != [] {
      InsertKnown(store, batch[..|batch| - 1]);
    }
  }

  lemma InsertInside(all: seq<Carved>, n: nat, lo: nat, hi: nat)
    requires lo <= hi <= n <= |all|
    ensures InsertAll(InsertAll(map[], all[..n]), all[lo..hi]) == InsertAll(map[], all[..n])
  {
    var store := InsertAll(map[], all[..n]);
    InsertKeys(map[], all[..n]);
    forall i | 0 <= i < |all[lo..hi]| ensures KeyOf(all[lo..hi][i]) in store {
      assert all[lo..hi][i] == all[..n][lo + i];
    }
    InsertKnown(store, all[lo..hi]);
  }

  /** Inserting a stretch of a list again, after a prefix that reaches its
      start, leaves what the longer of the two prefixes would. */
  lemma InsertAgain(all: seq<Carved>, n: nat, lo: nat, hi: nat)
    requires lo <= n <= |all| && lo <= hi <= |all|
    ensures InsertAll(InsertAll(map[], all[..n]), all[lo..hi]) == InsertAll(map[], all[..Max(n, hi)])
  {
    if hi <= n {
      InsertInside(all, n, lo, hi);
    } else {
      InsertPast(all, n, lo, hi);
    }
  }

  lemma InsertPast(all: seq<Carved>, n: nat, lo: nat, hi: nat)
    requires lo <= n < hi <= |all|
    ensures InsertAll(InsertAll(map[], all[..n]), all[lo..hi]) == InsertAll(map[], all[..hi])
  {
    InsertInside(all, n, lo, n);
    InsertConcat(InsertAll(map[], all[..n]), all[lo..n], all[n..hi]);
    InsertConcat(map[], all[..n], all[n..hi]);
    JoinSlices(all, lo, n, hi);
  }

  lemma JoinSlices<T>(s: seq<T>, a: nat, b: nat, c: nat)
    requires a <= b <= c <= |s|
    ensures s[a..b] + s[b..c] == s[a..c] && s[..b] + s[b..c] == s[..c]
  {
  }

  // ------------------------------------------------------------- the guarantee

  /** The stored rows are those of the first `n` results; a row's cursor is at
      chunk `k`; the run, if any, began at chunk `k0` over the first `n0`. */
  datatype Witness = Witness(n: nat, k: nat, n0: nat, k0: nat)

  predicate Holds(src: Source, store: Store, n: nat) {
    var all := ResultsUpTo(src, LastChunk(src));
    n <= |all| && store == InsertAll(map[], all[..n])
  }

  predicate RowExact(src: Source, blockSize: nat, row: Option<Row>, k: nat, n: nat) {
    row.Some? ==>
      && row.value.blockSize == blockSize
      && AtChunk(src, row.value.cursor, k)
      && |ResultsUpTo(src, k)| <= n
      && (row.value.complete ==> k == LastChunk(src))
  }

  /** How many of the results are durable, by the run's own books. */
  function Durable(src: Source, r: Session, w: Witness): nat {
    Max(w.n0, |ResultsUpTo(src, w.k0)| + Minus(|Founds(r.received)|, |r.writer.pending|))
  }

  predicate RunExact(src: Source, blockSize: nat, r: Session, w: Witness) {
    && r.blockSize == blockSize
    && AtChunk(src, r.resumeFrom, w.k0)
    && Holds(src, r.base, w.n0)
    && |ResultsUpTo(src, w.k0)| <= w.n0
    && w.n == Durable(src, r, w)
  }

  predicate Exact(src: Source, blockSize: nat, s: State, w: Witness) {
    && Holds(src, s.db.store, w.n)
    && RowExact(src, blockSize, s.db.row, w.k, w.n)
    && (s.run.Some? ==> RunExact(src, blockSize, s.run.value, w))
  }

  /** Where a run that began at chunk `k0` stands on the uninterrupted scan. */
  lemma OnTheScan(src: Source, r: Session, k0: nat, n: nat)
    requires AllCutsSafe(src) && AtChunk(src, r.resumeFrom, k0)
    requires n <= Steps(src, StartOf(src, r.resumeFrom))
    ensures ResultsUpTo(src, k0) + Founds(Run(src, StartOf(src, r.resumeFrom), n).messages)
         <= ResultsUpTo(src, LastChunk(src))
  {
    RunFromCursor(src, r.resumeFrom, k0, n);
    ResultsGrow(src, k0 + n, LastChunk(src));
  }

  lemma InsertStretch(all: seq<Carved>, before: seq<Carved>, sent: seq<Carved>, files: seq<Carved>, m: nat, n0: nat)
    requires before + sent <= all && files <= sent && m <= |files| && |before| <= n0 <= |all|
    ensures InsertAll(InsertAll(map[], all[..n0]), files[..m]) == InsertAll(map[], all[..Max(n0, |before| + m)])
  {
    var hi := |before| + m;
    assert all[|before|..hi] == files[..m] by {
      assert (before + sent)[|before|..hi] == sent[..m];
    }
    InsertAgain(all, n0, |before|, hi);
  }

  /** The store follows from the run's books. */
  lemma StoreOfRun(src: Source, x: Expected, r: Session, store: Store, w: Witness)
    requires RunInv(x, r, store)
    requires ResultsUpTo(src, w.k0) + Founds(x.trace.messages) <= ResultsUpTo(src, LastChunk(src))
    requires Holds(src, r.base, w.n0) && |ResultsUpTo(src, w.k0)| <= w.n0
    ensures Holds(src, store, Durable(src, r, w))
  {
    var files := Founds(r.received);
    FoundsPrefix(r.received, x.trace.messages);
    InsertStretch(ResultsUpTo(src, LastChunk(src)), ResultsUpTo(src, w.k0), Founds(x.trace.messages),
                  files, |files| - |r.writer.pending|, w.n0);
  }

  lemma CursorCovers(src: Source, start: nat, cursor: nat, m: nat, got: seq<Message>, k0: nat) returns (k: nat)
    requires AllCutsSafe(src) && start == StartOf(src, cursor)
    requires AtChunk(src, cursor, k0) && m <= Steps(src, start)
    requires Run(src, start, m).messages <= got
    ensures AtChunk(src, CursorAfter(src, start, cursor, m), k)
    ensures |ResultsUpTo(src, k)| <= |ResultsUpTo(src, k0)| + |Founds(got)|
  {
    RunFromCursor(src, cursor, k0, m);
    FoundsPrefix(Run(src, start, m).messages, got);
    k := k0 + m;
  }

  /** Some of a run's messages have arrived and nothing is pending: the chunk
      its cursor names is covered. */
  lemma CheckpointCovers(src: Source, start: nat, r: Session, chunks: nat, w: Witness) returns (k: nat)
    requires AllCutsSafe(src) && start == StartOf(src, r.resumeFrom)
    requires AtChunk(src, r.resumeFrom, w.k0) && chunks <= Steps(src, start)
    requires r.received <= Run(src, start, chunks).messages
    requires r.writer.cursor == LastCursor(r.resumeFrom, r.received) && r.writer.pending == []
    ensures AtChunk(src, r.writer.cursor, k) && |ResultsUpTo(src, k)| <= Durable(src, r, w)
  {
    var m := Reports(r.received);
    assert m <= chunks && Run(src, start, m).messages <= r.received
           && r.writer.cursor == CursorAfter(src, start, r.resumeFrom, m) by {
      PrefixMeaning(src, start, chunks, r.received, r.resumeFrom);
    }
    k := CursorCovers(src, start, r.resumeFrom, m, r.received, w.k0);
  }

  /** The final row covers everything the run read. */
  lemma FinalCovers(src: Source, start: nat, r: Session, chunks: nat, w: Witness) returns (k: nat)
    requires AllCutsSafe(src) && start == StartOf(src, r.resumeFrom)
    requires AtChunk(src, r.resumeFrom, w.k0) && chunks <= Steps(src, start)
    requires r.received == Run(src, start, chunks).messages && r.writer.pending == []
    ensures AtChunk(src, Min(Position(start, chunks), src.scanEnd), k) && |ResultsUpTo(src, k)| <= Durable(src, r, w)
    ensures chunks == Steps(src, start) ==> k == LastChunk(src)
  {
    k := CoveredByRun(src, r.resumeFrom, w.k0, chunks, r.received);
    if chunks == 0 {
      EmptyRunCursor(src, r.resumeFrom, k);
    }
  }

  lemma CoveredByRun(src: Source, cursor: nat, k0: nat, n: nat, got: seq<Message>) returns (k: nat)
    requires AllCutsSafe(src) && AtChunk(src, cursor, k0)
    requires n <= Steps(src, StartOf(src, cursor)) && got == Run(src, StartOf(src, cursor), n).messages
    ensures k == k0 + n && k <= LastChunk(src) && |ResultsUpTo(src, k)| == |ResultsUpTo(src, k0)| + |Founds(got)|
    ensures n == Steps(src, StartOf(src, cursor)) ==> k == LastChunk(src)
    ensures AtChunk(src, CursorAfter(src, StartOf(src, cursor), cursor, n), k)
  {
    RunFromCursor(src, cursor, k0, n);
    k := k0 + n;
  }

  lemma EmptyRunCursor(src: Source, cursor: nat, k: nat)
    requires AtChunk(src, cursor, k)
    ensures AtChunk(src, Min(Position(StartOf(src, cursor), 0), src.scanEnd), k)
  {
  }

  predicate Uses(a: Action, blockSize: nat) { a.Start? ==> a.blockSize == blockSize }

  /** What a step inside a run leaves alone, and what it can only increase. */
  predicate Stays(s: State, s': State, a: Action)
    requires s.run.Some? && s'.run.Some?
  {
    var r, r' := s.run.value, s'.run.value;
    && r'.blockSize == r.blockSize && r'.resumeFrom == r.resumeFrom && r'.base == r.base
    && Settled(r) <= Settled(r')
    && s'.db.row == if a.Transact? && r.writer.phase.CkptPut? then Some(CheckpointRow(r.writer, r.blockSize))
                    else s.db.row
  }

  /** Results received and no longer pending. */
  function Settled(r: Session): nat { Minus(|Founds(r.received)|, |r.writer.pending|) }

  lemma FoundsOne(ms: seq<Message>, m: Message)
    ensures |Founds(ms + [m])| == |Founds(ms)| + (if m.Found? then 1 else 0)
  {
    FoundsConcat(ms, [m]);
    assert [m][..0] == [] && Founds([]) == [];
  }

  lemma StepStays(job: Job, s: State, a: Action)
    requires Inv(job, s) && Enabled(job, s, a) && !a.Start? && Apply(job, s, a).run.Some?
    ensures Stays(s, Apply(job, s, a), a)
  {
    var r := s.run.value;
    if a.Recv? {
      FoundsOne(r.received, r.channel[0]);
    }
  }

  lemma StaysExact(job: Job, blockSize: nat, s: State, s': State, a: Action, w: Witness) returns (w': Witness)
    requires AllCutsSafe(job(blockSize))
    requires s.run.Some? && s'.run.Some? && Inv(job, s) && Inv(job, s')
    requires Exact(job(blockSize), blockSize, s, w) && Stays(s, s', a)
    ensures Exact(job(blockSize), blockSize, s', w')
  {
    var src := job(blockSize);
    var r, r' := s.run.value, s'.run.value;
    OnTheScan(src, r', w.k0, r'.producer.chunks);
    StoreOfRun(src, Expect(job, r', r'.producer.chunks), r', s'.db.store, w);
    w' := w.(n := Durable(src, r', w));
    if a.Transact? && r.writer.phase.CkptPut? {
      var k := CheckpointCovers(src, StartPos(job, r), r, r.producer.chunks, w);
      w' := w'.(k := k);
    }
  }

  /** A step inside a run. */
  lemma RunStepKeepsExact(job: Job, blockSize: nat, s: State, a: Action, w: Witness) returns (w': Witness)
    requires AllCutsSafe(job(blockSize))
    requires Inv(job, s) && Exact(job(blockSize), blockSize, s, w)
    requires Enabled(job, s, a) && !a.Start? && Apply(job, s, a).run.Some?
    ensures Exact(job(blockSize), blockSize, Apply(job, s, a), w')
  {
    StepKeepsInv(job, s, a);
    StepStays(job, s, a);
    w' := StaysExact(job, blockSize, s, Apply(job, s, a), a, w);
  }

  /** Every step of every run keeps the store exact. */
  lemma StepKeepsExact(job: Job, blockSize: nat, s: State, a: Action, w: Witness) returns (w': Witness)
    requires AllCutsSafe(job(blockSize))
    requires Inv(job, s) && Exact(job(blockSize), blockSize, s, w)
    requires Enabled(job, s, a) && Uses(a, blockSize)
    ensures Exact(job(blockSize), blockSize, Apply(job, s, a), w')
  {
    if a.Start? {
      w' := w.(n0 := w.n, k0 := if a.resume && s.db.row.Some? then w.k else 0);
    } else if Apply(job, s, a).run.Some? {
      w' := RunStepKeepsExact(job, blockSize, s, a, w);
    } else {
      w' := w;
      if a.Transact? {
        var r := s.run.value;
        AllReceived(job, s);
        var k := FinalCovers(job(blockSize), StartPos(job, r), r, r.producer.chunks, w);
        w' := w.(k := k);
      }
    }
  }

  lemma {:induction false} ReachableExact(job: Job, blockSize: nat, s: State, acts: seq<Action>, w: Witness)
    returns (w': Witness)
    requires AllCutsSafe(job(blockSize))
    requires Inv(job, s) && Exact(job(blockSize), blockSize, s, w)
    requires Legal(job, s, acts) && forall a | a in acts :: Uses(a, blockSize)
    ensures Exact(job(blockSize), blockSize, Exec(job, s, acts), w')
    decreases |acts|
  {
    w' := w;
    if acts != [] {
      w' := StepKeepsExact(job, blockSize, s, acts[0], w);
      StepKeepsInv(job, s, acts[0]);
      w' := ReachableExact(job, blockSize, Apply(job, s, acts[0]), acts[1..], w');
    }
  }

  lemma FreshExact(job: Job, blockSize: nat)
    ensures Inv(job, Fresh) && Exact(job(blockSize), blockSize, Fresh, Witness(0, 0, 0, 0))
  {
    assert ResultsUpTo(job(blockSize), LastChunk(job(blockSize)))[..0] == [];
  }

  /** Whatever the steps, crashes and resumes: a stored cursor names a chunk
      boundary, and every result of every chunk below it is in the store. */
  lemma CursorIsCovered(job: Job, blockSize: nat, acts: seq<Action>) returns (k: nat)
    requires AllCutsSafe(job(blockSize))
    requires Legal(job, Fresh, acts) && forall a | a in acts :: Uses(a, blockSize)
    ensures var src, db := job(blockSize), Exec(job, Fresh, acts).db;
            db.row.Some? ==>
              && AtChunk(src, db.row.value.cursor, k)
              && forall f | f in ResultsUpTo(src, k) :: KeyOf(f) in db.store
  {
    var src, db := job(blockSize), Exec(job, Fresh, acts).db;
    FreshExact(job, blockSize);
    var w := ReachableExact(job, blockSize, Fresh, acts, Witness(0, 0, 0, 0));
    k := w.k;
    if db.row.Some? {
      var all := ResultsUpTo(src, LastChunk(src));
      ResultsGrow(src, k, LastChunk(src));
      InsertKeys(map[], all[..w.n]);
      forall f | f in ResultsUpTo(src, k) ensures KeyOf(f) in db.store {
        var i :| 0 <= i < |ResultsUpTo(src, k)| && ResultsUpTo(src, k)[i] == f;
        assert all[..w.n][i] == f;
      }
    }
  }

  predicate Complete(s: State) { s.db.row.Some? && s.db.row.value.complete }

  /** A session that ends complete has stored exactly what one uninterrupted
      scan stores, row for row. */
  lemma CompleteIsExact(job: Job, blockSize: nat, acts: seq<Action>)
    requires AllCutsSafe(job(blockSize))
    requires Legal(job, Fresh, acts) && forall a | a in acts :: Uses(a, blockSize)
    requires Complete(Exec(job, Fresh, acts))
    ensures Exec(job, Fresh, acts).db.store == InsertAll(map[], WholeScan(job(blockSize)))
  {
    var all := ResultsUpTo(job(blockSize), LastChunk(job(blockSize)));
    FreshExact(job, blockSize);
    var w := ReachableExact(job, blockSize, Fresh, acts, Witness(0, 0, 0, 0));
    assert all[..|all|] == all;
  }

  /** So it is, for every source, if no claim held at a chunk boundary covers an
      acceptable header from there on. */
  lemma UncoveredIsExact(job: Job, blockSize: nat, acts: seq<Action>)
    requires forall k: nat | k <= LastChunk(job(blockSize)) :: CutUncovered(job(blockSize), k)
    requires Legal(job, Fresh, acts) && forall a | a in acts :: Uses(a, blockSize)
    requires Complete(Exec(job, Fresh, acts))
    ensures Exec(job, Fresh, acts).db.store == InsertAll(map[], WholeScan(job(blockSize)))
  {
    forall k: nat | k <= LastChunk(job(blockSize)) ensures CutSafe(job(blockSize), k) {
      UncoveredCutIsSafe(job(blockSize), k);
    }
    CompleteIsExact(job, blockSize, acts);
  }

  // ------------------------------------------- every dirty cut can be exposed

  /** What a schedule without failures leaves alone. */
  predicate SameRun(r: Session, r': Session) {
    && r'.blockSize == r.blockSize && r'.resumeFrom == r.resumeFrom && r'.base == r.base
    && r'.cancel == r.cancel && !r'.writer.phase.Failed?
  }

  /** One step of the schedule `Next`. */
  lemma NextStep(job: Job, s: State)
    requires Inv(job, s) && s.run.Some? && !s.run.value.writer.phase.Failed?
    ensures Enabled(job, s, Next(job, s.run.value))
    ensures !Next(job, s.run.value).Start? && !Next(job, s.run.value).Timeout?
    ensures var r, s' := s.run.value, Apply(job, s, Next(job, s.run.value));
            s'.run.Some? ==>
              && SameRun(r, s'.run.value)
              && r.producer.chunks <= s'.run.value.producer.chunks
              && (r.cancel ==> s'.run.value.producer.chunks == r.producer.chunks)
    ensures var r, s' := s.run.value, Apply(job, s, Next(job, s.run.value));
            s'.run.None? ==> r.writer.phase.FinalPut? && Next(job, r).Transact?
  {
    NeverStuck(job, s);
  }

  predicate StoppedAt(r: Session, k: nat) {
    r.producer.chunks == k && r.producer.todo == [] && r.producer.outcome.None?
  }

  /** A run can be driven to the head of any iteration ahead of it. */
  lemma {:induction false} DriveTo(job: Job, s: State, k: nat) returns (acts: seq<Action>)
    requires Inv(job, s) && s.run.Some? && !s.run.value.writer.phase.Failed?
    requires !s.run.value.cancel && s.run.value.producer.outcome.None?
    requires s.run.value.producer.chunks <= k <= AllSteps(job, s.run.value)
    ensures Legal(job, s, acts) && forall a | a in acts :: !a.Start?
    ensures var t := Exec(job, s, acts);
            Inv(job, t) && t.run.Some? && SameRun(s.run.value, t.run.value) && StoppedAt(t.run.value, k)
    decreases AllSteps(job, s.run.value) - s.run.value.producer.chunks,
              |s.run.value.producer.todo|, |s.run.value.channel|, Rank(s.run.value)
  {
    var r := s.run.value;
    acts := [];
    if !StoppedAt(r, k) {
      var a := Next(job, r);
      NextStep(job, s);
      StepKeepsInv(job, s, a);
      WorkDrops(job, s, a);
      acts := DriveTo(job, Apply(job, s, a), k);
      acts := [a] + acts;
      assert acts[1..] == acts[1..];
    }
  }

  /** The chunks a run that is left alone will have read. */
  function Target(job: Job, r: Session): nat {
    if r.cancel then r.producer.chunks else AllSteps(job, r)
  }

  /** A run that read `n` chunks from `cursor` over `base` has ended as `t`. */
  predicate EndedAs(src: Source, blockSize: nat, cursor: nat, base: Store, n: nat, t: State) {
    var start := StartOf(src, cursor);
    && t.run.None? && t.db.row.Some?
    && t.db.row.value.blockSize == blockSize
    && t.db.row.value.cursor == Min(Position(start, n), src.scanEnd)
    && (t.db.row.value.complete <==> n == Steps(src, start))
    && t.db.store == InsertAll(base, Founds(Run(src, start, n).messages))
  }

  lemma LastStep(job: Job, s: State)
    requires Inv(job, s) && s.run.Some? && s.run.value.writer.phase.FinalPut?
    ensures Enabled(job, s, Transact)
    ensures var r := s.run.value;
            EndedAs(Src(job, r), r.blockSize, r.resumeFrom, r.base, Target(job, r), Apply(job, s, Transact))
  {
    AllReceived(job, s);
    var files := Founds(s.run.value.received);
    assert files[..|files|] == files;
  }

  /** Left alone, a run ends with its final row, at the end of the scan or at
      the chunk where it was cancelled. */
  lemma {:induction false} Drain(job: Job, s: State) returns (acts: seq<Action>)
    requires Inv(job, s) && s.run.Some? && !s.run.value.writer.phase.Failed?
    ensures Legal(job, s, acts) && forall a | a in acts :: !a.Start?
    ensures var r := s.run.value;
            EndedAs(Src(job, r), r.blockSize, r.resumeFrom, r.base, Target(job, r), Exec(job, s, acts))
    ensures Inv(job, Exec(job, s, acts))
    decreases AllSteps(job, s.run.value) - s.run.value.producer.chunks,
              |s.run.value.producer.todo|, |s.run.value.channel|, Rank(s.run.value)
  {
    var a := Next(job, s.run.value);
    NextStep(job, s);
    StepKeepsInv(job, s, a);
    WorkDrops(job, s, a);
    var t := Apply(job, s, a);
    if t.run.Some? {
      var more := Drain(job, t);
      acts := [a] + more;
      assert acts[1..] == more;
    } else {
      LastStep(job, s);
      acts := [a];
      assert acts[1..] == [];
    }
  }

  lemma Prepend(job: Job, s: State, a: Action, acts: seq<Action>)
    requires Enabled(job, s, a) && Legal(job, Apply(job, s, a), acts)
    ensures Legal(job, s, [a] + acts) && Exec(job, s, [a] + acts) == Exec(job, Apply(job, s, a), acts)
  {
    assert ([a] + acts)[1..] == acts;
  }

  /** One run, left alone. */
  lemma RunToEnd(job: Job, s: State, blockSize: nat, resume: bool) returns (acts: seq<Action>)
    requires Inv(job, s) && s.run.None? && !Complete(s)
    ensures Legal(job, s, acts) && forall a | a in acts :: Uses(a, blockSize)
    ensures var r := Started(s, job, blockSize, resume);
            EndedAs(Src(job, r), r.blockSize, r.resumeFrom, r.base, AllSteps(job, r), Exec(job, s, acts))
  {
    var a := Start(blockSize, resume);
    StepKeepsInv(job, s, a);
    var more := Drain(job, Apply(job, s, a));
    Prepend(job, s, a, more);
    acts := [a] + more;
  }

  /** One run, cancelled when it has read `k` chunks. */
  lemma RunUntil(job: Job, s: State, blockSize: nat, k: nat) returns (acts: seq<Action>)
    requires Inv(job, s) && s.run.None? && !Complete(s) && k <= AllSteps(job, Started(s, job, blockSize, false))
    ensures Legal(job, s, acts) && forall a | a in acts :: Uses(a, blockSize)
    ensures var r := Started(s, job, blockSize, false);
            EndedAs(Src(job, r), r.blockSize, r.resumeFrom, r.base, k, Exec(job, s, acts))
    ensures Inv(job, Exec(job, s, acts))
  {
    var a := Start(blockSize, false);
    StepKeepsInv(job, s, a);
    var s1 := Apply(job, s, a);
    var drive := DriveTo(job, s1, k);
    var s2 := Exec(job, s1, drive);
    StepKeepsInv(job, s2, Cancel);
    var stop := Drain(job, Apply(job, s2, Cancel));
    Prepend(job, s2, Cancel, stop);
    ExecConcat(job, s1, drive, [Cancel] + stop);
    Prepend(job, s, a, drive + ([Cancel] + stop));
    acts := [a] + (drive + ([Cancel] + stop));
  }

  /** A session stopped before chunk `k`. */
  lemma StopAt(job: Job, blockSize: nat, k: nat) returns (acts: seq<Action>)
    requires k < LastChunk(job(blockSize))
    ensures Legal(job, Fresh, acts) && forall a | a in acts :: Uses(a, blockSize)
    ensures var s := Exec(job, Fresh, acts);
            && Inv(job, s) && s.run.None? && s.db.row.Some? && !s.db.row.value.complete
            && s.db.row.value.blockSize == blockSize
            && s.db.row.value.cursor == Position(job(blockSize).scanStart, k)
            && s.db.store == InsertAll(map[], ResultsUpTo(job(blockSize), k))
  {
    acts := RunUntil(job, Fresh, blockSize, k);
    RunResults(job(blockSize), job(blockSize).scanStart, k);
  }

  /** Resuming such a session to completion. */
  lemma ResumeAt(job: Job, blockSize: nat, k: nat, s: State) returns (acts: seq<Action>)
    requires k < LastChunk(job(blockSize))
    requires Inv(job, s) && s.run.None? && s.db.row.Some? && !s.db.row.value.complete
    requires s.db.row.value.blockSize == blockSize
    requires s.db.row.value.cursor == Position(job(blockSize).scanStart, k)
    ensures Legal(job, s, acts) && forall a | a in acts :: Uses(a, blockSize)
    ensures var t := Exec(job, s, acts);
            && Complete(t) && t.db.row.value.blockSize == blockSize
            && t.db.store == InsertAll(s.db.store, ResultsFrom(job(blockSize), k))
  {
    acts := RunToEnd(job, s, blockSize, true);
    EndStore(job(blockSize), blockSize, k, s.db.store, Exec(job, s, acts));
  }

  lemma FoundsFrom(src: Source, k: nat)
    requires k <= LastChunk(src)
    ensures Founds(Run(src, Position(src.scanStart, k), LastChunk(src) - k).messages) == ResultsFrom(src, k)
  {
    FoundsAre(src, Position(src.scanStart, k), LastChunk(src) - k);
  }

  lemma FoundsAre(src: Source, here: nat, n: nat)
    ensures Founds(Run(src, here, n).messages) == ResultsOf(src, here, n)
  {
    RunResults(src, here, n);
  }

  lemma StartsHere(src: Source, k: nat)
    ensures StartOf(src, Position(src.scanStart, k)) == Position(src.scanStart, k)
  {
  }

  /** What a run to the end from chunk `k` has added. */
  lemma EndStore(src: Source, blockSize: nat, k: nat, base: Store, t: State)
    requires k < LastChunk(src)
    requires EndedAs(src, blockSize, Position(src.scanStart, k), base,
                     Steps(src, StartOf(src, Position(src.scanStart, k))), t)
    ensures Complete(t) && t.db.store == InsertAll(base, ResultsFrom(src, k))
  {
    StartsHere(src, k);
    StepsFrom(src, k);
    FoundsFrom(src, k);
  }

  lemma StoresDiffer(before: seq<Carved>, after: seq<Carved>, all: seq<Carved>, r: Carved)
    requires r in after && forall q | q in all :: !SameKey(q, r)
    ensures InsertAll(InsertAll(map[], before), after) != InsertAll(map[], all)
  {
    KeyInserted(InsertAll(map[], before), after, r);
    KeyMissing(map[], all, r);
  }

  lemma KeyInserted(store: Store, files: seq<Carved>, r: Carved)
    requires r in files
    ensures KeyOf(r) in InsertAll(store, files)
  {
    var i :| 0 <= i < |files| && files[i] == r;
    InsertKeys(store, files);
  }

  lemma KeyMissing(store: Store, files: seq<Carved>, r: Carved)
    requires KeyOf(r) !in store && forall q | q in files :: !SameKey(q, r)
    ensures KeyOf(r) !in InsertAll(store, files)
  {
    InsertKeys(store, files);
    forall i | 0 <= i < |files| ensures KeyOf(files[i]) != KeyOf(r) {
      assert files[i] in files;
    }
  }

  /** A session that is stopped at the start of chunk `k` and then resumed to
      completion. */
  lemma StopAndResume(job: Job, blockSize: nat, k: nat) returns (acts: seq<Action>)
    requires k < LastChunk(job(blockSize))
    ensures Legal(job, Fresh, acts) && forall a | a in acts :: Uses(a, blockSize)
    ensures var src, t := job(blockSize), Exec(job, Fresh, acts);
            && Complete(t) && t.db.row.value.blockSize == blockSize
            && t.db.store == InsertAll(InsertAll(map[], ResultsUpTo(src, k)), ResultsFrom(src, k))
  {
    var first := StopAt(job, blockSize, k);
    var second := ResumeAt(job, blockSize, k, Exec(job, Fresh, first));
    ExecConcat(job, Fresh, first, second);
    acts := first + second;
  }

  /** An unsafe cut, a stop there and a resume: a complete session whose store is
      not that of an uninterrupted scan. */
  lemma UnsafeCutIsExposed(job: Job, blockSize: nat, k: nat) returns (acts: seq<Action>)
    requires Distinct(job(blockSize)) && k < LastChunk(job(blockSize)) && !CutSafe(job(blockSize), k)
    ensures Legal(job, Fresh, acts) && forall a | a in acts :: Uses(a, blockSize)
    ensures Complete(Exec(job, Fresh, acts))
    ensures Exec(job, Fresh, acts).db.store != InsertAll(map[], WholeScan(job(blockSize)))
  {
    var src := job(blockSize);
    acts := StopAndResume(job, blockSize, k);
    var r := UnsafeCutAdds(src, k);
    StoresDiffer(ResultsUpTo(src, k), ResultsFrom(src, k), WholeScan(src), r);
  }

  /** Every session that ends complete, however often it was stopped, killed and
      resumed, has the store of an uninterrupted scan. */
  ghost predicate PromiseHolds(job: Job, blockSize: nat) {
    forall acts: seq<Action> |
      Legal(job, Fresh, acts) && (forall a | a in acts :: Uses(a, blockSize)) && Complete(Exec(job, Fresh, acts)) ::
      Exec(job, Fresh, acts).db.store == InsertAll(map[], WholeScan(job(blockSize)))
  }

  lemma EndCutIsSafe(src: Source)
    ensures CutSafe(src, LastChunk(src))
  {
  }

  /** The documented promise, with its exact condition: it holds if and only if no
      claim that is lost at a chunk boundary keeps out a candidate that nothing
      else keeps out. That it is enough is so for all sources; that it is
      needed, for those whose acceptable candidates are different files. */
  lemma ResumedStoreIsExactIff(job: Job, blockSize: nat)
    ensures AllCutsSafe(job(blockSize)) ==> PromiseHolds(job, blockSize)
    ensures Distinct(job(blockSize)) && PromiseHolds(job, blockSize) ==> AllCutsSafe(job(blockSize))
  {
    var src := job(blockSize);
    if AllCutsSafe(src) {
      forall acts: seq<Action> |
        Legal(job, Fresh, acts) && (forall a | a in acts :: Uses(a, blockSize)) && Complete(Exec(job, Fresh, acts))
        ensures Exec(job, Fresh, acts).db.store == InsertAll(map[], WholeScan(src))
      {
        CompleteIsExact(job, blockSize, acts);
      }
    } else if Distinct(src) {
      var k: nat :| k <= LastChunk(src) && !CutSafe(src, k);
      EndCutIsSafe(src);
      var acts := UnsafeCutIsExposed(job, blockSize, k);
    }
  }

  /** For verdicts that keep the header's start the condition is plain: no chunk
      boundary cuts a claimed file that hides an acceptable header behind the cut. */
  lemma ResumedStoreIsExactIffClean(job: Job, blockSize: nat)
    requires InOrder(job(blockSize))
    ensures AllCutsClean(job(blockSize)) <==> PromiseHolds(job, blockSize)
  {
    var src := job(blockSize);
    forall k: nat | k <= LastChunk(src) ensures CutSafe(src, k) <==> CutClean(src, k) {
      SafeIffClean(src, k);
    }
    InOrderIsDistinct(src);
    ResumedStoreIsExactIff(job, blockSize);
  }
}
