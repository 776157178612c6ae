/** Crash safety of checkpoints, for every source and every way of stopping and
    restarting (crates/reclaim-session/src/scan.rs:116-126, 187-304). */
module ScanDurable {
  import opened Arith
  import opened Wrappers
  import opened CarveEngine
  import opened ScanProtocol
  import opened ScanResume

  /** Every result of chunk `j`, scanned with these claims in hand, is stored. */
  predicate Saved(src: Source, store: Store, j: nat, claims: seq<Claim>) {
    forall f | f in ChunkPass(src, src.scanStart, j, claims).emitted :: KeyOf(f) in store
  }

  /** The claims a chunk is scanned with: none where a run begins, else those
      that the chunk before it left. */
  predicate Linked(src: Source, cs: seq<seq<Claim>>) {
    forall j: nat | j < |cs| ::
      cs[j] == [] || (j > 0 && cs[j] == ChunkPass(src, src.scanStart, j - 1, cs[j - 1]).claims)
  }

  /** The first `|cs|` chunks were scanned, chunk `j` with the claims `cs[j]`, and
      everything they gave is stored. */
  ghost predicate Scanned(src: Source, store: Store, cs: seq<seq<Claim>>) {
    Linked(src, cs) && forall j: nat | j < |cs| :: Saved(src, store, j, cs[j])
  }

  /** A progress row names a chunk boundary below which everything is stored; a
      complete one, the end of the scan. */
  ghost predicate RowCovered(job: Job, db: Db, cs: seq<seq<Claim>>) {
    db.row.Some? ==>
      var src := job(db.row.value.blockSize);
      && AtChunk(src, db.row.value.cursor, |cs|)
      && Scanned(src, db.store, cs)
      && (db.row.value.complete ==> |cs| == LastChunk(src))
  }

  ghost predicate RunCovered(job: Job, r: Session, cs: seq<seq<Claim>>) {
    AtChunk(Src(job, r), r.resumeFrom, |cs|) && Scanned(Src(job, r), r.base, cs)
  }

  /** What the row and the run's start rest on. */
  datatype Grounds = Grounds(row: seq<seq<Claim>>, run: seq<seq<Claim>>)

  ghost predicate Covered(job: Job, s: State, g: Grounds) {
    RowCovered(job, s.db, g.row) && (s.run.Some? ==> RunCovered(job, s.run.value, g.run))
  }

  // ----------------------------------------------------------------- rows only grow

  predicate Extends(store: Store, store': Store) { forall q | q in store :: q in store' && store'[q] == store[q] }

  lemma {:induction false} InsertExtends(store: Store, batch: seq<Carved>)
    ensures Extends(store, InsertAll(store, batch))
    decreases |batch|
  {
    if batch != [] {
      InsertExtends(store, batch[..|batch| - 1]);
    }
  }

  /** No step, a crash and a restart included, removes or changes a stored row. */
  lemma RowsOnlyGrow(job: Job, s: State, a: Action)
    requires Enabled(job, s, a)
    ensures Extends(s.db.store, Apply(job, s, a).db.store)
    ensures var now := Apply(job, s, a).db.store;
            forall q | q in s.db.store :: q in now && now[q] == s.db.store[q]
  {
    if a.Transact? {
      InsertExtends(s.db.store, s.run.value.writer.pending);
    }
  }

  lemma ScannedExtends(src: Source, store: Store, store': Store, cs: seq<seq<Claim>>)
    requires Scanned(src, store, cs) && Extends(store, store')
    ensures Scanned(src, store', cs)
  {
    forall j: nat | j < |cs| ensures Saved(src, store', j, cs[j]) {
      assert Saved(src, store, j, cs[j]);
    }
  }

  // ---------------------------------------------------------- where a run has come to

  /** The claims before each of the first `m` chunks of a run. */
  function RunClaims(src: Source, start: nat, m: nat): (cs: seq<seq<Claim>>)
    ensures |cs| == m
  {
    if m == 0 then [] else RunClaims(src, start, m - 1) + [Run(src, start, m - 1).claims]
  }

  lemma {:induction false} RunClaimsAt(src: Source, start: nat, m: nat, j: nat)
    requires j < m
    ensures RunClaims(src, start, m)[j] == Run(src, start, j).claims
    decreases m
  {
    if j < m - 1 {
      RunClaimsAt(src, start, m - 1, j);
    }
  }

  /** Chunk `j` of a run is one of the scan's own chunks. */
  lemma SameChunk(src: Source, k0: nat, j: nat, claims: seq<Claim>)
    ensures ChunkPass(src, Position(src.scanStart, k0), j, claims) == ChunkPass(src, src.scanStart, k0 + j, claims)
  {
    assert Position(Position(src.scanStart, k0), j) == Position(src.scanStart, k0 + j);
  }

  /** Chunk `j` of a run gives this result. */
  predicate Given(src: Source, start: nat, j: nat, f: Carved) {
    f in EmittedBy(src, start, j)
  }

  lemma InConcat<T>(x: T, a: seq<T>, b: seq<T>)
    ensures x in a + b <==> x in a || x in b
  {
  }

  /** One of the first `m` chunks gives this result. */
  predicate SentBy(src: Source, start: nat, m: nat, f: Carved) {
    m > 0 && (SentBy(src, start, m - 1, f) || Given(src, start, m - 1, f))
  }

  /** What the first `m` chunks give. */
  function AllGiven(src: Source, start: nat, m: nat): seq<Carved> {
    if m == 0 then [] else AllGiven(src, start, m - 1) + EmittedBy(src, start, m - 1)
  }

  function EmittedBy(src: Source, start: nat, j: nat): seq<Carved> {
    ChunkPass(src, start, j, Run(src, start, j).claims).emitted
  }

  lemma NextFounds(src: Source, start: nat, n: nat, before: seq<Carved>)
    requires Founds(Run(src, start, n).messages) == before
    ensures Founds(Run(src, start, n + 1).messages) == before + EmittedBy(src, start, n)
  {
    NextRun(src, start, n, Run(src, start, n));
  }

  /** It is what the run has sent after them. */
  lemma {:induction false} SentIsGiven(src: Source, start: nat, m: nat)
    ensures Founds(Run(src, start, m).messages) == AllGiven(src, start, m)
  {
    if m > 0 {
      SentIsGiven(src, start, m - 1);
      NextFounds(src, start, m - 1, AllGiven(src, start, m - 1));
    }
  }

  lemma {:induction false} GivenAmongAll(src: Source, start: nat, m: nat, f: Carved)
    ensures f in AllGiven(src, start, m) <==> SentBy(src, start, m, f)
  {
    if m > 0 {
      GivenAmongAll(src, start, m - 1, f);
      InConcat(f, AllGiven(src, start, m - 1), EmittedBy(src, start, m - 1));
    }
  }

  lemma {:induction false} ChunkIsSent(src: Source, start: nat, m: nat, j: nat, f: Carved)
    requires j < m && Given(src, start, j, f)
    ensures SentBy(src, start, m, f)
    decreases m
  {
    if j < m - 1 {
      ChunkIsSent(src, start, m - 1, j, f);
    }
  }

  lemma CursorMoves(src: Source, cursor: nat, k0: nat, m: nat)
    requires AtChunk(src, cursor, k0) && m <= Steps(src, StartOf(src, cursor))
    ensures k0 + m <= LastChunk(src) && AtChunk(src, CursorAfter(src, StartOf(src, cursor), cursor, m), k0 + m)
    ensures m > 0 ==> StartOf(src, cursor) == Position(src.scanStart, k0)
    ensures m == Steps(src, StartOf(src, cursor)) ==> k0 + m == LastChunk(src)
  {
    var start := StartOf(src, cursor);
    if k0 < LastChunk(src) {
      StepsFrom(src, k0);
      assert Position(start, m) == Position(src.scanStart, k0 + m);
      StepsLeft(src, src.scanStart, k0 + m);
    } else {
      StepsLeft(src, start, 0);
    }
  }

  lemma NextClaims(src: Source, start: nat, n: nat)
    ensures Run(src, start, n + 1).claims == ChunkPass(src, start, n, Run(src, start, n).claims).claims
  {
  }

  lemma NextRunClaims(src: Source, start: nat, m: nat, j: nat)
    requires 0 < j < m
    ensures RunClaims(src, start, m)[j] == ChunkPass(src, start, j - 1, RunClaims(src, start, m)[j - 1]).claims
  {
    RunClaimsAt(src, start, m, j);
    RunClaimsAt(src, start, m, j - 1);
    NextClaims(src, start, j - 1);
  }

  /** Inside a run, a chunk has the claims that the one before it left. */
  lemma LinkInRun(src: Source, k0: nat, m: nat, j: nat)
    requires 0 < j < m
    ensures var cs := RunClaims(src, Position(src.scanStart, k0), m);
            cs[j] == ChunkPass(src, src.scanStart, k0 + j - 1, cs[j - 1]).claims
  {
    var start := Position(src.scanStart, k0);
    NextRunClaims(src, start, m, j);
    SameChunk(src, k0, j - 1, RunClaims(src, start, m)[j - 1]);
  }

  lemma LinkedMore(src: Source, cs: seq<seq<Claim>>, start: nat, m: nat)
    requires Linked(src, cs) && (m > 0 ==> start == Position(src.scanStart, |cs|))
    ensures Linked(src, cs + RunClaims(src, start, m))
  {
    var more := RunClaims(src, start, m);
    var all := cs + more;
    forall i: nat | i < |all|
      ensures all[i] == [] || (i > 0 && all[i] == ChunkPass(src, src.scanStart, i - 1, all[i - 1]).claims)
    {
      if i < |cs| {
        assert all[i] == cs[i] && (i > 0 ==> all[i - 1] == cs[i - 1]);
      } else if i == |cs| {
        RunClaimsAt(src, start, m, 0);
        assert all[i] == more[0];
      } else {
        LinkInRun(src, |cs|, m, i - |cs|);
        assert all[i] == more[i - |cs|] && all[i - 1] == more[i - |cs| - 1];
      }
    }
  }

  lemma SavedInRun(src: Source, store: Store, k0: nat, m: nat, j: nat)
    requires j < m
    requires forall f | f in Founds(Run(src, Position(src.scanStart, k0), m).messages) :: KeyOf(f) in store
    ensures Saved(src, store, k0 + j, RunClaims(src, Position(src.scanStart, k0), m)[j])
  {
    var start := Position(src.scanStart, k0);
    var claims := Run(src, start, j).claims;
    RunClaimsAt(src, start, m, j);
    SameChunk(src, k0, j, claims);
    SentIsGiven(src, start, m);
    forall f | f in ChunkPass(src, src.scanStart, k0 + j, claims).emitted ensures KeyOf(f) in store {
      assert Given(src, start, j, f);
      ChunkIsSent(src, start, m, j, f);
      GivenAmongAll(src, start, m, f);
    }
  }

  /** After `m` chunks of a run that began behind `cs`, all of whose results were
      received and stored, the chunks of both are scanned. */
  lemma ScannedMore(src: Source, store: Store, cs: seq<seq<Claim>>, start: nat, m: nat)
    requires Scanned(src, store, cs) && (m > 0 ==> start == Position(src.scanStart, |cs|))
    requires forall f | f in Founds(Run(src, start, m).messages) :: KeyOf(f) in store
    ensures Scanned(src, store, cs + RunClaims(src, start, m))
  {
    LinkedMore(src, cs, start, m);
    var all := cs + RunClaims(src, start, m);
    forall i: nat | i < |all| ensures Saved(src, store, i, all[i]) {
      if i < |cs| {
        assert Saved(src, store, i, cs[i]);
      } else {
        SavedInRun(src, store, |cs|, m, i - |cs|);
      }
    }
  }

  lemma InsertedAll(base: Store, files: seq<Carved>)
    ensures forall f | f in files :: KeyOf(f) in InsertAll(base, files)
    ensures Extends(base, InsertAll(base, files))
  {
    InsertKeys(base, files);
    InsertExtends(base, files);
    forall f | f in files ensures KeyOf(f) in InsertAll(base, files) {
      var i :| 0 <= i < |files| && files[i] == f;
    }
  }

  /** With nothing pending, everything received is stored. */
  lemma NothingPending(r: Session, store: Store)
    requires Flushed(r, store) && r.writer.pending == []
    ensures forall f | f in Founds(r.received) :: KeyOf(f) in store
    ensures Extends(r.base, store)
  {
    var files := Founds(r.received);
    assert files[..|files|] == files;
    InsertedAll(r.base, files);
  }

  /** A run that has received all of its first `m` chunks covers them. */
  lemma RunCovers(job: Job, r: Session, store: Store, cs: seq<seq<Claim>>, m: nat) returns (more: seq<seq<Claim>>)
    requires RunCovered(job, r, cs) && Flushed(r, store) && r.writer.pending == []
    requires m <= AllSteps(job, r) && Run(Src(job, r), StartPos(job, r), m).messages <= r.received
    ensures AtChunk(Src(job, r), CursorAfter(Src(job, r), StartPos(job, r), r.resumeFrom, m), |more|)
    ensures Scanned(Src(job, r), store, more)
    ensures |more| == |cs| + m && (m == AllSteps(job, r) ==> |more| == LastChunk(Src(job, r)))
  {
    var src, start := Src(job, r), StartPos(job, r);
    CursorMoves(src, r.resumeFrom, |cs|, m);
    NothingPending(r, store);
    ScannedExtends(src, r.base, store, cs);
    FoundsPrefix(Run(src, start, m).messages, r.received);
    forall f | f in Founds(Run(src, start, m).messages) ensures KeyOf(f) in store {
      assert f in Founds(r.received);
    }
    ScannedMore(src, store, cs, start, m);
    more := cs + RunClaims(src, start, m);
  }

  // ------------------------------------------------------------------------ each step

  lemma StartCovered(job: Job, s: State, a: Action, g: Grounds) returns (g': Grounds)
    requires Covered(job, s, g) && Enabled(job, s, a) && a.Start?
    ensures Covered(job, Apply(job, s, a), g')
  {
    if a.resume && s.db.row.Some? {
      g' := g.(run := g.row);
    } else {
      g' := g.(run := []);
      StepsLeft(job(a.blockSize), job(a.blockSize).scanStart, 0);
    }
  }

  /** A checkpoint's row. */
  lemma CheckpointCovered(job: Job, s: State, g: Grounds) returns (g': Grounds)
    requires Inv(job, s) && Covered(job, s, g) && s.run.Some? && s.run.value.writer.phase.CkptPut?
    ensures Covered(job, Apply(job, s, Transact), g')
  {
    var more := CheckpointMore(job, s, g.run);
    g' := g.(row := more);
  }

  /** What a run has stored when it writes its cursor. */
  lemma CheckpointMore(job: Job, s: State, cs: seq<seq<Claim>>) returns (more: seq<seq<Claim>>)
    requires Inv(job, s) && s.run.Some? && s.run.value.writer.phase.CkptPut? && RunCovered(job, s.run.value, cs)
    ensures AtChunk(Src(job, s.run.value), s.run.value.writer.cursor, |more|)
    ensures Scanned(Src(job, s.run.value), s.db.store, more)
  {
    var r := s.run.value;
    PrefixMeaning(Src(job, r), StartPos(job, r), r.producer.chunks, r.received, r.resumeFrom);
    more := RunCovers(job, r, s.db.store, cs, Reports(r.received));
  }

  lemma FinalCursor(src: Source, cursor: nat, m: nat, k: nat)
    requires AtChunk(src, CursorAfter(src, StartOf(src, cursor), cursor, m), k)
    ensures AtChunk(src, Min(Position(StartOf(src, cursor), m), src.scanEnd), k)
  {
    if m == 0 {
      EmptyRunCursor(src, cursor, k);
    }
  }

  /** The last row of a run. */
  lemma FinalCovered(job: Job, s: State, g: Grounds) returns (g': Grounds)
    requires Inv(job, s) && Covered(job, s, g) && s.run.Some? && s.run.value.writer.phase.FinalPut?
    ensures Covered(job, Apply(job, s, Transact), g')
  {
    var r := s.run.value;
    var m := r.producer.chunks;
    AllReceived(job, s);
    var more := RunCovers(job, r, s.db.store, g.run, m);
    FinalCursor(Src(job, r), r.resumeFrom, m, |more|);
    g' := g.(row := more);
  }

  lemma StepKeepsCovered(job: Job, s: State, a: Action, g: Grounds) returns (g': Grounds)
    requires Inv(job, s) && Covered(job, s, g) && Enabled(job, s, a)
    ensures Covered(job, Apply(job, s, a), g')
  {
    if a.Start? {
      g' := StartCovered(job, s, a, g);
    } else if a.Transact? && s.run.value.writer.phase.CkptPut? {
      g' := CheckpointCovered(job, s, g);
    } else if a.Transact? && s.run.value.writer.phase.FinalPut? {
      g' := FinalCovered(job, s, g);
    } else {
      RowsOnlyGrow(job, s, a);
      if s.db.row.Some? {
        ScannedExtends(job(s.db.row.value.blockSize), s.db.store, Apply(job, s, a).db.store, g.row);
      }
      g' := g;
    }
  }

  lemma {:induction false} ReachableCovered(job: Job, s: State, acts: seq<Action>, g: Grounds) returns (g': Grounds)
    requires Inv(job, s) && Covered(job, s, g) && Legal(job, s, acts)
    ensures Covered(job, Exec(job, s, acts), g')
    decreases |acts|
  {
    g' := g;
    if acts != [] {
      g' := StepKeepsCovered(job, s, acts[0], g);
      StepKeepsInv(job, s, acts[0]);
      g' := ReachableCovered(job, Apply(job, s, acts[0]), acts[1..], g');
    }
  }

  /** Crash safety: whatever the source, the verdicts and the block sizes, and
      after any steps, crashes, failures and restarts, a stored cursor names a
      chunk boundary, and every result of every chunk below it is in the store.
      A row that says complete stands for all chunks of the scan. */
  lemma AllGivenBelowTheCursorIsStored(job: Job, acts: seq<Action>) returns (cs: seq<seq<Claim>>)
    requires Legal(job, Fresh, acts)
    ensures RowCovered(job, Exec(job, Fresh, acts).db, cs)
  {
    var g := ReachableCovered(job, Fresh, acts, Grounds([], []));
    cs := g.row;
  }

  /** What that says of a stored cursor: where it is, with which claims the chunks
      below it were scanned, and that they are all there are if the row says so. */
  lemma CoveredSays(job: Job, db: Db, cs: seq<seq<Claim>>)
    requires RowCovered(job, db, cs) && db.row.Some?
    ensures var src, cursor := job(db.row.value.blockSize), db.row.value.cursor;
            var below := src.scanStart + |cs| * 8_388_608;
            && (cursor >= src.scanEnd || cursor == below || (cursor < src.scanStart && |cs| == 0))
            && (cursor >= src.scanEnd || db.row.value.complete ==> below >= src.scanEnd)
    ensures var src := job(db.row.value.blockSize);
            forall j: nat | 0 < j < |cs| && cs[j] != [] ::
              cs[j] == ChunkPass(src, src.scanStart, j - 1, cs[j - 1]).claims
    ensures |cs| > 0 ==> cs[0] == []
  {
    var src := job(db.row.value.blockSize);
    StepsLeft(src, src.scanStart, |cs|);
  }

  /** And that nothing they gave is missing. */
  lemma CoveredHas(job: Job, db: Db, cs: seq<seq<Claim>>, j: nat, f: Carved)
    requires RowCovered(job, db, cs) && db.row.Some? && j < |cs|
    requires var src := job(db.row.value.blockSize);
             f in Fold(cs[j], src.candidatesAt(src.scanStart + j * 8_388_608), src.keepCorrupted).emitted
    ensures Key(f.offset, f.len) in db.store
  {
    var src := job(db.row.value.blockSize);
    assert Saved(src, db.store, j, cs[j]);
    assert f in ChunkPass(src, src.scanStart, j, cs[j]).emitted;
    assert KeyOf(f) == Key(f.offset, f.len);
  }
}
