/** What a session that ends complete has stored of the uninterrupted results, and
    that it has stored nothing else than verdicts
    (crates/reclaim-session/src/scan.rs:1-5, 116-126, 187-304). */
module ScanLoss {
  import opened Wrappers
  import opened CarveEngine
  import opened ScanProtocol
  import opened ScanResume
  import opened ScanDurable
  import opened ResumeCuts
  import opened ResumeLoss

  // ------------------------------------------------------------ one stretch of chunks

  /** Chunk `k` begins a run, and up to chunk `k + m` each has the claims that the
      one before it left. */
  predicate Stretch(src: Source, cs: seq<seq<Claim>>, k: nat, m: nat) {
    && k < k + m <= |cs| && cs[k] == []
    && forall i | k < i < k + m :: cs[i] == ChunkPass(src, src.scanStart, i - 1, cs[i - 1]).claims
  }

  /** Before chunk `n` there is a last one that began a run. */
  lemma {:induction false} LastStretch(src: Source, cs: seq<seq<Claim>>, n: nat) returns (k: nat)
    requires Linked(src, cs) && 0 < n <= |cs|
    ensures k < n && Stretch(src, cs, k, n - k)
  {
    k := n - 1;
    while cs[k] != []
      invariant k < n
      invariant forall i | k < i < n :: cs[i] == ChunkPass(src, src.scanStart, i - 1, cs[i - 1]).claims
      decreases k
    {
      k := k - 1;
    }
  }

  lemma {:induction false} StretchClaims(src: Source, cs: seq<seq<Claim>>, k: nat, m: nat, i: nat)
    requires Stretch(src, cs, k, m) && i < m
    ensures cs[k + i] == Run(src, Position(src.scanStart, k), i).claims
    decreases i
  {
    if i > 0 {
      StretchClaims(src, cs, k, m, i - 1);
      SameChunk(src, k, i - 1, cs[k + i - 1]);
    }
  }

  lemma StretchChunk(src: Source, store: Store, cs: seq<seq<Claim>>, k: nat, m: nat, i: nat)
    requires Scanned(src, store, cs) && Stretch(src, cs, k, m) && i < m
    ensures forall f | f in EmittedBy(src, Position(src.scanStart, k), i) :: KeyOf(f) in store
  {
    StretchClaims(src, cs, k, m, i);
    SameChunk(src, k, i, cs[k + i]);
    assert Saved(src, store, k + i, cs[k + i]);
  }

  /** All that a loop over the stretch gives is stored. */
  lemma {:induction false} StretchStored(src: Source, store: Store, cs: seq<seq<Claim>>, k: nat, m: nat, n: nat)
    requires Scanned(src, store, cs) && Stretch(src, cs, k, m) && n <= m
    ensures forall f | f in AllGiven(src, Position(src.scanStart, k), n) :: KeyOf(f) in store
    decreases n
  {
    if n > 0 {
      StretchStored(src, store, cs, k, m, n - 1);
      StretchChunk(src, store, cs, k, m, n - 1);
    }
  }

  lemma GivenIsResults(src: Source, start: nat, m: nat)
    ensures AllGiven(src, start, m) == ResultsOf(src, start, m)
  {
    SentIsGiven(src, start, m);
    RunResults(src, start, m);
  }

  // --------------------------------------------------------- all results, if no cut loses

  ghost predicate AllCutsLossless(src: Source) { forall k: nat | k <= LastChunk(src) :: CutLossless(src, k) }

  /** From a cut that loses nothing, the chunks up to any other give all that the
      uninterrupted scan finds in them. */
  lemma StretchKeeps(src: Source, k: nat, m: nat, f: Carved)
    requires InOrder(src) && k + m <= LastChunk(src) && CutLossless(src, k)
    requires f in ResultsUpTo(src, k + m) && f !in ResultsUpTo(src, k)
    ensures f in ResultsOf(src, Position(src.scanStart, k), m)
  {
    var before, part := Candidates(src, src.scanStart, k), Candidates(src, Position(src.scanStart, k), m);
    PartOfRest(src, k, m);
    StretchInOrder(src, k, m, before, part);
    CutIsAList(src, k, before);
    ListKeeps(before, part, Rest(src, k), src.keepCorrupted, f);
  }

  lemma StretchInOrder(src: Source, k: nat, m: nat, before: seq<Candidate>, part: seq<Candidate>)
    requires InOrder(src) && Candidates(src, src.scanStart, k + m) == before + part
    ensures Ascending(before + part) && InPlace(before + part)
    ensures ResultsUpTo(src, k + m) == Fold([], before + part, src.keepCorrupted).emitted
  {
    FirstInOrder(src, k + m);
  }

  lemma CutIsAList(src: Source, k: nat, before: seq<Candidate>)
    requires InOrder(src) && k <= LastChunk(src) && CutLossless(src, k) && before == Candidates(src, src.scanStart, k)
    ensures Lossless(HorizonOf(Fold([], before, src.keepCorrupted).claims), Rest(src, k), src.keepCorrupted)
    ensures Ascending(Rest(src, k))
  {
    RunResults(src, src.scanStart, k);
    WholeAtCut(src, k);
  }

  lemma ListKeeps(before: seq<Candidate>, part: seq<Candidate>, rest: seq<Candidate>, keep: bool, f: Carved)
    requires Ascending(before + part) && InPlace(before + part) && part <= rest && Ascending(rest)
    requires Lossless(HorizonOf(Fold([], before, keep).claims), rest, keep)
    requires f in Fold([], before + part, keep).emitted && f !in Fold([], before, keep).emitted
    ensures f in Fold([], part, keep).emitted
  {
    var h := HorizonOf(Fold([], before, keep).claims);
    CutList(before, part, keep);
    assert part == rest[..|part|];
    LosslessBefore(h, rest, keep, |part|);
    LosslessIff(h, part, keep);
  }

  lemma PartOfRest(src: Source, k: nat, m: nat)
    requires k + m <= LastChunk(src)
    ensures Candidates(src, src.scanStart, k + m)
         == Candidates(src, src.scanStart, k) + Candidates(src, Position(src.scanStart, k), m)
    ensures Candidates(src, Position(src.scanStart, k), m) <= Rest(src, k)
  {
    CandidatesSplit(src, src.scanStart, k, m);
    RestSplit(src, k, m, LastChunk(src) - k - m);
  }

  lemma RestSplit(src: Source, k: nat, m: nat, n: nat)
    requires k + m + n == LastChunk(src)
    ensures Candidates(src, Position(src.scanStart, k), m) <= Rest(src, k)
  {
    CandidatesSplit(src, Position(src.scanStart, k), m, n);
    assert m + n == LastChunk(src) - k;
  }

  lemma FirstInOrder(src: Source, n: nat)
    requires InOrder(src)
    ensures Ascending(Candidates(src, src.scanStart, n)) && InPlace(Candidates(src, src.scanStart, n))
  {
    CandidatesInOrder(src, 0, n);
    assert Position(src.scanStart, 0) == src.scanStart;
  }

  /** Where no cut loses anything, the uninterrupted results of all scanned chunks
      are stored, wherever the runs began. */
  lemma {:induction false} StoredUpTo(src: Source, store: Store, cs: seq<seq<Claim>>, n: nat)
    requires InOrder(src) && AllCutsLossless(src) && Scanned(src, store, cs) && n <= |cs| <= LastChunk(src)
    ensures forall f | f in ResultsUpTo(src, n) :: KeyOf(f) in store
    decreases n
  {
    if n > 0 {
      var k := LastStretch(src, cs, n);
      StoredUpTo(src, store, cs, k);
      StretchStored(src, store, cs, k, n - k, n - k);
      GivenIsResults(src, Position(src.scanStart, k), n - k);
      StretchAdds(src, store, k, n);
    } else {
      assert ResultsUpTo(src, 0) == [];
    }
  }

  lemma StretchAdds(src: Source, store: Store, k: nat, n: nat)
    requires InOrder(src) && k <= n <= LastChunk(src) && CutLossless(src, k)
    requires forall f | f in ResultsUpTo(src, k) :: KeyOf(f) in store
    requires forall f | f in ResultsOf(src, Position(src.scanStart, k), n - k) :: KeyOf(f) in store
    ensures forall f | f in ResultsUpTo(src, n) :: KeyOf(f) in store
  {
    forall f | f in ResultsUpTo(src, n) ensures KeyOf(f) in store {
      if f !in ResultsUpTo(src, k) {
        StretchKeeps(src, k, n - k, f);
      }
    }
  }

  ghost predicate AllStored(files: seq<Carved>, store: Store) { forall f | f in files :: KeyOf(f) in store }

  predicate CompleteAt(s: State, blockSize: nat) { Complete(s) && s.db.row.value.blockSize == blockSize }

  /** Every session that ends complete has all the results of the uninterrupted
      scan, and maybe others. */
  ghost predicate NothingIsLost(job: Job, blockSize: nat) {
    forall acts: seq<Action> | Legal(job, Fresh, acts) && CompleteAt(Exec(job, Fresh, acts), blockSize) ::
      AllStored(AllResults(job(blockSize)), Exec(job, Fresh, acts).db.store)
  }

  /** A cut that loses a result, a stop there and a resume: a complete session that
      lacks a file which the uninterrupted scan reports. */
  lemma LossIsExposed(job: Job, blockSize: nat, k: nat) returns (acts: seq<Action>, lost: Carved)
    requires InOrder(job(blockSize)) && k < LastChunk(job(blockSize)) && !CutLossless(job(blockSize), k)
    ensures Legal(job, Fresh, acts) && forall a | a in acts :: Uses(a, blockSize)
    ensures CompleteAt(Exec(job, Fresh, acts), blockSize)
    ensures lost in AllResults(job(blockSize)) && KeyOf(lost) !in Exec(job, Fresh, acts).db.store
  {
    var src := job(blockSize);
    acts := StopAndResume(job, blockSize, k);
    lost := LossyCutLoses(src, k);
    KeyMissing(map[], ResultsUpTo(src, k), lost);
    KeyMissing(InsertAll(map[], ResultsUpTo(src, k)), ResultsFrom(src, k), lost);
  }

  lemma EndCutIsLossless(src: Source)
    ensures CutLossless(src, LastChunk(src))
  {
    assert Rest(src, LastChunk(src)) == [];
  }

  /** The weaker promise, with its exact condition: no result is lost by stopping
      and resuming if and only if, at every chunk boundary, what the lost claim
      lets through reaches no acceptable header behind the claim's end. */
  lemma NothingIsLostIff(job: Job, blockSize: nat)
    requires InOrder(job(blockSize))
    ensures AllCutsLossless(job(blockSize)) <==> NothingIsLost(job, blockSize)
  {
    var src := job(blockSize);
    if AllCutsLossless(src) {
      forall acts: seq<Action> | Legal(job, Fresh, acts) && CompleteAt(Exec(job, Fresh, acts), blockSize)
        ensures AllStored(AllResults(src), Exec(job, Fresh, acts).db.store)
      {
        var cs := AllGivenBelowTheCursorIsStored(job, acts);
        StoredUpTo(src, Exec(job, Fresh, acts).db.store, cs, LastChunk(src));
        InOrderIsGreedy(src);
      }
    } else {
      var k: nat :| k <= LastChunk(src) && !CutLossless(src, k);
      EndCutIsLossless(src);
      var acts, lost := LossIsExposed(job, blockSize, k);
    }
  }

  // ------------------------------------------------------------- nothing is invented

  /** The verdict on some candidate that the source offers. */
  ghost predicate Verdict(src: Source, f: Carved) {
    exists pos: nat, i: nat :: i < |src.candidatesAt(pos)| && IsVerdict(src, pos, i, f)
  }

  predicate IsVerdict(src: Source, pos: nat, i: nat, f: Carved)
    requires i < |src.candidatesAt(pos)|
  {
    src.candidatesAt(pos)[i].outcome == Some(f) && (src.keepCorrupted || f.validity == Full)
  }

  ghost predicate Genuine(job: Job, store: Store) {
    forall q | q in store :: q == KeyOf(store[q]) && exists blockSize: nat :: Verdict(job(blockSize), store[q])
  }

  lemma {:induction false} CandidateOfChunk(src: Source, start: nat, n: nat, i: nat) returns (pos: nat, j: nat)
    requires i < |Candidates(src, start, n)|
    ensures j < |src.candidatesAt(pos)| && src.candidatesAt(pos)[j] == Candidates(src, start, n)[i]
    decreases n
  {
    var before := Candidates(src, start, n - 1);
    if i < |before| {
      pos, j := CandidateOfChunk(src, start, n - 1, i);
    } else {
      pos, j := Position(start, n - 1), i - |before|;
    }
  }

  lemma SentIsVerdict(src: Source, start: nat, n: nat, f: Carved)
    requires f in Founds(Run(src, start, n).messages)
    ensures Verdict(src, f)
  {
    var all := Candidates(src, start, n);
    RunResults(src, start, n);
    EmittedIff([], all, src.keepCorrupted, f);
    var i :| 0 <= i < |all| && Emits([], all, src.keepCorrupted, i) && all[i].outcome.value == f;
    var pos, j := CandidateOfChunk(src, start, n, i);
    assert IsVerdict(src, pos, j, f);
  }

  lemma {:induction false} InsertGenuine(job: Job, blockSize: nat, store: Store, batch: seq<Carved>)
    requires Genuine(job, store) && forall f | f in batch :: Verdict(job(blockSize), f)
    ensures Genuine(job, InsertAll(store, batch))
    decreases |batch|
  {
    if batch != [] {
      InsertGenuine(job, blockSize, store, batch[..|batch| - 1]);
      assert batch[|batch| - 1] in batch;
    }
  }

  /** What a run holds back was sent by its scan. */
  lemma PendingWasSent(x: Expected, r: Session, store: Store, f: Carved)
    requires RunInv(x, r, store) && f in r.writer.pending
    ensures f in Founds(x.trace.messages)
  {
    FoundsPrefix(r.received, x.trace.messages);
    assert f in Founds(r.received);
  }

  lemma StepKeepsGenuine(job: Job, s: State, a: Action)
    requires Inv(job, s) && Genuine(job, s.db.store) && Enabled(job, s, a)
    ensures Genuine(job, Apply(job, s, a).db.store)
  {
    OnlyPendingIsStored(job, s, a);
    if s.run.Some? {
      PendingIsVerdict(job, s);
      InsertGenuine(job, s.run.value.blockSize, s.db.store, s.run.value.writer.pending);
    }
  }

  lemma OnlyPendingIsStored(job: Job, s: State, a: Action)
    requires Enabled(job, s, a)
    ensures Apply(job, s, a).db.store == s.db.store
         || (s.run.Some? && Apply(job, s, a).db.store == InsertAll(s.db.store, s.run.value.writer.pending))
  {
  }

  lemma PendingIsVerdict(job: Job, s: State)
    requires Inv(job, s) && s.run.Some?
    ensures forall f | f in s.run.value.writer.pending :: Verdict(job(s.run.value.blockSize), f)
  {
    var r := s.run.value;
    forall f | f in r.writer.pending ensures Verdict(job(r.blockSize), f) {
      PendingWasSent(Expect(job, r, r.producer.chunks), r, s.db.store, f);
      SentIsVerdict(Src(job, r), StartPos(job, r), r.producer.chunks, f);
    }
  }

  lemma {:induction false} ReachableGenuine(job: Job, s: State, acts: seq<Action>)
    requires Inv(job, s) && Genuine(job, s.db.store) && Legal(job, s, acts)
    ensures Genuine(job, Exec(job, s, acts).db.store)
    decreases |acts|
  {
    if acts != [] {
      StepKeepsGenuine(job, s, acts[0]);
      StepKeepsInv(job, s, acts[0]);
      ReachableGenuine(job, Apply(job, s, acts[0]), acts[1..]);
    }
  }

  /** In every execution every stored row is the verdict on an accepted candidate,
      under its own key. */
  lemma StoredIsGenuine(job: Job, acts: seq<Action>)
    requires Legal(job, Fresh, acts)
    ensures Genuine(job, Exec(job, Fresh, acts).db.store)
  {
    ReachableGenuine(job, Fresh, acts);
  }

  // -------------------------------------------- why the other half needs different files

  /** A header at the start of a file that reaches into the second chunk, and
      a trailer there that leads back to the same file. */
  function TrailerExample(): Source {
    Source(2 * CHUNK, 0, 2 * CHUNK, true,
           pos => if pos == 0 then [Candidate(100, Some(Image()))]
                  else if pos == CHUNK then [Candidate(CHUNK + 50, Some(Image()))]
                  else [])
  }

  function Image(): Carved { Carved(100, CHUNK, Full, 0) }

  lemma TrailerCandidates()
    ensures var src := TrailerExample();
            && Steps(src, 0) == 2 && Position(0, 1) == CHUNK
            && Candidates(src, 0, 1) == [Candidate(100, Some(Image()))]
            && Rest(src, 1) == [Candidate(CHUNK + 50, Some(Image()))]
    ensures forall f | Verdict(TrailerExample(), f) :: f == Image()
  {
    var src := TrailerExample();
    assert Position(0, 0) == 0 && Position(0, 1) == CHUNK && Position(CHUNK, 0) == CHUNK;
    assert Candidates(src, 0, 0) == [] && Candidates(src, CHUNK, 0) == [];
  }

  /** The trailer is kept out by the claim of the file alone. */
  lemma TrailerIsShielded()
    ensures Steps(TrailerExample(), 0) == 2 && !CutSafe(TrailerExample(), 1)
    ensures WholeScan(TrailerExample()) != [] && forall f | f in WholeScan(TrailerExample()) :: f == Image()
    ensures ChunkPass(TrailerExample(), 0, 0, []).emitted == [Image()]
  {
    var src := TrailerExample();
    TrailerCandidates();
    var a, b := Candidate(100, Some(Image())), Candidate(CHUNK + 50, Some(Image()));
    RunResults(src, 0, 1);
    OneFile(a);
    assert Position(0, 0) == 0 && [b][..0] == [] && [b][0] == b;
    assert Covers(Claim(100, 100 + CHUNK), b.start);
    assert Shielded([Claim(100, 100 + CHUNK)], [b], true, 0);
    ResultsGrow(src, 1, 2);
    assert ResultsUpTo(src, 1) == [Image()];
    forall f | f in WholeScan(src) ensures f == Image() {
      EmittedIff([], Candidates(src, 0, 2), true, f);
      CandidatesSplit(src, 0, 1, 1);
    }
  }

  /** The store of this source is exact after every session, although the cut is
      not safe: the file found twice is one row. */
  lemma PromiseMayHoldAnyway(job: Job)
    requires forall blockSize: nat :: job(blockSize) == TrailerExample()
    ensures !CutSafe(TrailerExample(), 1) && PromiseHolds(job, 0)
  {
    TrailerIsShielded();
    var src := TrailerExample();
    forall acts: seq<Action> |
      Legal(job, Fresh, acts) && (forall a | a in acts :: Uses(a, 0)) && Complete(Exec(job, Fresh, acts))
      ensures Exec(job, Fresh, acts).db.store == InsertAll(map[], WholeScan(job(0)))
    {
      TrailerStore(job, acts);
      assert forall i | 0 <= i < |WholeScan(src)| :: WholeScan(src)[i] in WholeScan(src);
      OnlyImage(WholeScan(src));
    }
  }

  lemma TrailerStore(job: Job, acts: seq<Action>)
    requires forall blockSize: nat :: job(blockSize) == TrailerExample()
    requires Legal(job, Fresh, acts) && Complete(Exec(job, Fresh, acts))
    ensures Exec(job, Fresh, acts).db.store == map[KeyOf(Image()) := Image()]
  {
    var store := Exec(job, Fresh, acts).db.store;
    TrailerCandidates();
    TrailerIsShielded();
    StoredIsGenuine(job, acts);
    var cs := AllGivenBelowTheCursorIsStored(job, acts);
    assert cs[0] == [] && Saved(TrailerExample(), store, 0, cs[0]);
    assert Image() in ChunkPass(TrailerExample(), 0, 0, []).emitted;
    assert KeyOf(Image()) in store;
    forall q | q in store ensures q == KeyOf(Image()) && store[q] == Image() {
    }
  }

  lemma {:induction false} OnlyImage(files: seq<Carved>)
    requires forall i | 0 <= i < |files| :: files[i] == Image()
    ensures InsertAll(map[], files) == if files == [] then map[] else map[KeyOf(Image()) := Image()]
    decreases |files|
  {
    if files != [] {
      OnlyImage(files[..|files| - 1]);
    }
  }
}
