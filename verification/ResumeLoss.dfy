/** Which results of the uninterrupted scan a stop and a resume can lose
    (crates/reclaim-carve/src/engine.rs:178-240, 548-560). */
module ResumeLoss {
  import opened Wrappers
  import opened CarveEngine

  // -------------------------------------------------------- what a lost claim can cost

  lemma {:induction false} GreedyConcat(horizon: nat, a: seq<Candidate>, b: seq<Candidate>, keep: bool)
    ensures Greedy(horizon, a + b, keep) == Greedy(horizon, a, keep) + Greedy(Horizon(horizon, a, keep), b, keep)
    ensures Horizon(horizon, a + b, keep) == Horizon(Horizon(horizon, a, keep), b, keep)
    decreases |b|
  {
    if b == [] {
      assert a + b == a;
    } else {
      var last := |b| - 1;
      assert (a + b)[..|a + b| - 1] == a + b[..last];
      GreedyConcat(horizon, a, b[..last], keep);
    }
  }

  lemma {:induction false} AllHidden(horizon: nat, cands: seq<Candidate>, keep: bool)
    requires Between(cands, 0, horizon)
    ensures Greedy(horizon, cands, keep) == [] && Horizon(horizon, cands, keep) == horizon
    decreases |cands|
  {
    if cands != [] {
      AllHidden(horizon, cands[..|cands| - 1], keep);
    }
  }

  /** The candidates that start before `h`. */
  function Below(cands: seq<Candidate>, h: nat): (pre: seq<Candidate>)
    ensures pre <= cands
    decreases |cands|
  {
    if cands == [] || cands[|cands| - 1].start < h then cands else Below(cands[..|cands| - 1], h)
  }

  function Past(cands: seq<Candidate>, h: nat): seq<Candidate> { cands[|Below(cands, h)|..] }

  lemma {:induction false} BelowIsBefore(cands: seq<Candidate>, h: nat)
    requires Ascending(cands)
    ensures Between(Below(cands, h), 0, h)
    ensures forall i | |Below(cands, h)| <= i < |cands| :: h <= cands[i].start
    decreases |cands|
  {
    if cands != [] && cands[|cands| - 1].start >= h {
      BelowIsBefore(cands[..|cands| - 1], h);
    }
  }

  /** What is taken below a lost horizon reaches no acceptable header past it. */
  predicate Lossless(h: nat, cands: seq<Candidate>, keep: bool) {
    Clean(Horizon(0, Below(cands, h), keep), Past(cands, h), keep)
  }

  /** Both passes, in the two parts. */
  lemma GreedyParts(h: nat, cands: seq<Candidate>, keep: bool)
    requires Ascending(cands) && InPlace(cands)
    ensures Greedy(h, cands, keep) == Greedy(0, Past(cands, h), keep)
    ensures Greedy(0, cands, keep)
         == Greedy(0, Below(cands, h), keep) + Greedy(Horizon(0, Below(cands, h), keep), Past(cands, h), keep)
    ensures Ascending(Past(cands, h)) && InPlace(Past(cands, h))
  {
    var pre, post := Below(cands, h), Past(cands, h);
    BelowIsBefore(cands, h);
    assert cands == pre + post;
    OrderOfParts(pre, post);
    GreedyConcat(h, pre, post, keep);
    GreedyConcat(0, pre, post, keep);
    AllHidden(h, pre, keep);
    assert Clean(h, post, keep);
    CleanSame(h, post, keep);
  }

  /** Without the horizon, a result at the offset of this one is missing. */
  lemma LostResult(h: nat, cands: seq<Candidate>, keep: bool) returns (r: Carved)
    requires Ascending(cands) && InPlace(cands) && !Lossless(h, cands, keep)
    ensures r in Greedy(h, cands, keep) && forall q | q in Greedy(0, cands, keep) :: q.offset != r.offset
    ensures exists i :: 0 <= i < |cands| && cands[i].start == r.offset
  {
    var pre, post := Below(cands, h), Past(cands, h);
    GreedyParts(h, cands, keep);
    BelowIsBefore(cands, h);
    r := DirtyDiffers(Horizon(0, pre, keep), post, keep);
    var i :| 0 <= i < |post| && post[i].start == r.offset;
    assert cands[|pre| + i] == post[i];
    forall q | q in Greedy(0, pre, keep) ensures q.offset < h {
      GreedySound(0, pre, keep);
      var j :| 0 <= j < |pre| && Accepted(pre[j], keep) && pre[j].outcome.value == q;
      assert cands[j] == pre[j];
    }
  }

  /** Forgetting a horizon loses no result if and only if what it lets through
      reaches no acceptable header past it. */
  lemma LosslessIff(h: nat, cands: seq<Candidate>, keep: bool)
    requires Ascending(cands) && InPlace(cands)
    ensures Lossless(h, cands, keep) <==> forall r | r in Greedy(h, cands, keep) :: r in Greedy(0, cands, keep)
  {
    if Lossless(h, cands, keep) {
      GreedyParts(h, cands, keep);
      CleanSame(Horizon(0, Below(cands, h), keep), Past(cands, h), keep);
    } else {
      var r := LostResult(h, cands, keep);
    }
  }

  lemma {:induction false} BelowOfPrefix(cands: seq<Candidate>, h: nat, n: nat)
    requires Ascending(cands) && n <= |cands|
    ensures Below(cands[..n], h) == if n <= |Below(cands, h)| then cands[..n] else Below(cands, h)
    decreases |cands|
  {
    if n == |cands| {
      assert cands[..n] == cands;
    } else if cands[|cands| - 1].start >= h {
      assert cands[..|cands| - 1][..n] == cands[..n];
      BelowOfPrefix(cands[..|cands| - 1], h, n);
    } else {
      assert n > 0 ==> cands[n - 1].start < h;
    }
  }

  lemma LosslessBefore(h: nat, cands: seq<Candidate>, keep: bool, n: nat)
    requires Ascending(cands) && n <= |cands| && Lossless(h, cands, keep)
    ensures Lossless(h, cands[..n], keep)
  {
    BelowOfPrefix(cands, h, n);
    if n > |Below(cands, h)| {
      var post := Past(cands[..n], h);
      forall i | 0 <= i < |post| && post[i].start < Horizon(0, Below(cands, h), keep) ensures !Accepted(post[i], keep) {
        assert post[i] == Past(cands, h)[i];
      }
    }
  }

  /** Nothing is lost at the start of chunk `k`. */
  predicate CutLossless(src: Source, k: nat)
    requires k <= Steps(src, src.scanStart)
  {
    Lossless(HorizonOf(Run(src, src.scanStart, k).claims), Rest(src, k), src.keepCorrupted)
  }

  /** A stop and a resume keep all the results of the uninterrupted scan if and
      only if nothing is lost at the cut. */
  lemma ResumeKeepsAllIff(src: Source, k: nat)
    requires InOrder(src) && k <= Steps(src, src.scanStart)
    ensures CutLossless(src, k)
       <==> forall r | r in AllResults(src) :: r in ResultsUpTo(src, k) + ResultsFrom(src, k)
  {
    WholeAtCut(src, k);
    LosslessIff(HorizonOf(Run(src, src.scanStart, k).claims), Rest(src, k), src.keepCorrupted);
    if !CutLossless(src, k) {
      var r := LossyCutLoses(src, k);
    }
  }

  /** The uninterrupted results, up to the cut and from there on. */
  lemma WholeAtCut(src: Source, k: nat)
    requires InOrder(src) && k <= Steps(src, src.scanStart)
    ensures Ascending(Rest(src, k)) && InPlace(Rest(src, k))
    ensures AllResults(src) == ResultsUpTo(src, k)
                               + Greedy(HorizonOf(Run(src, src.scanStart, k).claims), Rest(src, k), src.keepCorrupted)
    ensures ResultsFrom(src, k) == Greedy(0, Rest(src, k), src.keepCorrupted)
    ensures forall q, i | q in ResultsUpTo(src, k) && 0 <= i < |Rest(src, k)| :: q.offset < Rest(src, k)[i].start
  {
    RunResults(src, src.scanStart, k);
    CutScan(src, k);
    CutList(Candidates(src, src.scanStart, k), Rest(src, k), src.keepCorrupted);
  }

  lemma LossyCutLoses(src: Source, k: nat) returns (r: Carved)
    requires InOrder(src) && k <= Steps(src, src.scanStart) && !CutLossless(src, k)
    ensures r in AllResults(src)
    ensures forall q | q in ResultsUpTo(src, k) || q in ResultsFrom(src, k) :: q.offset != r.offset
  {
    WholeAtCut(src, k);
    r := LostResult(HorizonOf(Run(src, src.scanStart, k).claims), Rest(src, k), src.keepCorrupted);
    var i :| 0 <= i < |Rest(src, k)| && Rest(src, k)[i].start == r.offset;
  }

  /** A Full file that reaches into the second chunk; there, a header inside it
      whose file ends behind it, and a third file that begins in the second. */
  function LossExample(): Source {
    Source(2 * CHUNK, 0, 2 * CHUNK, true,
           pos => if pos == 0 then [FullFile(100, CHUNK)]
                  else if pos == CHUNK then [FullFile(CHUNK + 50, 1000), FullFile(CHUNK + 500, 10)]
                  else [])
  }

  function FullFile(start: nat, len: nat): Candidate { Candidate(start, Some(Carved(start, len, Full, 0))) }

  /** The uninterrupted scan reports the third file. Stopped at the chunk boundary
      and resumed, it reports the embedded one instead. */
  lemma ResumeCanLose()
    ensures InOrder(LossExample()) && Steps(LossExample(), 0) == 2
    ensures var third := Carved(CHUNK + 500, 10, Full, 0);
            && third in AllResults(LossExample())
            && third !in ResultsUpTo(LossExample(), 1) && third !in ResultsFrom(LossExample(), 1)
  {
    var src := LossExample();
    var a, b, c := FullFile(100, CHUNK), FullFile(CHUNK + 50, 1000), FullFile(CHUNK + 500, 10);
    LossExampleInOrder();
    assert Position(0, 0) == 0 && Position(0, 1) == CHUNK && Position(CHUNK, 0) == CHUNK;
    assert Candidates(src, 0, 0) == [] && Candidates(src, CHUNK, 0) == [];
    assert Candidates(src, 0, 1) == [a] && Rest(src, 1) == [b, c];
    WholeAtCut(src, 1);
    RunResults(src, 0, 1);
    OneFile(a);
    TwoFiles(0, b, c);
    TwoFiles(CHUNK + 100, b, c);
  }

  lemma LossExampleInOrder()
    ensures InOrder(LossExample()) && Steps(LossExample(), 0) == 2
  {
    forall k: nat ensures ChunkInOrder(LossExample(), k) {
      LossExampleChunk(k);
    }
  }

  lemma LossExampleChunk(k: nat)
    ensures ChunkInOrder(LossExample(), k)
  {
    var one, two := [FullFile(100, CHUNK)], [FullFile(CHUNK + 50, 1000), FullFile(CHUNK + 500, 10)];
    assert Position(0, k) == k * CHUNK;
    var cands := LossExample().candidatesAt(Position(0, k));
    assert cands == if k == 0 then one else if k == 1 then two else [];
    assert one[0] == FullFile(100, CHUNK);
    assert two[0] == FullFile(CHUNK + 50, 1000) && two[1] == FullFile(CHUNK + 500, 10);
    if k > 1 {
      assert cands == [];
    }
  }

  lemma OneFile(a: Candidate)
    requires a.outcome.Some? && a.outcome.value.validity.Full? && a.outcome.value.len > 0
    requires a.outcome.value.offset == a.start
    ensures Fold([], [a], true) == Pass([a.outcome.value], [Claim(a.start, a.outcome.value.End())])
  {
    assert [a][..0] == [] && [a][0] == a;
    ConsiderOne(Pass([], []), a, true);
  }

  /** Two Full files, the second of which begins inside the first. */
  lemma TwoFiles(h: nat, b: Candidate, c: Candidate)
    requires Accepted(b, true) && Accepted(c, true)
    requires b.outcome.value.validity.Full? && b.start < c.start < b.outcome.value.End()
    requires h <= b.start || b.start < h <= c.start
    ensures Greedy(h, [b, c], true) == if h <= b.start then [b.outcome.value] else [c.outcome.value]
  {
    assert [b, c][..1] == [b] && [b][..0] == [];
    assert Horizon(h, [], true) == h && Greedy(h, [], true) == [];
    assert Horizon(h, [b], true) == if h <= b.start then b.outcome.value.End() else h;
    assert Greedy(h, [b], true) == if h <= b.start then [b.outcome.value] else [];
  }
}
