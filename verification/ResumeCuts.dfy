/** What forgetting the claims at a chunk boundary does to the results, for every
    source: no order of candidates and no place of verdicts is taken as known
    (crates/reclaim-carve/src/engine.rs:178-240, 548-560). */
module ResumeCuts {
  import opened Wrappers
  import opened CarveEngine

  // ------------------------------------------------------------ which candidates count

  /** Candidate `i` gives a result in a loop that begins with these claims. */
  predicate Emits(claims: seq<Claim>, cands: seq<Candidate>, keep: bool, i: nat)
    requires i < |cands|
  {
    Accepted(cands[i], keep) && !Suppressed(Fold(claims, cands[..i], keep).claims, cands[i].start)
  }

  lemma EmitsBefore(claims: seq<Claim>, cands: seq<Candidate>, keep: bool, n: nat, i: nat)
    requires i < n <= |cands|
    ensures Emits(claims, cands[..n], keep, i) <==> Emits(claims, cands, keep, i)
  {
    assert cands[..n][..i] == cands[..i];
  }

  lemma EmittedNext(claims: seq<Claim>, cands: seq<Candidate>, keep: bool, r: Carved)
    requires cands != []
    ensures var last := |cands| - 1;
            r in Fold(claims, cands, keep).emitted
            <==> (r in Fold(claims, cands[..last], keep).emitted
                  || (Emits(claims, cands, keep, last) && cands[last].outcome.value == r))
  {
  }

  /** The results are those of the candidates that count. */
  lemma {:induction false} EmittedIff(claims: seq<Claim>, cands: seq<Candidate>, keep: bool, r: Carved)
    ensures r in Fold(claims, cands, keep).emitted
       <==> exists i | 0 <= i < |cands| :: Emits(claims, cands, keep, i) && cands[i].outcome.value == r
    decreases |cands|
  {
    if cands != [] {
      var last := |cands| - 1;
      var before := cands[..last];
      EmittedIff(claims, before, keep, r);
      EmittedNext(claims, cands, keep, r);
      forall i | 0 <= i < last ensures Emits(claims, before, keep, i) <==> Emits(claims, cands, keep, i) {
        EmitsBefore(claims, cands, keep, last, i);
      }
      assert forall i | 0 <= i < last :: before[i] == cands[i];
    }
  }

  // -------------------------------------------------- which outcomes become results

  /** Whether some claim begins before and ends after the place. */
  predicate Inside(claims: seq<Claim>, start: nat) {
    exists i | 0 <= i < |claims| :: claims[i].start < start && start < claims[i].end
  }

  /** Every result, and only these: the outcome of a candidate that lies inside no
      claim held when its turn comes, if it is Full or corrupted files are kept. */
  lemma ResultsIff(claims: seq<Claim>, cands: seq<Candidate>, keep: bool, r: Carved)
    ensures r in Fold(claims, cands, keep).emitted
       <==> exists i | 0 <= i < |cands| ::
              cands[i].outcome == Some(r) && (keep || r.validity == Full)
              && !Inside(Fold(claims, cands[..i], keep).claims, cands[i].start)
  {
    EmittedIff(claims, cands, keep, r);
    forall i | 0 <= i < |cands|
      ensures (Emits(claims, cands, keep, i) && cands[i].outcome.value == r)
         <==> (cands[i].outcome == Some(r) && (keep || r.validity == Full)
               && !Inside(Fold(claims, cands[..i], keep).claims, cands[i].start))
    {
      InsideIsSuppressed(Fold(claims, cands[..i], keep).claims, cands[i].start);
    }
  }

  lemma InsideIsSuppressed(claims: seq<Claim>, start: nat)
    ensures Suppressed(claims, start) <==> Inside(claims, start)
  {
    if Suppressed(claims, start) {
      var i :| 0 <= i < |claims| && Covers(claims[i], start);
      assert claims[i].start < start && start < claims[i].end;
    }
    if Inside(claims, start) {
      var i :| 0 <= i < |claims| && claims[i].start < start && start < claims[i].end;
      assert Covers(claims[i], start);
    }
  }

  /** Unless corrupted files are kept, everything a scan sends is Full. */
  lemma OnlyFullIsSent(src: Source, start: nat, n: nat)
    requires !src.keepCorrupted
    ensures forall r | r in Founds(Run(src, start, n).messages) :: r.validity == Full
  {
    RunResults(src, start, n);
    forall r | r in Founds(Run(src, start, n).messages) ensures r.validity == Full {
      ResultsIff([], Candidates(src, start, n), false, r);
    }
  }

  // ------------------------------------------------------- claims and Full results

  /** The place lies strictly inside an earlier result that is Full. */
  predicate InsideFull(out: seq<Carved>, start: nat) {
    exists i | 0 <= i < |out| :: out[i].validity == Full && out[i].offset < start && start < out[i].offset + out[i].len
  }

  /** How many results are Full. */
  function Fulls(out: seq<Carved>): nat {
    if out == [] then 0 else Fulls(out[..|out| - 1]) + (if out[|out| - 1].validity == Full then 1 else 0)
  }

  /** Every claim is some Full result's range. */
  predicate ClaimsOf(claims: seq<Claim>, out: seq<Carved>) {
    forall c | c in claims :: exists r :: r in out && r.validity == Full && c == Claim(r.offset, r.offset + r.len)
  }

  /** Every Full result that reaches past the cursor is claimed. */
  predicate Claimed(claims: seq<Claim>, out: seq<Carved>, cursor: nat) {
    forall r | r in out && r.validity == Full && r.len > 0 && r.offset + r.len > cursor ::
      Claim(r.offset, r.offset + r.len) in claims
  }

  lemma {:induction false} RetainedIff(claims: seq<Claim>, cursor: nat, c: Claim)
    ensures c in Retained(claims, cursor) <==> c in claims && c.end > cursor
  {
    if claims != [] {
      RetainedIff(claims[1..], cursor, c);
    }
  }

  /** Pruning keeps exactly the claims that end past the cursor, if these are at
      most 64; of more, the last 64. */
  lemma PrunedIff(claims: seq<Claim>, cursor: nat)
    ensures |Retained(claims, cursor)| <= 64 ==>
              forall c :: c in Pruned(claims, cursor) <==> c in claims && c.end > cursor
    ensures |Retained(claims, cursor)| > 64 ==>
              |Pruned(claims, cursor)| == 64
              && Pruned(claims, cursor) == Retained(claims, cursor)[|Retained(claims, cursor)| - 64..]
    ensures forall c | c in Pruned(claims, cursor) :: c in claims && c.end > cursor
  {
    forall c ensures c in Retained(claims, cursor) <==> c in claims && c.end > cursor {
      RetainedIff(claims, cursor, c);
    }
  }

  /** The claims are those of these results, as far as they reach past the cursor. */
  predicate Booked(claims: seq<Claim>, out: seq<Carved>, cursor: nat) {
    ClaimsOf(claims, out) && Claimed(claims, out, cursor) && |claims| <= Fulls(out)
  }

  lemma FullsMore(out: seq<Carved>, r: Carved)
    ensures Fulls(out + [r]) == Fulls(out) + (if r.validity == Full then 1 else 0)
  {
    assert (out + [r])[..|out|] == out;
  }

  lemma PrunedIsBooked(claims: seq<Claim>, out: seq<Carved>, cursor: nat, cursor': nat)
    requires Booked(claims, out, cursor) && cursor <= cursor' && |claims| <= 64
    ensures Booked(Pruned(claims, cursor'), out, cursor')
  {
    RetainedLength(claims, cursor');
    PrunedIff(claims, cursor');
  }

  lemma RetainedLength(claims: seq<Claim>, cursor: nat)
    ensures |Pruned(claims, cursor)| <= |Retained(claims, cursor)| <= |claims|
  {
  }

  lemma FullIsBooked(claims: seq<Claim>, out: seq<Carved>, cursor: nat, r: Carved)
    requires Booked(claims, out, cursor) && r.validity == Full
    ensures Booked(claims + [Claim(r.offset, r.offset + r.len)], out + [r], cursor)
  {
    FullsMore(out, r);
    var all := claims + [Claim(r.offset, r.offset + r.len)];
    forall c | c in all
      ensures exists x :: x in out + [r] && x.validity == Full && c == Claim(x.offset, x.offset + x.len)
    {
      if c in claims {
        var x :| x in out && x.validity == Full && c == Claim(x.offset, x.offset + x.len);
        assert x in out + [r];
      } else {
        assert r in out + [r];
      }
    }
  }

  lemma OtherIsBooked(claims: seq<Claim>, out: seq<Carved>, cursor: nat, r: Carved)
    requires Booked(claims, out, cursor) && (r.validity != Full || r.len == 0)
    ensures Booked(claims, out + [r], cursor)
  {
    FullsMore(out, r);
    forall c | c in claims
      ensures exists x :: x in out + [r] && x.validity == Full && c == Claim(x.offset, x.offset + x.len)
    {
      var x :| x in out && x.validity == Full && c == Claim(x.offset, x.offset + x.len);
      assert x in out + [r];
    }
  }

  lemma ConsiderBooks(p: Pass, c: Candidate, keep: bool, cursor: nat)
    requires Booked(p.claims, p.emitted, cursor) && cursor <= c.start && Fulls(Consider(p, c, keep).emitted) <= 64
    ensures Booked(Consider(p, c, keep).claims, Consider(p, c, keep).emitted, c.start)
  {
    if !Suppressed(p.claims, c.start) && Accepted(c, keep) {
      var cf := c.outcome.value;
      FullsMore(p.emitted, cf);
      if cf.validity.Full? && cf.len > 0 {
        FullIsBooked(p.claims, p.emitted, cursor, cf);
        PrunedIsBooked(p.claims + [Claim(cf.offset, cf.End())], p.emitted + [cf], cursor, c.start);
      } else {
        OtherIsBooked(p.claims, p.emitted, cursor, cf);
        PrunedIsBooked(p.claims, p.emitted + [cf], cursor, c.start);
      }
    }
  }

  lemma ConsiderFulls(p: Pass, c: Candidate, keep: bool)
    ensures Fulls(p.emitted) <= Fulls(Consider(p, c, keep).emitted)
  {
    if Consider(p, c, keep) != p {
      FullsMore(p.emitted, c.outcome.value);
    }
  }

  /** Up to 64 Full results the claims are the ranges of those that reach ahead. */
  lemma {:induction false} ClaimsAreFullResults(cands: seq<Candidate>, keep: bool)
    requires Ascending(cands) && Fulls(Fold([], cands, keep).emitted) <= 64
    ensures Booked(Fold([], cands, keep).claims, Fold([], cands, keep).emitted,
                   if cands == [] then 0 else cands[|cands| - 1].start)
    decreases |cands|
  {
    if cands != [] {
      var last := |cands| - 1;
      var p := Fold([], cands[..last], keep);
      ConsiderFulls(p, cands[last], keep);
      ClaimsAreFullResults(cands[..last], keep);
      ConsiderBooks(p, cands[last], keep, if last == 0 then 0 else cands[last - 1].start);
    }
  }

  lemma BookedPlace(claims: seq<Claim>, out: seq<Carved>, cursor: nat, start: nat)
    requires Booked(claims, out, cursor) && cursor <= start
    ensures Inside(claims, start) <==> InsideFull(out, start)
  {
    if Inside(claims, start) {
      var i :| 0 <= i < |claims| && claims[i].start < start && start < claims[i].end;
      assert claims[i] in claims;
      var r :| r in out && r.validity == Full && claims[i] == Claim(r.offset, r.offset + r.len);
      var j :| 0 <= j < |out| && out[j] == r;
    }
    if InsideFull(out, start) {
      var j :| 0 <= j < |out| && out[j].validity == Full && out[j].offset < start && start < out[j].offset + out[j].len;
      assert out[j] in out && Claim(out[j].offset, out[j].offset + out[j].len) in claims;
    }
  }

  /** Of ascending candidates one is taken, while there are at most 64 Full results,
      exactly when its outcome is Full, or corrupted files are kept, and no earlier
      Full result begins before it and ends after it. The verdicts may be anywhere. */
  lemma TakenIff(cands: seq<Candidate>, keep: bool, i: nat)
    requires Ascending(cands) && i < |cands| && Fulls(Fold([], cands[..i], keep).emitted) <= 64
    ensures Fold([], cands[..i + 1], keep).emitted
         == if cands[i].outcome.Some? && (keep || cands[i].outcome.value.validity == Full)
               && !InsideFull(Fold([], cands[..i], keep).emitted, cands[i].start)
            then Fold([], cands[..i], keep).emitted + [cands[i].outcome.value]
            else Fold([], cands[..i], keep).emitted
  {
    var p := Fold([], cands[..i], keep);
    ClaimsAreFullResults(cands[..i], keep);
    InsideIsSuppressed(p.claims, cands[i].start);
    BookedPlace(p.claims, p.emitted, if i == 0 then 0 else cands[i - 1].start, cands[i].start);
    assert cands[..i + 1][..i] == cands[..i];
  }

  /** The loop that has the claims passes the candidate over, the loop that has
      lost them takes it. */
  predicate Shielded(claims: seq<Claim>, cands: seq<Candidate>, keep: bool, i: nat)
    requires i < |cands|
  {
    Emits([], cands, keep, i) && !Emits(claims, cands, keep, i)
  }

  /** No candidate is kept out by these claims alone. */
  predicate Forgettable(claims: seq<Claim>, cands: seq<Candidate>, keep: bool) {
    forall i | 0 <= i < |cands| :: !Shielded(claims, cands, keep, i)
  }

  lemma ForgettableBefore(claims: seq<Claim>, cands: seq<Candidate>, keep: bool, n: nat)
    requires n <= |cands| && Forgettable(claims, cands, keep)
    ensures Forgettable(claims, cands[..n], keep)
  {
    forall i | 0 <= i < n ensures !Shielded(claims, cands[..n], keep, i) {
      EmitsBefore(claims, cands, keep, n, i);
      EmitsBefore([], cands, keep, n, i);
      assert !Shielded(claims, cands, keep, i);
    }
  }

  // ------------------------------------------------------------------- old and new claims

  /** Nothing but claims of `b`. */
  predicate From(a: seq<Claim>, b: seq<Claim>) { forall c | c in a :: c in b }

  lemma {:induction false} RetainedConcat(x: seq<Claim>, y: seq<Claim>, cursor: nat)
    ensures Retained(x + y, cursor) == Retained(x, cursor) + Retained(y, cursor)
    decreases |y|
  {
    if y == [] {
      assert x + y == x;
    } else {
      var last := |y| - 1;
      RetainedConcat(x, y[..last], cursor);
      RetainedSnoc(x + y[..last], y[last], cursor);
      RetainedSnoc(y[..last], y[last], cursor);
      assert x + y == x + y[..last] + [y[last]] && y == y[..last] + [y[last]];
    }
  }

  lemma {:induction false} RetainedFrom(x: seq<Claim>, cursor: nat)
    ensures From(Retained(x, cursor), x)
  {
    if x != [] {
      RetainedFrom(x[1..], cursor);
    }
  }

  lemma DropFront(rx: seq<Claim>, ry: seq<Claim>, drop: nat) returns (x: seq<Claim>)
    requires drop == |rx| + |ry| - MAX_CLAIMS
    ensures (rx + ry)[drop..] == x + (if |ry| > MAX_CLAIMS then ry[|ry| - MAX_CLAIMS..] else ry)
    ensures From(x, rx)
  {
    x := if drop < |rx| then rx[drop..] else [];
  }

  /** Pruning takes from the old claims first, and from the new ones as if there
      were no others. */
  lemma PrunedParts(x: seq<Claim>, y: seq<Claim>, cursor: nat) returns (x': seq<Claim>)
    ensures Pruned(x + y, cursor) == x' + Pruned(y, cursor) && From(x', x)
  {
    RetainedConcat(x, y, cursor);
    RetainedFrom(x, cursor);
    var rx, ry := Retained(x, cursor), Retained(y, cursor);
    if |rx + ry| > MAX_CLAIMS {
      x' := DropFront(rx, ry, |rx + ry| - MAX_CLAIMS);
    } else {
      x' := rx;
    }
  }

  lemma SuppressedParts(x: seq<Claim>, y: seq<Claim>, start: nat)
    ensures Suppressed(x + y, start) <==> Suppressed(x, start) || Suppressed(y, start)
  {
    if Suppressed(x, start) {
      var i :| 0 <= i < |x| && Covers(x[i], start);
      assert Covers((x + y)[i], start);
    }
    if Suppressed(y, start) {
      var i :| 0 <= i < |y| && Covers(y[i], start);
      assert Covers((x + y)[|x| + i], start);
    }
    if Suppressed(x + y, start) {
      var i :| 0 <= i < |x + y| && Covers((x + y)[i], start);
      assert if i < |x| then Covers(x[i], start) else Covers(y[i - |x|], start);
    }
  }

  lemma Appended(x: seq<Claim>, y: seq<Claim>, c: Claim)
    ensures (x + y) + [c] == x + (y + [c])
  {
  }

  /** One candidate, before a loop that has old claims too and one that has not. */
  lemma ConsiderBoth(p: Pass, q: Pass, x: seq<Claim>, c: Candidate, keep: bool) returns (x': seq<Claim>)
    requires p.emitted == q.emitted && p.claims == x + q.claims
    requires Accepted(c, keep) && Suppressed(x, c.start) ==> Suppressed(q.claims, c.start)
    ensures Consider(p, c, keep).emitted == Consider(q, c, keep).emitted
    ensures Consider(p, c, keep).claims == x' + Consider(q, c, keep).claims && From(x', x)
  {
    SuppressedParts(x, q.claims, c.start);
    if Suppressed(q.claims, c.start) || !Accepted(c, keep) {
      x' := x;
    } else {
      var cf := c.outcome.value;
      if cf.validity.Full? && cf.len > 0 {
        Appended(x, q.claims, Claim(cf.offset, cf.End()));
        x' := PrunedParts(x, q.claims + [Claim(cf.offset, cf.End())], c.start);
      } else {
        x' := PrunedParts(x, q.claims, c.start);
      }
    }
  }

  /** Claims that keep no candidate out can be forgotten: the results are the
      same, and what is left of these claims stands before the new ones. */
  lemma {:induction false} FoldForgets(claims: seq<Claim>, cands: seq<Candidate>, keep: bool) returns (x: seq<Claim>)
    requires Forgettable(claims, cands, keep)
    ensures Fold(claims, cands, keep).emitted == Fold([], cands, keep).emitted
    ensures Fold(claims, cands, keep).claims == x + Fold([], cands, keep).claims && From(x, claims)
    decreases |cands|
  {
    if cands == [] {
      x := claims;
    } else {
      var last := |cands| - 1;
      ForgettableBefore(claims, cands, keep, last);
      var y := FoldForgets(claims, cands[..last], keep);
      var p, q := Fold(claims, cands[..last], keep), Fold([], cands[..last], keep);
      SuppressedParts(y, q.claims, cands[last].start);
      assert !Shielded(claims, cands, keep, last);
      x := ConsiderBoth(p, q, y, cands[last], keep);
    }
  }

  /** A condition on the claims and the candidates alone: no claim covers an
      acceptable header. */
  predicate Uncovered(claims: seq<Claim>, cands: seq<Candidate>, keep: bool) {
    forall i | 0 <= i < |cands| && Suppressed(claims, cands[i].start) :: !Accepted(cands[i], keep)
  }

  lemma SuppressedFrom(x: seq<Claim>, claims: seq<Claim>, start: nat)
    requires From(x, claims) && Suppressed(x, start)
    ensures Suppressed(claims, start)
  {
    var i :| 0 <= i < |x| && Covers(x[i], start);
    assert x[i] in claims;
  }

  lemma {:induction false} UncoveredIsForgettable(claims: seq<Claim>, cands: seq<Candidate>, keep: bool)
    requires Uncovered(claims, cands, keep)
    ensures Forgettable(claims, cands, keep)
    decreases |cands|
  {
    if cands != [] {
      var last := |cands| - 1;
      UncoveredIsForgettable(claims, cands[..last], keep);
      var x := FoldForgets(claims, cands[..last], keep);
      forall i | 0 <= i < |cands| ensures !Shielded(claims, cands, keep, i) {
        if i < last {
          EmitsBefore(claims, cands, keep, last, i);
          EmitsBefore([], cands, keep, last, i);
          assert !Shielded(claims, cands[..last], keep, i);
        } else {
          LastIsNotShielded(claims, x, Fold([], cands[..last], keep).claims, cands, keep);
        }
      }
    }
  }

  lemma LastIsNotShielded(claims: seq<Claim>, x: seq<Claim>, y: seq<Claim>, cands: seq<Candidate>, keep: bool)
    requires cands != [] && Uncovered(claims, cands, keep) && From(x, claims)
    requires y == Fold([], cands[..|cands| - 1], keep).claims
    requires Fold(claims, cands[..|cands| - 1], keep).claims == x + y
    ensures !Shielded(claims, cands, keep, |cands| - 1)
  {
    var c := cands[|cands| - 1];
    SuppressedParts(x, y, c.start);
    if Suppressed(x, c.start) {
      SuppressedFrom(x, claims, c.start);
    }
  }

  // ------------------------------------------------------------------- cutting the scan

  /** The results of the scan, uninterrupted. */
  function WholeScan(src: Source): seq<Carved> { ResultsUpTo(src, Steps(src, src.scanStart)) }

  /** The claims lost at the start of chunk `k` keep no candidate out. */
  predicate CutSafe(src: Source, k: nat)
    requires k <= Steps(src, src.scanStart)
  {
    Forgettable(Run(src, src.scanStart, k).claims, Rest(src, k), src.keepCorrupted)
  }

  /** No claim held at the start of chunk `k` covers an acceptable header from
      there on. */
  predicate CutUncovered(src: Source, k: nat)
    requires k <= Steps(src, src.scanStart)
  {
    Uncovered(Run(src, src.scanStart, k).claims, Rest(src, k), src.keepCorrupted)
  }

  lemma UncoveredCutIsSafe(src: Source, k: nat)
    requires k <= Steps(src, src.scanStart) && CutUncovered(src, k)
    ensures CutSafe(src, k)
  {
    UncoveredIsForgettable(Run(src, src.scanStart, k).claims, Rest(src, k), src.keepCorrupted);
  }

  /** The whole scan, cut before chunk `k`. */
  lemma WholeInParts(src: Source, k: nat)
    requires k <= Steps(src, src.scanStart)
    ensures Candidates(src, src.scanStart, Steps(src, src.scanStart))
       == Candidates(src, src.scanStart, k) + Rest(src, k)
    ensures Run(src, src.scanStart, k).claims == Fold([], Candidates(src, src.scanStart, k), src.keepCorrupted).claims
  {
    CandidatesSplit(src, src.scanStart, k, Steps(src, src.scanStart) - k);
    RunResults(src, src.scanStart, k);
  }

  /** Stopping and resuming at a safe cut gives the uninterrupted results. */
  lemma ResumeIsExact(src: Source, k: nat)
    requires k <= Steps(src, src.scanStart) && CutSafe(src, k)
    ensures ResultsUpTo(src, k) + ResultsFrom(src, k) == WholeScan(src)
  {
    WholeInParts(src, k);
    FoldConcat([], Candidates(src, src.scanStart, k), Rest(src, k), src.keepCorrupted);
    var x := FoldForgets(Run(src, src.scanStart, k).claims, Rest(src, k), src.keepCorrupted);
  }

  predicate SameKey(a: Carved, b: Carved) { a.offset == b.offset && a.len == b.len }

  /** No two acceptable candidates are the same file. */
  predicate DistinctFiles(cands: seq<Candidate>, keep: bool) {
    forall i, j | 0 <= i < j < |cands| && Accepted(cands[i], keep) && Accepted(cands[j], keep) ::
      !SameKey(cands[i].outcome.value, cands[j].outcome.value)
  }

  predicate Distinct(src: Source) {
    DistinctFiles(Candidates(src, src.scanStart, Steps(src, src.scanStart)), src.keepCorrupted)
  }

  /** A candidate of the second part is taken with the claims of the first. */
  lemma EmitsInSecond(a: seq<Candidate>, b: seq<Candidate>, keep: bool, i: nat)
    requires i < |b|
    ensures Emits([], a + b, keep, |a| + i) <==> Emits(Fold([], a, keep).claims, b, keep, i)
  {
    assert (a + b)[..|a| + i] == a + b[..i];
    FoldConcat([], a, b[..i], keep);
  }

  /** A file that a loop passes over is none of its results. */
  lemma NotEmittedIsNew(all: seq<Candidate>, keep: bool, k: nat)
    requires DistinctFiles(all, keep) && k < |all| && Accepted(all[k], keep) && !Emits([], all, keep, k)
    ensures forall q | q in Fold([], all, keep).emitted :: !SameKey(q, all[k].outcome.value)
  {
    forall q | q in Fold([], all, keep).emitted ensures !SameKey(q, all[k].outcome.value) {
      EmittedIff([], all, keep, q);
      var j :| 0 <= j < |all| && Emits([], all, keep, j) && all[j].outcome.value == q;
    }
  }

  /** A shielded candidate gives the resumed scan a file that the whole scan does
      not have. */
  lemma ShieldedIsNew(a: seq<Candidate>, b: seq<Candidate>, keep: bool, i: nat)
    requires DistinctFiles(a + b, keep) && i < |b| && Shielded(Fold([], a, keep).claims, b, keep, i)
    ensures b[i].outcome.value in Fold([], b, keep).emitted
    ensures forall q | q in Fold([], a + b, keep).emitted :: !SameKey(q, b[i].outcome.value)
  {
    EmittedIff([], b, keep, b[i].outcome.value);
    EmitsInSecond(a, b, keep, i);
    NotEmittedIsNew(a + b, keep, |a| + i);
  }

  lemma UnsafeCutAdds(src: Source, k: nat) returns (r: Carved)
    requires k <= Steps(src, src.scanStart) && Distinct(src) && !CutSafe(src, k)
    ensures r in ResultsFrom(src, k) && forall q | q in WholeScan(src) :: !SameKey(q, r)
  {
    WholeInParts(src, k);
    var rest, claims := Rest(src, k), Run(src, src.scanStart, k).claims;
    var i :| 0 <= i < |rest| && Shielded(claims, rest, src.keepCorrupted, i);
    ShieldedIsNew(Candidates(src, src.scanStart, k), rest, src.keepCorrupted, i);
    r := rest[i].outcome.value;
  }

  /** Stopping before chunk `k` and resuming there, which forgets the claims,
      gives the uninterrupted result list exactly when the cut is safe. */
  lemma ResumeIsExactIff(src: Source, k: nat)
    requires k <= Steps(src, src.scanStart) && Distinct(src)
    ensures CutSafe(src, k) <==> ResultsUpTo(src, k) + ResultsFrom(src, k) == WholeScan(src)
  {
    if CutSafe(src, k) {
      ResumeIsExact(src, k);
    } else {
      var r := UnsafeCutAdds(src, k);
      assert r in ResultsUpTo(src, k) + ResultsFrom(src, k);
    }
  }

  // ------------------------------------------------- verdicts that keep the header's start

  lemma InOrderIsDistinct(src: Source)
    requires InOrder(src)
    ensures Distinct(src)
  {
    CandidatesInOrder(src, 0, Steps(src, src.scanStart));
    assert Position(src.scanStart, 0) == src.scanStart;
  }

  lemma InOrderIsGreedy(src: Source)
    requires InOrder(src)
    ensures AllResults(src) == WholeScan(src)
  {
    ChunkLoopIsGreedy(src);
    assert Position(src.scanStart, 0) == src.scanStart;
  }

  /** For verdicts that keep the header's start a cut is safe exactly when it is
      clean: the last claimed file, if it reaches across, hides no acceptable header. */
  lemma SafeIffClean(src: Source, k: nat)
    requires InOrder(src) && k <= Steps(src, src.scanStart)
    ensures CutSafe(src, k) <==> CutClean(src, k)
  {
    InOrderIsDistinct(src);
    InOrderIsGreedy(src);
    ResumeIsExactIff(src, k);
    CleanCutIff(src, k);
  }
}
