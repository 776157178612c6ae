/** The carve engine's chunk loop and its claims list
    (crates/reclaim-carve/src/engine.rs).

    Which offsets of a chunk are candidates, and what the validators make of
    them, is an oracle: `Source.candidatesAt(pos)` lists the candidates of the
    chunk read at `pos` in offset order, each with the outcome of
    `identify_from`.  Everything the engine does with them is modelled. */
module CarveEngine {
  import opened Arith
  import opened Wrappers

  /** Bytes read per sequential step. */
  const CHUNK: nat := 8 * 1024 * 1024
  /** Most claims kept by a prune. */
  const MAX_CLAIMS: nat := 64

  datatype Validity = Full | Truncated | Suspect

  /** A carved file.  `details` stands for everything else a row records. */
  datatype Carved = Carved(offset: nat, len: nat, validity: Validity, details: nat) {
    function End(): nat { offset + len }
  }

  datatype Candidate = Candidate(start: nat, outcome: Option<Carved>)

  /** A Full result's range `[start, end)`. */
  datatype Claim = Claim(start: nat, end: nat)

  /** A source of `length` bytes, scanned over `[scanStart, scanEnd)`. */
  datatype Source = Source(length: nat, scanStart: nat, scanEnd: nat, keepCorrupted: bool,
                           candidatesAt: nat -> seq<Candidate>)

  // ---------------------------------------------------------------- claims

  predicate Covers(c: Claim, start: nat) { c.start < start < c.end }

  predicate Suppressed(claims: seq<Claim>, start: nat) {
    exists i | 0 <= i < |claims| :: Covers(claims[i], start)
  }

  function Retained(claims: seq<Claim>, cursor: nat): (r: seq<Claim>)
    ensures |r| <= |claims|
  {
    if claims == [] then []
    else if cursor < claims[0].end then [claims[0]] + Retained(claims[1..], cursor)
    else Retained(claims[1..], cursor)
  }

  function Pruned(claims: seq<Claim>, cursor: nat): (r: seq<Claim>)
    ensures |r| <= MAX_CLAIMS
  {
    var kept := Retained(claims, cursor);
    if |kept| > MAX_CLAIMS then kept[|kept| - MAX_CLAIMS..] else kept
  }

  lemma {:induction false} RetainedSnoc(claims: seq<Claim>, c: Claim, cursor: nat)
    ensures Retained(claims + [c], cursor)
         == if cursor < c.end then Retained(claims, cursor) + [c] else Retained(claims, cursor)
  {
    if claims == [] {
      assert claims + [c] == [c];
    } else {
      assert (claims + [c])[1..] == claims[1..] + [c];
      RetainedSnoc(claims[1..], c, cursor);
    }
  }

  /** `prune_claims`: drop the claims the cursor has passed, then bound the list. */
  method PruneClaims(claims: seq<Claim>, cursor: nat) returns (r: seq<Claim>)
    ensures r == Pruned(claims, cursor)
  {
    r := [];
    for i := 0 to |claims|
      invariant r == Retained(claims[..i], cursor)
    {
      assert claims[..i + 1] == claims[..i] + [claims[i]];
      RetainedSnoc(claims[..i], claims[i], cursor);
      if claims[i].end > cursor {
        r := r + [claims[i]];
      }
    }
    assert claims[..|claims|] == claims;
    if |r| > MAX_CLAIMS {
      var drop := |r| - MAX_CLAIMS;
      r := r[drop..];
    }
  }

  // ------------------------------------------------- one chunk's candidates

  /** What `identify_from` accepted and `keep_corrupted` lets through. */
  predicate Accepted(c: Candidate, keepCorrupted: bool) {
    c.outcome.Some? && (keepCorrupted || c.outcome.value.validity.Full?)
  }

  datatype Pass = Pass(emitted: seq<Carved>, claims: seq<Claim>)

  function Consider(p: Pass, c: Candidate, keepCorrupted: bool): Pass {
    if Suppressed(p.claims, c.start) || !Accepted(c, keepCorrupted) then p
    else
      var cf := c.outcome.value;
      var claimed := if cf.validity.Full? && cf.len > 0
                     then p.claims + [Claim(cf.offset, cf.End())] else p.claims;
      Pass(p.emitted + [cf], Pruned(claimed, c.start))
  }

  /** Candidates taken one by one, in order. */
  function Fold(claims: seq<Claim>, cands: seq<Candidate>, keepCorrupted: bool): Pass
    decreases |cands|
  {
    if cands == [] then Pass([], claims)
    else
      var last := |cands| - 1;
      Consider(Fold(claims, cands[..last], keepCorrupted), cands[last], keepCorrupted)
  }

  method ScanCandidates(cands: seq<Candidate>, keepCorrupted: bool, claims0: seq<Claim>)
    returns (emitted: seq<Carved>, claims: seq<Claim>)
    ensures Pass(emitted, claims) == Fold(claims0, cands, keepCorrupted)
  {
    emitted, claims := [], claims0;
    for i := 0 to |cands|
      invariant Pass(emitted, claims) == Fold(claims0, cands[..i], keepCorrupted)
    {
      var c := cands[i];
      assert cands[..i + 1][..i] == cands[..i] && cands[..i + 1][i] == c;
      if Suppressed(claims, c.start) {
        continue;
      }
      if c.outcome.Some? {
        var cf := c.outcome.value;
        if !keepCorrupted && cf.validity != Full {
          continue;
        }
        if cf.validity == Full && cf.len > 0 {
          claims := claims + [Claim(cf.offset, cf.End())];
        }
        claims := PruneClaims(claims, c.start);
        emitted := emitted + [cf];
      }
    }
    assert cands[..|cands|] == cands;
  }

  /** Cutting the candidate list anywhere and carrying the claims over changes nothing. */
  lemma {:induction false} FoldConcat(claims: seq<Claim>, a: seq<Candidate>, b: seq<Candidate>, keep: bool)
    ensures var first := Fold(claims, a, keep);
            var second := Fold(first.claims, b, keep);
            Fold(claims, a + b, keep) == Pass(first.emitted + second.emitted, second.claims)
    decreases |b|
  {
    if b == [] {
      assert a + b == a;
    } else {
      var last := |b| - 1;
      FoldConcat(claims, a, b[..last], keep);
      assert (a + b)[..|a + b| - 1] == a + b[..last];
      assert (a + b)[|a + b| - 1] == b[last];
      var x := Fold(claims, a, keep).emitted;
      ConsiderAfter(x, Fold(Fold(claims, a, keep).claims, b[..last], keep), b[last], keep);
    }
  }

  lemma ConsiderAfter(x: seq<Carved>, p: Pass, c: Candidate, keep: bool)
    ensures Consider(Pass(x + p.emitted, p.claims), c, keep)
         == Pass(x + Consider(p, c, keep).emitted, Consider(p, c, keep).claims)
  {
    if Accepted(c, keep) {
      assert x + (p.emitted + [c.outcome.value]) == x + p.emitted + [c.outcome.value];
    }
  }

  // ------------------------------------------------------- the greedy fold

  predicate Ascending(cands: seq<Candidate>) {
    forall i, j | 0 <= i < j < |cands| :: cands[i].start < cands[j].start
  }

  /** Verdicts that keep the header's start and are not empty. */
  predicate InPlace(cands: seq<Candidate>) {
    forall i | 0 <= i < |cands| && cands[i].outcome.Some? ::
      cands[i].outcome.value.offset == cands[i].start && cands[i].outcome.value.len > 0
  }

  /** Where the last Full result ends, after a greedy pass that began at `horizon`. */
  function Horizon(horizon: nat, cands: seq<Candidate>, keep: bool): (h: nat)
    decreases |cands|
  {
    if cands == [] then horizon
    else
      var c := cands[|cands| - 1];
      var h := Horizon(horizon, cands[..|cands| - 1], keep);
      if h <= c.start && Accepted(c, keep) && c.outcome.value.validity.Full?
      then c.outcome.value.End() else h
  }

  /** The one-pass reading of the doc comment: a candidate counts unless it
      starts before the end of the last Full result. */
  function Greedy(horizon: nat, cands: seq<Candidate>, keep: bool): seq<Carved>
    decreases |cands|
  {
    if cands == [] then []
    else
      var c := cands[|cands| - 1];
      var before := cands[..|cands| - 1];
      if Horizon(horizon, before, keep) <= c.start && Accepted(c, keep)
      then Greedy(horizon, before, keep) + [c.outcome.value] else Greedy(horizon, before, keep)
  }

  function HorizonOf(claims: seq<Claim>): nat { if claims == [] then 0 else claims[0].end }

  /** At most one claim, whose file begins before every candidate still to come. */
  predicate Settled(claims: seq<Claim>, cands: seq<Candidate>) {
    && |claims| <= 1
    && forall i, j | 0 <= i < |claims| && 0 <= j < |cands| :: claims[i].start < cands[j].start
  }

  /** One candidate against at most one claim. */
  lemma ConsiderOne(p: Pass, c: Candidate, keep: bool)
    requires |p.claims| <= 1 && (p.claims != [] ==> p.claims[0].start < c.start)
    requires InPlace([c])
    ensures Suppressed(p.claims, c.start) <==> c.start < HorizonOf(p.claims)
    ensures var q := Consider(p, c, keep);
            if c.start < HorizonOf(p.claims) || !Accepted(c, keep) then q == p
            else q == Pass(p.emitted + [c.outcome.value],
                           if c.outcome.value.validity.Full?
                           then [Claim(c.start, c.outcome.value.End())] else [])
  {
    if p.claims != [] && c.start < p.claims[0].end {
      assert Covers(p.claims[0], c.start);
    } else if Accepted(c, keep) {
      assert [c][0] == c;
      assert Retained(p.claims, c.start) == [];
      RetainedSnoc(p.claims, Claim(c.start, c.outcome.value.End()), c.start);
    }
  }

  /** The claims list is one number in disguise: after any candidates at most
      one claim is left, so the 64-claim cap never drops one, and what is
      emitted is exactly the greedy pass. */
  lemma {:induction false} ClaimsAreGreedy(claims: seq<Claim>, cands: seq<Candidate>, keep: bool)
    requires Ascending(cands) && InPlace(cands) && Settled(claims, cands)
    ensures Fold(claims, cands, keep).emitted == Greedy(HorizonOf(claims), cands, keep)
    ensures |Fold(claims, cands, keep).claims| <= 1
    ensures forall c | c in Fold(claims, cands, keep).claims ::
              c in claims || (cands != [] && c.start <= cands[|cands| - 1].start)
    ensures var h, h' := HorizonOf(Fold(claims, cands, keep).claims), Horizon(HorizonOf(claims), cands, keep);
            h == h' || (h == 0 && cands != [] && h' <= cands[|cands| - 1].start)
    decreases |cands|
  {
    if cands != [] {
      var last := |cands| - 1;
      var c, before := cands[last], cands[..last];
      ClaimsAreGreedy(claims, before, keep);
      var p := Fold(claims, before, keep);
      if p.claims != [] {
        assert p.claims[0] in p.claims;
      }
      assert [c][0] == c;
      ConsiderOne(p, c, keep);
    }
  }

  /** Strictly ascending, and never before the end of an earlier Full result:
      Full results are pairwise disjoint. */
  predicate Disjoint(out: seq<Carved>) {
    forall i, j | 0 <= i < j < |out| ::
      && out[i].offset < out[j].offset
      && (out[i].validity.Full? ==> out[i].End() <= out[j].offset)
  }

  predicate Within(out: seq<Carved>, lo: nat, last: nat, horizon: nat) {
    forall i | 0 <= i < |out| ::
      && lo <= out[i].offset <= last
      && (out[i].validity.Full? ==> out[i].End() <= horizon)
  }

  /** One more result, past the last one and past every Full one. */
  lemma DisjointMore(out: seq<Carved>, r: Carved, lo: nat, last: nat, h: nat)
    requires Disjoint(out) && Within(out, lo, last, h) && lo <= h <= r.offset && (out != [] ==> last < r.offset)
    ensures Disjoint(out + [r])
    ensures Within(out + [r], lo, r.offset, if r.validity.Full? then Max(h, r.End()) else h)
  {
  }

  lemma {:induction false} GreedyDisjoint(horizon: nat, cands: seq<Candidate>, keep: bool)
    requires Ascending(cands) && InPlace(cands)
    ensures Disjoint(Greedy(horizon, cands, keep))
    ensures cands != [] ==>
              Within(Greedy(horizon, cands, keep), horizon, cands[|cands| - 1].start, Horizon(horizon, cands, keep))
    ensures horizon <= Horizon(horizon, cands, keep)
    decreases |cands|
  {
    if cands != [] {
      var last := |cands| - 1;
      var before, c := cands[..last], cands[last];
      GreedyDisjoint(horizon, before, keep);
      assert last > 0 ==> before[last - 1].start < c.start;
      if Horizon(horizon, before, keep) <= c.start && Accepted(c, keep) {
        DisjointMore(Greedy(horizon, before, keep), c.outcome.value, horizon,
                     if last > 0 then before[last - 1].start else 0, Horizon(horizon, before, keep));
      }
    }
  }

  /** Nothing is invented: what is emitted is some accepted candidate's outcome. */
  lemma {:induction false} GreedySound(horizon: nat, cands: seq<Candidate>, keep: bool)
    ensures forall r | r in Greedy(horizon, cands, keep) ::
              exists k :: 0 <= k < |cands| && Accepted(cands[k], keep) && cands[k].outcome.value == r
    decreases |cands|
  {
    if cands != [] {
      var last := |cands| - 1;
      GreedySound(horizon, cands[..last], keep);
      forall r | r in Greedy(horizon, cands, keep)
        ensures exists k :: 0 <= k < |cands| && Accepted(cands[k], keep) && cands[k].outcome.value == r
      {
        if r in Greedy(horizon, cands[..last], keep) {
          var k :| 0 <= k < last && Accepted(cands[..last][k], keep) && cands[..last][k].outcome.value == r;
          assert cands[k] == cands[..last][k];
        } else {
          assert cands[last].outcome.value == r;
        }
      }
    }
  }

  /** Nothing is lost: an accepted candidate that is not emitted starts before
      the horizon or strictly inside an emitted Full result. */
  lemma {:induction false} GreedyMaximal(horizon: nat, cands: seq<Candidate>, keep: bool, k: nat)
    requires Ascending(cands) && InPlace(cands)
    requires k < |cands| && Accepted(cands[k], keep) && horizon <= cands[k].start
    ensures var out := Greedy(horizon, cands, keep);
            || cands[k].outcome.value in out
            || exists i :: 0 <= i < |out| && out[i].validity.Full?
                           && out[i].offset < cands[k].start < out[i].End()
    decreases |cands|
  {
    var last := |cands| - 1;
    var before := Greedy(horizon, cands[..last], keep);
    var out := Greedy(horizon, cands, keep);
    if k < last {
      GreedyMaximal(horizon, cands[..last], keep, k);
      assert cands[..last][k] == cands[k];
      if cands[k].outcome.value !in before {
        var i :| 0 <= i < |before| && before[i].validity.Full?
                 && before[i].offset < cands[k].start < before[i].End();
        assert out[i] == before[i];
      }
    } else if cands[k].start < Horizon(horizon, cands[..last], keep) {
      var i := HorizonHolder(horizon, cands[..last], keep);
      assert out[i] == before[i];
    } else {
      assert out[|out| - 1] == cands[k].outcome.value;
    }
  }

  /** A horizon past the first one is some emitted Full result's end. */
  lemma {:induction false} HorizonHolder(horizon: nat, cands: seq<Candidate>, keep: bool) returns (i: nat)
    requires InPlace(cands) && Ascending(cands)
    requires Horizon(horizon, cands, keep) != horizon
    ensures var out := Greedy(horizon, cands, keep);
            && i < |out| && out[i].validity.Full? && out[i].End() == Horizon(horizon, cands, keep)
            && out[i].offset <= cands[|cands| - 1].start
    decreases |cands|
  {
    var last := |cands| - 1;
    var c, h := cands[last], Horizon(horizon, cands[..last], keep);
    if h <= c.start && Accepted(c, keep) && c.outcome.value.validity.Full? {
      i := |Greedy(horizon, cands, keep)| - 1;
    } else {
      i := HorizonHolder(horizon, cands[..last], keep);
    }
  }

  // ------------------------------------------------ losing the claims list

  /** No acceptable header lies in the part of the last Full result that is
      still ahead. */
  predicate Clean(horizon: nat, cands: seq<Candidate>, keep: bool) {
    forall i | 0 <= i < |cands| && cands[i].start < horizon :: !Accepted(cands[i], keep)
  }

  /** Forgetting a clean horizon changes nothing. */
  lemma {:induction false} CleanSame(horizon: nat, cands: seq<Candidate>, keep: bool)
    requires Clean(horizon, cands, keep) && Ascending(cands) && InPlace(cands)
    ensures Greedy(horizon, cands, keep) == Greedy(0, cands, keep)
    ensures Horizon(horizon, cands, keep) == Horizon(0, cands, keep)
         || (Horizon(horizon, cands, keep) == horizon && Horizon(0, cands, keep) == 0)
    decreases |cands|
  {
    if cands != [] {
      CleanSame(horizon, cands[..|cands| - 1], keep);
    }
  }

  lemma {:induction false} NoneAccepted(horizon: nat, cands: seq<Candidate>, keep: bool)
    requires forall i | 0 <= i < |cands| :: !Accepted(cands[i], keep)
    ensures Greedy(horizon, cands, keep) == [] && Horizon(horizon, cands, keep) == horizon
    decreases |cands|
  {
    if cands != [] {
      NoneAccepted(horizon, cands[..|cands| - 1], keep);
    }
  }

  /** Forgetting a horizon that hides an accepted candidate lets through a
      result the full pass does not have. */
  lemma {:induction false} DirtyDiffers(horizon: nat, cands: seq<Candidate>, keep: bool) returns (r: Carved)
    requires !Clean(horizon, cands, keep) && Ascending(cands) && InPlace(cands)
    ensures r in Greedy(0, cands, keep)
    ensures forall q | q in Greedy(horizon, cands, keep) :: horizon <= q.offset
    ensures r.offset < horizon
    ensures exists k :: 0 <= k < |cands| && cands[k].start == r.offset
    decreases |cands|
  {
    GreedyDisjoint(horizon, cands, keep);
    var last := |cands| - 1;
    if Clean(horizon, cands[..last], keep) {
      r := cands[last].outcome.value;
      assert Horizon(0, cands[..last], keep) == 0 by {
        forall i | 0 <= i < last ensures !Accepted(cands[..last][i], keep) {
          assert cands[..last][i].start < cands[last].start;
        }
        NoneAccepted(0, cands[..last], keep);
      }
    } else {
      r := DirtyDiffers(horizon, cands[..last], keep);
      var k :| 0 <= k < last && cands[..last][k].start == r.offset;
      assert cands[k].start == r.offset;
    }
  }

  // --------------------------------------------------------- the chunk loop

  datatype Message =
    | Found(file: Carved)
    | Progress(cursor: nat, scanned: nat, total: nat, found: nat)

  datatype Outcome = Outcome(cursor: nat, found: nat, interrupted: bool)

  function FoundMessages(files: seq<Carved>): (ms: seq<Message>)
    ensures |ms| == |files|
    ensures forall i | 0 <= i < |ms| :: ms[i] == Found(files[i])
  {
    seq(|files|, i requires 0 <= i < |files| => Found(files[i]))
  }

  /** The results among some messages. */
  function Founds(ms: seq<Message>): seq<Carved> {
    if ms == [] then []
    else if ms[|ms| - 1].Found? then Founds(ms[..|ms| - 1]) + [ms[|ms| - 1].file]
    else Founds(ms[..|ms| - 1])
  }

  lemma {:induction false} FoundsConcat(a: seq<Message>, b: seq<Message>)
    ensures Founds(a + b) == Founds(a) + Founds(b)
    decreases |b|
  {
    if b == [] {
      assert a + b == a;
    } else {
      assert (a + b)[..|a + b| - 1] == a + b[..|b| - 1];
      FoundsConcat(a, b[..|b| - 1]);
    }
  }

  lemma {:induction false} FoundsOfFiles(files: seq<Carved>)
    ensures Founds(FoundMessages(files)) == files
  {
    if files != [] {
      var last := |files| - 1;
      assert FoundMessages(files)[..last] == FoundMessages(files[..last]);
      FoundsOfFiles(files[..last]);
      assert files == files[..last] + [files[last]];
    }
  }

  /** Where the loop stands after `n` chunks. */
  function Position(start: nat, n: nat): nat { start + n * CHUNK }

  /** How many chunks the loop reads from `start`. */
  function Steps(src: Source, start: nat): (n: nat)
    ensures forall k: nat :: Position(start, k) < src.scanEnd <==> k < n
  {
    if start >= src.scanEnd then 0 else (src.scanEnd - start + CHUNK - 1) / CHUNK
  }

  /** What the loop has sent, and the claims it holds, after `n` chunks. */
  datatype Trace = Trace(messages: seq<Message>, claims: seq<Claim>, found: nat)

  function Report(src: Source, pos: nat, found: nat): Message {
    var cursor := Min(pos, src.scanEnd);
    Progress(cursor, Minus(cursor, src.scanStart),
             Minus(src.scanEnd, src.scanStart), found)
  }

  function ChunkPass(src: Source, start: nat, n: nat, claims: seq<Claim>): Pass {
    Fold(claims, src.candidatesAt(Position(start, n)), src.keepCorrupted)
  }

  /** The messages of chunk `n`, sent by a loop that holds `t` before it. */
  function ChunkMessages(src: Source, start: nat, n: nat, t: Trace): seq<Message> {
    var emitted := ChunkPass(src, start, n, t.claims).emitted;
    FoundMessages(emitted) + [Report(src, Position(start, n + 1), t.found + |emitted|)]
  }

  function Run(src: Source, start: nat, n: nat): Trace {
    if n == 0 then Trace([], [], 0)
    else
      var t := Run(src, start, n - 1);
      var pass := ChunkPass(src, start, n - 1, t.claims);
      Trace(t.messages + ChunkMessages(src, start, n - 1, t), pass.claims, t.found + |pass.emitted|)
  }

  function StartOf(src: Source, resumeFrom: nat): nat { Max(resumeFrom, src.scanStart) }

  lemma StepsLeft(src: Source, start: nat, n: nat)
    ensures Position(start, n) < src.scanEnd <==> n < Steps(src, start)
  {
  }

  lemma RunOn(src: Source, start: nat, n: nat, t: Trace)
    requires t == Run(src, start, n)
    ensures Run(src, start, n + 1)
         == Trace(t.messages + ChunkMessages(src, start, n, t), ChunkPass(src, start, n, t.claims).claims,
                  t.found + |ChunkPass(src, start, n, t.claims).emitted|)
  {
  }

  /** `CarveEngine::scan`.  `cancelled(k)` is what the cancel flag reads at the
      head of iteration `k`; `chunks` counts the chunks read. */
  method Scan(src: Source, resumeFrom: nat, cancelled: nat -> bool)
    returns (messages: seq<Message>, outcome: Outcome, chunks: nat)
    ensures var start := StartOf(src, resumeFrom);
            && chunks <= Steps(src, start)
            && (forall k: nat | k < chunks :: !cancelled(k))
            && messages == Run(src, start, chunks).messages
            && outcome.cursor == Min(Position(start, chunks), src.scanEnd)
            && outcome.found == |Founds(messages)|
            && (outcome.interrupted <==> chunks < Steps(src, start))
            && (outcome.interrupted ==> cancelled(chunks))
  {
    var start := Max(resumeFrom, src.scanStart);
    var total := Minus(src.scanEnd, src.scanStart);
    var pos: nat := start;
    var foundCount: nat := 0;
    var claims: seq<Claim> := [];
    var interrupted := false;
    messages, chunks := [], 0;
    while pos < src.scanEnd
      invariant pos == Position(start, chunks) && chunks <= Steps(src, start)
      invariant Trace(messages, claims, foundCount) == Run(src, start, chunks)
      invariant !interrupted && forall k: nat | k < chunks :: !cancelled(k)
      decreases Steps(src, start) - chunks
    {
      if cancelled(chunks) {
        interrupted := true;
        break;
      }
      StepsLeft(src, start, chunks);
      ghost var t := Trace(messages, claims, foundCount);
      var emitted;
      emitted, claims := ScanCandidates(src.candidatesAt(pos), src.keepCorrupted, claims);
      foundCount := foundCount + |emitted|;
      pos := pos + CHUNK;
      var cursor := Min(pos, src.scanEnd);
      var report := Progress(cursor, Minus(cursor, src.scanStart), total, foundCount);
      messages := messages + (FoundMessages(emitted) + [report]);
      RunOn(src, start, chunks, t);
      chunks := chunks + 1;
    }
    StepsLeft(src, start, chunks);
    RunResults(src, start, chunks);
    outcome := Outcome(Min(pos, src.scanEnd), foundCount, interrupted);
  }

  // ---------------------------------------- chunks against one long sequence

  /** The candidates of the first `n` chunks of a loop that begins at `start`. */
  function Candidates(src: Source, start: nat, n: nat): seq<Candidate> {
    if n == 0 then [] else Candidates(src, start, n - 1) + src.candidatesAt(Position(start, n - 1))
  }

  lemma ChunkFounds(src: Source, start: nat, n: nat, t: Trace)
    ensures Founds(ChunkMessages(src, start, n, t)) == ChunkPass(src, start, n, t.claims).emitted
  {
    var files := ChunkPass(src, start, n, t.claims).emitted;
    var report := Report(src, Position(start, n + 1), t.found + |files|);
    FoundsOfFiles(files);
    FoundsConcat(FoundMessages(files), [report]);
    assert Founds([report]) == [];
  }

  /** A loop's reports and claims are those of one pass. */
  predicate Matches(t: Trace, p: Pass) {
    Founds(t.messages) == p.emitted && t.claims == p.claims && t.found == |p.emitted|
  }

  /** One more chunk, on either side. */
  predicate NextOf(t: Trace, p: Pass, pass: Pass, t': Trace, p': Pass) {
    && Founds(t'.messages) == Founds(t.messages) + pass.emitted
    && t'.claims == pass.claims && t'.found == t.found + |pass.emitted|
    && p' == Pass(p.emitted + pass.emitted, pass.claims)
  }

  lemma NextMatches(t: Trace, p: Pass, pass: Pass, t': Trace, p': Pass)
    requires Matches(t, p) && NextOf(t, p, pass, t', p')
    ensures Matches(t', p')
  {
  }

  lemma NextRun(src: Source, start: nat, n: nat, t: Trace)
    requires t == Run(src, start, n)
    ensures Founds(Run(src, start, n + 1).messages) == Founds(t.messages) + ChunkPass(src, start, n, t.claims).emitted
    ensures Run(src, start, n + 1).claims == ChunkPass(src, start, n, t.claims).claims
    ensures Run(src, start, n + 1).found == t.found + |ChunkPass(src, start, n, t.claims).emitted|
  {
    RunOn(src, start, n, t);
    ChunkFounds(src, start, n, t);
    FoundsConcat(t.messages, ChunkMessages(src, start, n, t));
  }

  lemma NextPass(src: Source, start: nat, n: nat, p: Pass)
    requires p == PassOf(src, start, n)
    ensures PassOf(src, start, n + 1)
         == Pass(p.emitted + ChunkPass(src, start, n, p.claims).emitted, ChunkPass(src, start, n, p.claims).claims)
  {
    FoldConcat([], Candidates(src, start, n), src.candidatesAt(Position(start, n)), src.keepCorrupted);
  }

  lemma NextBoth(src: Source, start: nat, n: nat, t: Trace, p: Pass)
    requires t == Run(src, start, n) && p == PassOf(src, start, n) && Matches(t, p)
    ensures NextOf(t, p, ChunkPass(src, start, n, t.claims), Run(src, start, n + 1), PassOf(src, start, n + 1))
  {
    NextRun(src, start, n, t);
    NextPass(src, start, n, p);
  }

  /** One pass over the candidates of the first `n` chunks. */
  function PassOf(src: Source, start: nat, n: nat): Pass { Fold([], Candidates(src, start, n), src.keepCorrupted) }

  predicate MatchesAt(src: Source, start: nat, n: nat) { Matches(Run(src, start, n), PassOf(src, start, n)) }

  lemma {:induction false} RunMatches(src: Source, start: nat, n: nat)
    ensures MatchesAt(src, start, n)
  {
    if n > 0 {
      var t, p := Run(src, start, n - 1), PassOf(src, start, n - 1);
      RunMatches(src, start, n - 1);
      NextBoth(src, start, n - 1, t, p);
      NextMatches(t, p, ChunkPass(src, start, n - 1, t.claims), Run(src, start, n), PassOf(src, start, n));
    }
  }

  /** Carrying the claims from chunk to chunk is one fold over all candidates. */
  lemma RunResults(src: Source, start: nat, n: nat)
    ensures var t, whole := Run(src, start, n), Fold([], Candidates(src, start, n), src.keepCorrupted);
            Founds(t.messages) == whole.emitted && t.claims == whole.claims && t.found == |whole.emitted|
  {
    RunMatches(src, start, n);
  }

  lemma {:induction false} CandidatesSplit(src: Source, start: nat, a: nat, b: nat)
    ensures Candidates(src, start, a + b)
         == Candidates(src, start, a) + Candidates(src, Position(start, a), b)
  {
    if b > 0 {
      CandidatesSplit(src, start, a, b - 1);
    }
  }

  /** What the loop takes as known of the candidates of chunk `k`: a sorted map's
      keys, inside the chunk (the first chunk also takes earlier ones), and
      verdicts that keep the header's start.  `ScanSearch` derives it from the search. */
  predicate ChunkInOrder(src: Source, k: nat) {
    var cands, pos := src.candidatesAt(Position(src.scanStart, k)), Position(src.scanStart, k);
    && Ascending(cands) && InPlace(cands)
    && forall i | 0 <= i < |cands| :: cands[i].start < pos + CHUNK && (k > 0 ==> pos <= cands[i].start)
  }

  ghost predicate InOrder(src: Source) {
    forall k: nat :: ChunkInOrder(src, k)
  }

  predicate Between(cands: seq<Candidate>, lo: nat, hi: nat) {
    forall i | 0 <= i < |cands| :: lo <= cands[i].start < hi
  }

  lemma {:induction false} CandidatesInOrder(src: Source, k: nat, n: nat)
    requires InOrder(src)
    ensures var cs := Candidates(src, Position(src.scanStart, k), n);
            Ascending(cs) && InPlace(cs)
    ensures Between(Candidates(src, Position(src.scanStart, k), n),
                    if k == 0 then 0 else Position(src.scanStart, k), Position(src.scanStart, k + n))
  {
    if n > 0 {
      CandidatesInOrder(src, k, n - 1);
      assert ChunkInOrder(src, k + n - 1);
      var here := Position(src.scanStart, k);
      assert Position(here, n - 1) == Position(src.scanStart, k + n - 1);
      JoinInOrder(Candidates(src, here, n - 1), src.candidatesAt(Position(here, n - 1)), if k == 0 then 0 else here,
                  if k + n - 1 == 0 then 0 else Position(here, n - 1), Position(here, n));
    }
  }

  lemma JoinInOrder(a: seq<Candidate>, b: seq<Candidate>, lo: nat, mid: nat, hi: nat)
    requires Ascending(a) && InPlace(a) && Between(a, lo, mid) && Ascending(b) && InPlace(b) && Between(b, mid, hi)
    requires lo <= mid <= hi
    ensures Ascending(a + b) && InPlace(a + b) && Between(a + b, lo, hi)
  {
  }

  /** All the results of the scan, in one pass over all its candidates. */
  function AllResults(src: Source): seq<Carved> {
    Greedy(0, Candidates(src, src.scanStart, Steps(src, src.scanStart)), src.keepCorrupted)
  }

  /** The results of `n` chunks of a loop that begins at `start` with no claims. */
  function ResultsOf(src: Source, start: nat, n: nat): seq<Carved> {
    Fold([], Candidates(src, start, n), src.keepCorrupted).emitted
  }

  /** The results of chunks `k..`, from a loop that starts there. */
  function ResultsFrom(src: Source, k: nat): seq<Carved>
    requires k <= Steps(src, src.scanStart)
  {
    ResultsOf(src, Position(src.scanStart, k), Steps(src, src.scanStart) - k)
  }

  /** The results of chunks `..k` of a loop that starts at the scan's start. */
  function ResultsUpTo(src: Source, k: nat): seq<Carved> { ResultsOf(src, src.scanStart, k) }

  /** Chunked scanning is one greedy left-to-right pass. */
  lemma ChunkLoopIsGreedy(src: Source)
    requires InOrder(src)
    ensures ResultsFrom(src, 0) == AllResults(src)
    ensures Disjoint(AllResults(src))
  {
    var all := Candidates(src, src.scanStart, Steps(src, src.scanStart));
    CandidatesInOrder(src, 0, Steps(src, src.scanStart));
    ClaimsAreGreedy([], all, src.keepCorrupted);
    GreedyDisjoint(0, all, src.keepCorrupted);
  }

  // ------------------------------------------------ stopping and resuming

  /** The candidates of chunks `k..`. */
  function Rest(src: Source, k: nat): seq<Candidate>
    requires k <= Steps(src, src.scanStart)
  {
    Candidates(src, Position(src.scanStart, k), Steps(src, src.scanStart) - k)
  }

  /** The file that straddles the start of chunk `k`, if any, hides no
      acceptable header from there to its end. */
  predicate CutClean(src: Source, k: nat)
    requires k <= Steps(src, src.scanStart)
  {
    Clean(HorizonOf(Run(src, src.scanStart, k).claims), Rest(src, k), src.keepCorrupted)
  }

  lemma OrderOfParts(before: seq<Candidate>, rest: seq<Candidate>)
    requires Ascending(before + rest) && InPlace(before + rest)
    ensures Ascending(before) && InPlace(before) && Ascending(rest) && InPlace(rest)
    ensures forall i, j | 0 <= i < |before| && 0 <= j < |rest| :: before[i].start < rest[j].start
  {
    var all := before + rest;
    assert forall i | 0 <= i < |before| :: all[i] == before[i];
    assert forall i | 0 <= i < |rest| :: all[|before| + i] == rest[i];
  }

  /** One ascending candidate list cut in two: the claims left by the first
      part are all the second part needs to know. */
  lemma CutList(before: seq<Candidate>, rest: seq<Candidate>, keep: bool)
    requires Ascending(before + rest) && InPlace(before + rest)
    ensures Ascending(rest) && InPlace(rest)
    ensures Fold([], rest, keep).emitted == Greedy(0, rest, keep)
    ensures Fold([], before + rest, keep).emitted
         == Fold([], before, keep).emitted + Greedy(HorizonOf(Fold([], before, keep).claims), rest, keep)
    ensures forall q, i | q in Fold([], before, keep).emitted && 0 <= i < |rest| :: q.offset < rest[i].start
  {
    OrderOfParts(before, rest);
    ClaimsAreGreedy([], before, keep);
    ClaimsAreGreedy([], rest, keep);
    GreedyDisjoint(0, before, keep);
    FoldConcat([], before, rest, keep);
    var claims := Fold([], before, keep).claims;
    forall i, j | 0 <= i < |claims| && 0 <= j < |rest| ensures claims[i].start < rest[j].start {
      assert claims[i] in claims;
      assert before[|before| - 1].start < rest[j].start;
    }
    ClaimsAreGreedy(claims, rest, keep);
  }

  /** The whole scan, cut before chunk `k`. */
  lemma CutScan(src: Source, k: nat)
    requires InOrder(src) && k <= Steps(src, src.scanStart)
    ensures var all := Candidates(src, src.scanStart, k) + Rest(src, k);
            Ascending(all) && InPlace(all) && AllResults(src) == Fold([], all, src.keepCorrupted).emitted
  {
    var n := Steps(src, src.scanStart);
    var all := Candidates(src, Position(src.scanStart, 0), n);
    assert Position(src.scanStart, 0) == src.scanStart;
    assert all == Candidates(src, src.scanStart, k) + Rest(src, k) by {
      CandidatesSplit(src, src.scanStart, k, n - k);
    }
    CandidatesInOrder(src, 0, n);
    ClaimsAreGreedy([], all, src.keepCorrupted);
  }

  /** Stopping before chunk `k` and resuming there, which forgets the claims,
      gives the uninterrupted result list exactly when the cut is clean. */
  lemma CleanCutIff(src: Source, k: nat)
    requires InOrder(src) && k <= Steps(src, src.scanStart)
    ensures CutClean(src, k) <==> ResultsUpTo(src, k) + ResultsFrom(src, k) == AllResults(src)
  {
    var a, x := ResultsUpTo(src, k), ResultsFrom(src, k);
    var h := HorizonOf(Run(src, src.scanStart, k).claims);
    var y := Greedy(h, Rest(src, k), src.keepCorrupted);
    RunResults(src, src.scanStart, k);
    CutScan(src, k);
    CutList(Candidates(src, src.scanStart, k), Rest(src, k), src.keepCorrupted);
    if CutClean(src, k) {
      CleanSame(h, Rest(src, k), src.keepCorrupted);
    } else {
      var r := DirtyDiffers(h, Rest(src, k), src.keepCorrupted);
      assert x == (a + x)[|a|..] && y == (a + y)[|a|..];
    }
  }

  /** A dirty cut lets through a result at an offset where the uninterrupted
      scan has none. */
  lemma DirtyCutAdds(src: Source, k: nat) returns (r: Carved)
    requires InOrder(src) && k <= Steps(src, src.scanStart) && !CutClean(src, k)
    ensures r in ResultsFrom(src, k)
    ensures forall q | q in AllResults(src) :: q.offset != r.offset
  {
    var first, h := CutParts(src, k);
    r := DirtyList(first, AllResults(src), Rest(src, k), h, src.keepCorrupted);
  }

  /** The uninterrupted results and the resumed ones, in parts. */
  lemma CutParts(src: Source, k: nat) returns (first: seq<Carved>, h: nat)
    requires InOrder(src) && k <= Steps(src, src.scanStart)
    ensures CutClean(src, k) <==> Clean(h, Rest(src, k), src.keepCorrupted)
    ensures Ascending(Rest(src, k)) && InPlace(Rest(src, k))
    ensures AllResults(src) == first + Greedy(h, Rest(src, k), src.keepCorrupted)
    ensures ResultsFrom(src, k) == Greedy(0, Rest(src, k), src.keepCorrupted)
    ensures forall q, i | q in first && 0 <= i < |Rest(src, k)| :: q.offset < Rest(src, k)[i].start
  {
    RunResults(src, src.scanStart, k);
    CutScan(src, k);
    CutList(Candidates(src, src.scanStart, k), Rest(src, k), src.keepCorrupted);
    first := Fold([], Candidates(src, src.scanStart, k), src.keepCorrupted).emitted;
    h := HorizonOf(Run(src, src.scanStart, k).claims);
  }

  lemma DirtyList(first: seq<Carved>, all: seq<Carved>, rest: seq<Candidate>, h: nat, keep: bool) returns (r: Carved)
    requires Ascending(rest) && InPlace(rest) && !Clean(h, rest, keep) && all == first + Greedy(h, rest, keep)
    requires forall q, i | q in first && 0 <= i < |rest| :: q.offset < rest[i].start
    ensures r in Greedy(0, rest, keep) && forall q | q in all :: q.offset != r.offset
  {
    r := DirtyDiffers(h, rest, keep);
    var c :| 0 <= c < |rest| && rest[c].start == r.offset;
  }

  /** A cut no claimed file reaches across is clean. */
  lemma UnstraddledCutIsClean(src: Source, k: nat)
    requires InOrder(src) && 0 < k <= Steps(src, src.scanStart)
    requires forall c | c in Run(src, src.scanStart, k).claims :: c.end <= Position(src.scanStart, k)
    ensures CutClean(src, k)
  {
    CandidatesInOrder(src, k, Steps(src, src.scanStart) - k);
    var claims := Run(src, src.scanStart, k).claims;
    assert claims != [] ==> claims[0] in claims;
  }

  /** The doc comment promises an identical result set.  It is not so for a
      Full file at offset 100 that reaches into the second chunk and holds an
      embedded header there: the resumed scan reports the embedded one too. */
  function StraddleExample(): Source {
    Source(2 * CHUNK, 0, 2 * CHUNK, true,
           pos => if pos == 0 then [Candidate(100, Some(Carved(100, CHUNK, Full, 0)))]
                  else if pos == CHUNK then [Candidate(CHUNK + 50, Some(Carved(CHUNK + 50, 10, Full, 1)))]
                  else [])
  }

  lemma ExampleCandidates()
    ensures var src := StraddleExample();
            && InOrder(src) && Steps(src, 0) == 2
            && Candidates(src, 0, 1) == [Candidate(100, Some(Carved(100, CHUNK, Full, 0)))]
            && Candidates(src, CHUNK, 1) == [Candidate(CHUNK + 50, Some(Carved(CHUNK + 50, 10, Full, 1)))]
  {
    var src := StraddleExample();
    forall k: nat ensures ChunkInOrder(src, k) {
      assert Position(0, k) == k * CHUNK;
    }
    assert Position(0, 0) == 0 && Position(CHUNK, 0) == CHUNK;
    assert Candidates(src, 0, 0) == [] && Candidates(src, CHUNK, 0) == [];
  }

  lemma ResumeCanDiffer()
    ensures InOrder(StraddleExample()) && Steps(StraddleExample(), 0) == 2
    ensures !CutClean(StraddleExample(), 1)
    ensures Carved(CHUNK + 50, 10, Full, 1) in ResultsFrom(StraddleExample(), 1)
    ensures Carved(CHUNK + 50, 10, Full, 1) !in AllResults(StraddleExample())
  {
    var src := StraddleExample();
    ExampleCandidates();
    var a, b := Candidates(src, 0, 1), Candidates(src, CHUNK, 1);
    assert Position(0, 1) == CHUNK && Rest(src, 1) == b;
    RunResults(src, 0, 1);
    assert a[..0] == [] && b[..0] == [];
    ConsiderOne(Pass([], []), a[0], true);
    ConsiderOne(Pass([], []), b[0], true);
    assert Fold([], a, true) == Pass([a[0].outcome.value], [Claim(100, 100 + CHUNK)]);
    assert Fold([], b, true).emitted == [b[0].outcome.value];
    assert Accepted(b[0], true) && b[0].start < 100 + CHUNK;
    var r := DirtyCutAdds(src, 1);
  }
}
