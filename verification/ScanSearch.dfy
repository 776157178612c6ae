/** The search and the chunk loop together: which candidates a chunk hands to
    the loop, and the whole scan as one pass over the one-shot matches
    (crates/reclaim-carve/src/engine.rs:178-250).

    The statistical text pass and the validators are oracles: the first names
    block starts of a chunk, the second judges a file start by the headers
    reported there. */
module ScanSearch {
  import opened Arith
  import opened Wrappers
  import opened CarveEngine
  import Search = AnchorSearch

  type Ref = Search.Ref

  /** `texts(k)`: what the text pass names in chunk `k`. */
  datatype Input = Input(sigs: Search.Catalog, data: seq<Search.Byte>, lo: nat, hi: nat, keep: bool,
                         texts: nat -> set<nat>, verdict: (nat, set<Ref>, bool) -> Option<Carved>)

  ghost predicate Valid(x: Input) {
    && x.lo < x.hi <= |x.data|
    && forall r: Ref | Search.InCatalog(x.sigs, r) :: Search.WellFormed(Search.HeaderOf(x.sigs, r))
  }

  /** What the validators accept begins at the header's file start and is not empty. */
  ghost predicate VerdictsInPlace(x: Input) {
    forall fs: nat, refs: set<Ref>, text: bool | x.verdict(fs, refs, text).Some? ::
      x.verdict(fs, refs, text).value.offset == fs && x.verdict(fs, refs, text).value.len > 0
  }

  function Pos(x: Input, k: nat): nat { Position(x.lo, k) }

  function AllRefs(sigs: Search.Catalog): set<Ref> {
    set i, j | 0 <= i < |sigs| && 0 <= j < |sigs[i]| :: Search.Ref(i, j)
  }

  // ------------------------------------------------------- one chunk's candidates

  /** The headers the chunk reports at a file start, after the loop's filter. */
  function ChunkRefs(x: Input, k: nat, fs: nat): set<Ref>
    requires x.hi <= |x.data|
  {
    set r | r in AllRefs(x.sigs) && Search.KeptIn(x.sigs, x.data, x.lo, x.hi, k, Search.Candidate(r, fs))
  }

  /** The text pass names block starts inside the chunk and the range. */
  predicate TextIn(x: Input, k: nat, fs: nat) { fs in x.texts(k) && Pos(x, k) <= fs < Min(Pos(x, k) + CHUNK, x.hi) }

  /** A file start is a candidate when a header is reported there or text begins. */
  function EntryOf(x: Input, fs: nat, refs: set<Ref>, text: bool): Option<Candidate> {
    if refs == {} && !text then None else Some(Candidate(fs, x.verdict(fs, refs, text)))
  }

  function AddTo(cands: seq<Candidate>, entry: Option<Candidate>): seq<Candidate> {
    if entry.Some? then cands + [entry.value] else cands
  }

  lemma AddToConcat(a: seq<Candidate>, b: seq<Candidate>, entry: Option<Candidate>)
    ensures AddTo(a + b, entry) == a + AddTo(b, entry)
  {
    if entry.Some? {
      assert (a + b) + [entry.value] == a + (b + [entry.value]);
    }
  }

  /** The chunk's map in ascending order, up to file starts below `n`. */
  function ChunkBelow(x: Input, k: nat, n: nat): seq<Candidate>
    requires x.hi <= |x.data|
  {
    if n == 0 then []
    else AddTo(ChunkBelow(x, k, n - 1), EntryOf(x, n - 1, ChunkRefs(x, k, n - 1), TextIn(x, k, n - 1)))
  }

  /** The source that the chunk loop sees. */
  function SourceOf(x: Input): Source
    requires x.hi <= |x.data|
  {
    Source(|x.data|, x.lo, x.hi, x.keep, pos => if pos < x.lo then [] else ChunkBelow(x, (pos - x.lo) / CHUNK, x.hi))
  }

  lemma CandidatesOfChunk(x: Input, k: nat)
    requires x.hi <= |x.data|
    ensures SourceOf(x).candidatesAt(Pos(x, k)) == ChunkBelow(x, k, x.hi)
  {
    assert (Pos(x, k) - x.lo) / CHUNK == k;
  }

  /** Grouping what a buffer reports by file start, as the loop does. */
  method GroupKept(lo: nat, pos: nat, reported: seq<Search.Candidate>) returns (perOffset: map<nat, set<Ref>>)
    ensures forall fs: nat ::
              fs in perOffset <==> Search.Kept(lo, pos, fs) && exists r :: Search.Candidate(r, fs) in reported
    ensures forall fs: nat | fs in perOffset :: forall r :: r in perOffset[fs] <==> Search.Candidate(r, fs) in reported
  {
    perOffset := map[];
    for i := 0 to |reported|
      invariant forall fs: nat ::
                  fs in perOffset <==> Search.Kept(lo, pos, fs) && exists r :: Search.Candidate(r, fs) in reported[..i]
      invariant forall fs: nat | fs in perOffset :: forall r ::
                r in perOffset[fs] <==> Search.Candidate(r, fs) in reported[..i]
    {
      var c := reported[i];
      assert reported[..i + 1] == reported[..i] + [c];
      assert c == Search.Candidate(c.ref, c.fileStart);
      if Search.Kept(lo, pos, c.fileStart) {
        var refs := if c.fileStart in perOffset then perOffset[c.fileStart] else {};
        perOffset := perOffset[c.fileStart := refs + {c.ref}];
      }
    }
    assert reported[..|reported|] == reported;
  }

  /** Searching one chunk's buffer and grouping gives each file start its headers. */
  method ChunkMap(x: Input, k: nat, patterns: seq<seq<Search.Byte>>, refs: seq<seq<Ref>>, hits: seq<Search.Hit>)
    returns (perOffset: map<nat, set<Ref>>)
    requires Valid(x) && Pos(x, k) < x.hi && Search.Indexed(x.sigs, patterns, refs, |x.sigs|, 0)
    requires Search.AllOccurrences(patterns, Search.Window(x.sigs, x.data, x.hi, Pos(x, k)), hits)
    ensures forall fs: nat :: fs in perOffset <==> ChunkRefs(x, k, fs) != {}
    ensures forall fs: nat | fs in perOffset :: perOffset[fs] == ChunkRefs(x, k, fs)
  {
    var pos := Pos(x, k);
    var out := Search.ScanBuffer(x.sigs, patterns, refs, pos, Search.Window(x.sigs, x.data, x.hi, pos), hits);
    perOffset := GroupKept(x.lo, pos, out);
    forall fs: nat, r: Ref
      ensures r in ChunkRefs(x, k, fs) <==> Search.Kept(x.lo, pos, fs) && Search.Candidate(r, fs) in out
    {
      RefListed(x.sigs, r);
    }
  }

  lemma RefListed(sigs: Search.Catalog, r: Ref)
    ensures r in AllRefs(sigs) <==> Search.InCatalog(sigs, r)
  {
    assert r == Search.Ref(r.sig, r.header);
  }

  // --------------------------------------------------------- the one-shot matches

  /** The headers a search of the whole range reports at a file start. */
  function RefsAt(x: Input, fs: nat): set<Ref>
    requires x.lo <= x.hi <= |x.data|
  {
    set r | r in AllRefs(x.sigs) && Search.Reported(Search.HeaderOf(x.sigs, r), x.lo, x.data[x.lo..x.hi], fs)
  }

  function ChunkOf(x: Input, fs: nat): nat { Search.TheChunk(x.lo, fs) }

  /** Every file start below `n` with a report or a text start, in ascending order. */
  function MatchesBelow(x: Input, n: nat): seq<Candidate>
    requires x.lo <= x.hi <= |x.data|
  {
    if n == 0 then []
    else AddTo(MatchesBelow(x, n - 1), EntryOf(x, n - 1, RefsAt(x, n - 1), TextIn(x, ChunkOf(x, n - 1), n - 1)))
  }

  predicate InChunk(x: Input, k: nat, fs: nat) { ChunkOf(x, fs) == k }

  lemma ChunkBounds(x: Input, k: nat, fs: nat)
    ensures Search.Kept(x.lo, Pos(x, k), fs) <==> InChunk(x, k, fs)
    ensures InChunk(x, k, fs) <==> fs < Pos(x, k) + CHUNK && (k > 0 ==> Pos(x, k) <= fs)
  {
  }

  lemma ReportedAlike(x: Input, k: nat, fs: nat, r: Ref)
    requires Valid(x) && Pos(x, k) < x.hi && InChunk(x, k, fs) && Search.InCatalog(x.sigs, r)
    ensures Search.KeptIn(x.sigs, x.data, x.lo, x.hi, k, Search.Candidate(r, fs))
       <==> Search.Reported(Search.HeaderOf(x.sigs, r), x.lo, x.data[x.lo..x.hi], fs)
  {
    ChunkBounds(x, k, fs);
    Search.KeptInIff(x.sigs, x.data, x.lo, x.hi, k, Search.Candidate(r, fs));
  }

  /** A chunk has all reports of its own file starts and no others. */
  lemma ChunkHasItsOwn(x: Input, k: nat, fs: nat)
    requires Valid(x) && Pos(x, k) < x.hi
    ensures ChunkRefs(x, k, fs) == if InChunk(x, k, fs) then RefsAt(x, fs) else {}
    ensures !InChunk(x, k, fs) ==> !TextIn(x, k, fs)
  {
    if InChunk(x, k, fs) {
      forall r: Ref | r in AllRefs(x.sigs) ensures r in ChunkRefs(x, k, fs) <==> r in RefsAt(x, fs) {
        RefListed(x.sigs, r);
        ReportedAlike(x, k, fs, r);
      }
    } else {
      ChunkBounds(x, k, fs);
    }
  }

  lemma {:induction false} NothingBefore(x: Input, k: nat, n: nat)
    requires Valid(x) && Pos(x, k) < x.hi && k > 0 && n <= Pos(x, k)
    ensures ChunkBelow(x, k, n) == []
  {
    if n > 0 {
      NothingBefore(x, k, n - 1);
      ChunkHasItsOwn(x, k, n - 1);
      ChunkBounds(x, k, n - 1);
    }
  }

  lemma {:induction false} NothingAfter(x: Input, k: nat, n: nat)
    requires Valid(x) && Pos(x, k) < x.hi && n >= Pos(x, k) + CHUNK
    ensures ChunkBelow(x, k, n) == ChunkBelow(x, k, Pos(x, k) + CHUNK)
    decreases n
  {
    if n > Pos(x, k) + CHUNK {
      NothingAfter(x, k, n - 1);
      ChunkHasItsOwn(x, k, n - 1);
      ChunkBounds(x, k, n - 1);
    }
  }

  /** Where a chunk's own file starts begin. */
  function FirstOf(x: Input, k: nat): nat { if k == 0 then 0 else Pos(x, k) }

  lemma SameNext(x: Input, k: nat, n: nat, before: seq<Candidate>)
    requires Valid(x) && Pos(x, k) < x.hi && n > 0 && InChunk(x, k, n - 1)
    requires MatchesBelow(x, n - 1) == before + ChunkBelow(x, k, n - 1)
    ensures MatchesBelow(x, n) == before + ChunkBelow(x, k, n)
  {
    ChunkHasItsOwn(x, k, n - 1);
    AddToConcat(before, ChunkBelow(x, k, n - 1), EntryOf(x, n - 1, ChunkRefs(x, k, n - 1), TextIn(x, k, n - 1)));
  }

  lemma SameFirst(x: Input, k: nat)
    requires Valid(x) && Pos(x, k) < x.hi
    ensures ChunkBelow(x, k, FirstOf(x, k)) == []
  {
    if k > 0 {
      NothingBefore(x, k, Pos(x, k));
    }
  }

  /** One chunk's candidates continue those of the chunks before it. */
  lemma {:induction false} ChunkContinues(x: Input, k: nat, n: nat, before: seq<Candidate>)
    requires Valid(x) && Pos(x, k) < x.hi && FirstOf(x, k) <= n <= Pos(x, k) + CHUNK
    requires before == MatchesBelow(x, FirstOf(x, k))
    ensures MatchesBelow(x, n) == before + ChunkBelow(x, k, n)
    decreases n
  {
    if n == FirstOf(x, k) {
      SameFirst(x, k);
    } else {
      ChunkContinues(x, k, n - 1, before);
      ChunkBounds(x, k, n - 1);
      SameNext(x, k, n, before);
    }
  }

  /** Below this every file start has been handed over after `n` chunks. */
  function Reached(x: Input, n: nat): nat { if n == 0 then 0 else Min(Pos(x, n), x.hi) }

  lemma ChunkReaches(x: Input, k: nat)
    requires Valid(x) && Pos(x, k) < x.hi
    ensures ChunkBelow(x, k, x.hi) == ChunkBelow(x, k, Reached(x, k + 1))
    ensures Reached(x, k) == FirstOf(x, k) <= Reached(x, k + 1) <= Pos(x, k) + CHUNK
  {
    if Pos(x, k) + CHUNK < x.hi {
      NothingAfter(x, k, x.hi);
    }
  }

  /** All chunks together hand the loop the matches of the one-shot search. */
  lemma {:induction false} ChunksAreOneShot(x: Input, n: nat)
    requires Valid(x) && n <= Steps(SourceOf(x), x.lo)
    ensures Candidates(SourceOf(x), x.lo, n) == MatchesBelow(x, Reached(x, n))
  {
    if n > 0 {
      var k := n - 1;
      StepsLeft(SourceOf(x), x.lo, k);
      ChunksAreOneShot(x, k);
      CandidatesOfChunk(x, k);
      ChunkReaches(x, k);
      ChunkContinues(x, k, Reached(x, n), MatchesBelow(x, Reached(x, k)));
    }
  }

  /** The text pass counts for the block starts it names in their own chunk. */
  lemma TextIff(x: Input, fs: nat)
    requires Valid(x)
    ensures TextIn(x, ChunkOf(x, fs), fs)
       <==> x.lo <= fs < x.hi && fs in x.texts((fs - x.lo) / 8_388_608)
  {
  }

  /** What is handed over: each file start with a reported header or a text start,
      with the verdict on just that. */
  lemma {:induction false} MatchesIff(x: Input, n: nat, c: Candidate)
    requires Valid(x)
    ensures c in MatchesBelow(x, n)
       <==> (c.start < n
             && c.outcome == x.verdict(c.start, RefsAt(x, c.start), TextIn(x, ChunkOf(x, c.start), c.start))
             && ((exists r :: r in RefsAt(x, c.start))
                 || (x.lo <= c.start < x.hi && c.start in x.texts((c.start - x.lo) / 8_388_608))))
  {
    if n > 0 {
      MatchesIff(x, n - 1, c);
      TextIff(x, n - 1);
      EntryAdded(x, n - 1, RefsAt(x, n - 1), TextIn(x, ChunkOf(x, n - 1), n - 1), MatchesBelow(x, n - 1), c);
    }
  }

  lemma EntryAdded(x: Input, fs: nat, refs: set<Ref>, text: bool, cands: seq<Candidate>, c: Candidate)
    ensures c in AddTo(cands, EntryOf(x, fs, refs, text))
       <==> (c in cands
             || (c.start == fs && c.outcome == x.verdict(fs, refs, text) && ((exists r :: r in refs) || text)))
  {
  }

  // --------------------------------------------------------------- the whole scan

  lemma {:induction false} ChunkOrdered(x: Input, k: nat, n: nat)
    requires Valid(x) && VerdictsInPlace(x)
    ensures Ascending(ChunkBelow(x, k, n)) && InPlace(ChunkBelow(x, k, n)) && Between(ChunkBelow(x, k, n), 0, n)
    ensures forall i | 0 <= i < |ChunkBelow(x, k, n)| :: InChunk(x, k, ChunkBelow(x, k, n)[i].start)
  {
    if n > 0 {
      ChunkOrdered(x, k, n - 1);
      var entry := EntryOf(x, n - 1, ChunkRefs(x, k, n - 1), TextIn(x, k, n - 1));
      OneMoreInOrder(ChunkBelow(x, k, n - 1), entry, n - 1);
      ChunkBounds(x, k, n - 1);
    }
  }

  lemma OneMoreInOrder(cands: seq<Candidate>, entry: Option<Candidate>, at: nat)
    requires Ascending(cands) && InPlace(cands) && Between(cands, 0, at)
    requires entry.Some? ==> entry.value.start == at && InPlace([entry.value])
    ensures Ascending(AddTo(cands, entry)) && InPlace(AddTo(cands, entry)) && Between(AddTo(cands, entry), 0, at + 1)
  {
    if entry.Some? {
      assert [entry.value][0] == entry.value;
    }
  }

  /** What the chunk loop takes as known of its candidates, the search provides. */
  lemma SearchIsInOrder(x: Input)
    requires Valid(x) && VerdictsInPlace(x)
    ensures InOrder(SourceOf(x))
  {
    forall k: nat ensures ChunkInOrder(SourceOf(x), k) {
      CandidatesOfChunk(x, k);
      ChunkOrdered(x, k, x.hi);
      forall i | 0 <= i < |ChunkBelow(x, k, x.hi)|
        ensures ChunkBelow(x, k, x.hi)[i].start < Pos(x, k) + CHUNK
             && (k > 0 ==> Pos(x, k) <= ChunkBelow(x, k, x.hi)[i].start)
      {
        ChunkBounds(x, k, ChunkBelow(x, k, x.hi)[i].start);
      }
    }
  }

  /** The scan's chunks, overlaps, filter and claims list amount to one greedy
      left-to-right pass over the matches of the whole range. */
  lemma ScanIsOneShotGreedy(x: Input)
    requires Valid(x) && VerdictsInPlace(x)
    ensures ResultsFrom(SourceOf(x), 0) == Greedy(0, MatchesBelow(x, x.hi), x.keep)
    ensures Disjoint(ResultsFrom(SourceOf(x), 0))
  {
    var src := SourceOf(x);
    SearchIsInOrder(x);
    ChunkLoopIsGreedy(src);
    StepsLeft(src, x.lo, Steps(src, x.lo));
    StepsLeft(src, x.lo, 0);
    ChunksAreOneShot(x, Steps(src, x.lo));
  }

  /** A file start with a report is among the matches. */
  lemma {:induction false} MatchListed(x: Input, n: nat, fs: nat) returns (i: nat)
    requires Valid(x) && fs < n && RefsAt(x, fs) != {}
    ensures i < |MatchesBelow(x, n)|
    ensures MatchesBelow(x, n)[i] == Candidate(fs, x.verdict(fs, RefsAt(x, fs), TextIn(x, ChunkOf(x, fs), fs)))
  {
    if fs < n - 1 {
      i := MatchListed(x, n - 1, fs);
      MatchesGrow(x, n);
    } else {
      i := |MatchesBelow(x, n)| - 1;
    }
  }

  lemma MatchesGrow(x: Input, n: nat)
    requires Valid(x) && n > 0
    ensures MatchesBelow(x, n - 1) <= MatchesBelow(x, n)
  {
  }

  lemma {:induction false} MatchesOrdered(x: Input, n: nat)
    requires Valid(x) && VerdictsInPlace(x)
    ensures Ascending(MatchesBelow(x, n)) && InPlace(MatchesBelow(x, n)) && Between(MatchesBelow(x, n), 0, n)
  {
    if n > 0 {
      MatchesOrdered(x, n - 1);
      var entry := EntryOf(x, n - 1, RefsAt(x, n - 1), TextIn(x, ChunkOf(x, n - 1), n - 1));
      OneMoreInOrder(MatchesBelow(x, n - 1), entry, n - 1);
    }
  }

  /** From bytes to results: where the bytes of a header's tokens stand in the range
      and the validators accept the file, the scan reports it, or the place lies
      strictly inside a Full file that it reports. */
  lemma NoHeaderIsMissed(x: Input, r: Ref, tokens: seq<Search.Token>, fs: nat)
    requires Valid(x) && VerdictsInPlace(x) && Search.InCatalog(x.sigs, r)
    requires var h := Search.HeaderOf(x.sigs, r);
             && Search.MadeOf(h, tokens) && |h.anchor| >= 2
             && x.lo <= fs + h.offset && fs + h.offset + |tokens| <= x.hi
             && (forall i | 0 <= i < |tokens| && tokens[i].Hex? :: x.data[fs + h.offset + i] == tokens[i].value)
    requires var v := x.verdict(fs, RefsAt(x, fs), TextIn(x, ChunkOf(x, fs), fs));
             v.Some? && (x.keep || v.value.validity == Full)
    ensures var out := ResultsFrom(SourceOf(x), 0);
            || x.verdict(fs, RefsAt(x, fs), TextIn(x, ChunkOf(x, fs), fs)).value in out
            || exists i :: 0 <= i < |out| && out[i].validity.Full? && out[i].offset < fs < out[i].End()
  {
    var h := Search.HeaderOf(x.sigs, r);
    Search.OneShotIsTokens(h, tokens, x.data, x.lo, x.hi, fs);
    RefListed(x.sigs, r);
    assert r in RefsAt(x, fs);
    var i := MatchListed(x, x.hi, fs);
    MatchesOrdered(x, x.hi);
    GreedyMaximal(0, MatchesBelow(x, x.hi), x.keep, i);
    ScanIsOneShotGreedy(x);
  }
}
