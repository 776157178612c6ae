/** The salvage loop of a raw device's read as a function of what `pread`
    answers, and which answers make its bad sectors exact
    (crates/reclaim-block/src/raw_device.rs:160-232).

    The answers are any that the device may give: it may be interrupted, it may
    return a non-empty prefix, it fails only where a byte cannot be read, and it
    never returns a byte of an unreadable sector. The device may also end before
    the length it reports; reads from there on return nothing. */
module Salvage {
  import opened Arith
  import opened Bytes
  import opened BlockSource

  /** A device as a read sees it.  `wholeSectors`: a read inside one sector
      moves all of it or fails. */
  datatype Medium = Medium(bytes: seq<Byte>, len: nat, ss: nat, unreadable: set<nat>, wholeSectors: bool) {
    predicate Valid() { ss > 0 }

    /** Byte `p` can be read. */
    predicate Healthy(p: nat)
      requires Valid()
    {
      p < |bytes| && p / ss !in unreadable
    }

    /** What `pread` of `[offset, offset + n)` may come back with. */
    ghost predicate MayReturn(offset: nat, n: nat, r: IoResult)
      requires Valid() && n > 0
    {
      match r
      case Done(k) =>
        && k <= n && (k == 0 ==> offset >= |bytes|)
        && (forall q: nat | offset <= q < offset + k :: Healthy(q))
        && (wholeSectors && (offset + n - 1) / ss == offset / ss && offset + n <= |bytes| ==> k == n)
      case Interrupted => true
      case Failed => exists q: nat :: offset <= q < offset + n && !Healthy(q)
    }
  }

  /** Sector `i` of a request can be read whole: all its requested bytes are
      inside the device and the device gives them. */
  predicate Sound(d: Medium, offset: nat, n: nat, i: nat)
    requires d.Valid()
  {
    && offset / d.ss + i !in d.unreadable
    && offset + SectorEnd(i, n, d.ss) <= Min(d.len, |d.bytes|)
  }

  predicate AllHealthy(d: Medium, a: nat, b: nat)
    requires d.Valid()
  {
    forall q: nat | a <= q < b :: d.Healthy(q)
  }

  // ------------------------------------------------------------------ the loop

  /** `done` bytes are dealt with; `bad` holds the sectors that were given up. */
  datatype Loop = Loop(done: nat, perSector: bool, stopped: bool, bad: set<nat>)

  const Begin: Loop := Loop(0, false, false, {})

  predicate Running(s: Loop, avail: nat) { !s.stopped && s.done < avail }

  /** What the next `pread` asks for: one sector, or all that is left. */
  function Low(s: Loop, ss: nat): nat
    requires ss > 0
  {
    if s.perSector then s.done / ss * ss else s.done
  }

  function High(s: Loop, avail: nat, ss: nat): nat
    requires ss > 0
  {
    if s.perSector then SectorEnd(s.done / ss, avail, ss) else avail
  }

  /** In single-sector mode only a complete read counts. */
  predicate Whole(s: Loop, avail: nat, ss: nat, r: IoResult)
    requires ss > 0
  {
    r.Done? && Low(s, ss) + r.n == High(s, avail, ss)
  }

  /** One turn of the loop. */
  function After(s: Loop, avail: nat, ss: nat, r: IoResult): Loop
    requires ss > 0
  {
    if r.Interrupted? then s
    else if s.perSector then
      Loop(High(s, avail, ss), true, false, if Whole(s, avail, ss, r) then s.bad else s.bad + {s.done / ss})
    else
      match r
      case Done(k) => if k == 0 then s.(stopped := true) else s.(done := s.done + k)
      case _ => s.(perSector := true)
  }

  function Play(avail: nat, ss: nat, answers: seq<IoResult>): Loop
    requires ss > 0
  {
    if answers == [] then Begin
    else After(Play(avail, ss, answers[..|answers| - 1]), avail, ss, answers[|answers| - 1])
  }

  /** The device may give this answer when the loop is here. */
  ghost predicate MayAnswer(d: Medium, offset: nat, avail: nat, s: Loop, r: IoResult)
    requires d.Valid()
  {
    && Running(s, avail) && Low(s, d.ss) < High(s, avail, d.ss)
    && d.MayReturn(offset + Low(s, d.ss), High(s, avail, d.ss) - Low(s, d.ss), r)
  }

  /** The device may give these answers, one after the other. */
  ghost predicate Permitted(d: Medium, offset: nat, avail: nat, answers: seq<IoResult>)
    requires d.Valid()
    decreases |answers|
  {
    answers == [] ||
      var before := answers[..|answers| - 1];
      Permitted(d, offset, avail, before)
      && MayAnswer(d, offset, avail, Play(avail, d.ss, before), answers[|answers| - 1])
  }

  /** How much of a request the device says it has. */
  function Available(d: Medium, offset: nat, n: nat): nat { Min(n, Minus(d.len, offset)) }

  /** A whole execution of the loop. */
  ghost predicate Execution(d: Medium, offset: nat, n: nat, answers: seq<IoResult>)
    requires d.Valid()
  {
    var avail := Available(d, offset, n);
    Permitted(d, offset, avail, answers) && !Running(Play(avail, d.ss, answers), avail)
  }

  function GivenUp(d: Medium, offset: nat, n: nat, answers: seq<IoResult>): set<nat>
    requires d.Valid()
  {
    Play(Available(d, offset, n), d.ss, answers).bad
  }

  /** The bad sectors of the request: those given up, and all from the byte on
      where the loop ended. */
  function Outcome(d: Medium, offset: nat, n: nat, answers: seq<IoResult>): set<nat>
    requires d.Valid()
  {
    GivenUp(d, offset, n, answers) + From(Play(Available(d, offset, n), d.ss, answers).done, n, d.ss)
  }

  /** The bad sectors are exactly those that cannot be read whole. */
  predicate Exact(d: Medium, offset: nat, n: nat, bad: set<nat>)
    requires d.Valid()
  {
    forall i: nat | i < Sectors(n, d.ss) :: i in bad <==> !Sound(d, offset, n, i)
  }

  // -------------------------------------------------------------- sectors and bytes

  /** The byte at the head of a sector decides for its sector. */
  lemma SectorOf(d: Medium, offset: nat, j: nat)
    requires d.Valid() && offset % d.ss == 0
    ensures (offset + j) / d.ss == offset / d.ss + j / d.ss
  {
    Aligned(offset, d.ss);
    DivShift(offset / d.ss, j, d.ss);
  }

  /** A sector is sound exactly when all its requested bytes are healthy. */
  lemma SoundIsHealthy(d: Medium, offset: nat, n: nat, i: nat)
    requires d.Valid() && offset % d.ss == 0 && i < Sectors(n, d.ss) && offset + n <= d.len
    ensures Sound(d, offset, n, i) <==> AllHealthy(d, offset + i * d.ss, offset + SectorEnd(i, n, d.ss))
    ensures i * d.ss < SectorEnd(i, n, d.ss)
  {
    var lo, hi := i * d.ss, SectorEnd(i, n, d.ss);
    SectorsBounds(n, d.ss);
    Distrib(i, 1, d.ss);
    SectorRange(i, n, d.ss);
    if AllHealthy(d, offset + lo, offset + hi) {
      assert d.Healthy(offset + lo) && d.Healthy(offset + (hi - 1));
      SectorOf(d, offset, lo);
    }
    if Sound(d, offset, n, i) {
      forall q: nat | offset + lo <= q < offset + hi ensures d.Healthy(q) {
        SectorOf(d, offset, q - offset);
      }
    }
  }

  lemma PrefixSector(d: Medium, offset: nat, n: nat, done: nat, i: nat)
    requires d.Valid() && offset % d.ss == 0 && offset + n <= d.len && i < Sectors(n, d.ss)
    requires AllHealthy(d, offset, offset + done) && SectorEnd(i, n, d.ss) <= done
    ensures Sound(d, offset, n, i)
  {
    SoundIsHealthy(d, offset, n, i);
  }

  lemma WholeSectorsBefore(done: nat, n: nat, ss: nat)
    requires ss > 0 && done < n
    ensures done / ss < Sectors(n, ss)
    ensures forall i: nat | i < done / ss :: SectorEnd(i, n, ss) <= done
  {
    DivBounds(done, ss);
    SectorsBounds(n, ss);
    forall i: nat | i < done / ss ensures SectorEnd(i, n, ss) <= done {
      MulMono(i + 1, done / ss, ss);
    }
  }

  /** The span of the sector that holds byte `done`. */
  lemma SectorAround(done: nat, n: nat, ss: nat)
    requires ss > 0 && done < n
    ensures var sec, end := done / ss, SectorEnd(done / ss, n, ss);
            && sec * ss <= done < end <= n && sec < Sectors(n, ss)
            && (end == n ==> sec + 1 == Sectors(n, ss))
            && (end < n ==> end / ss == sec + 1 && end == (sec + 1) * ss)
  {
    var sec := done / ss;
    DivBounds(done, ss);
    Distrib(sec, 1, ss);
    Distrib(sec, 2, ss);
    SectorsBounds(n, ss);
    if sec * ss + ss < n {
      DivUnique(sec * ss + ss, ss, sec + 1);
    } else {
      assert !(sec + 1 < Sectors(n, ss));
    }
  }

  lemma SectorsMono(a: nat, b: nat, ss: nat)
    requires ss > 0 && a <= b
    ensures Sectors(a, ss) <= Sectors(b, ss)
  {
    SectorsBounds(a, ss);
    SectorsBounds(b, ss);
    if Sectors(a, ss) > 0 {
      assert Sectors(a, ss) - 1 < Sectors(b, ss);
    }
  }

  lemma SameSectorEnds(offset: nat, lo: nat, hi: nat, i: nat, ss: nat)
    requires ss > 0 && offset % ss == 0 && lo / ss == i && (hi - 1) / ss == i && lo < hi
    ensures (offset + lo) / ss == offset / ss + i && (offset + hi - 1) / ss == offset / ss + i
  {
    Aligned(offset, ss);
    DivShift(offset / ss, lo, ss);
    DivShift(offset / ss, hi - 1, ss);
  }

  // --------------------------------------------------------- what every answer keeps

  /** Sectors settled so far. */
  function Settled(s: Loop, avail: nat, ss: nat): nat
    requires ss > 0
  {
    if s.done < avail then s.done / ss else Sectors(avail, ss)
  }

  /** Before single-sector mode a healthy prefix; in it, every settled sector is
      sound or given up. */
  ghost predicate Standing(d: Medium, offset: nat, avail: nat, s: Loop)
    requires d.Valid()
  {
    && s.done <= avail
    && (!s.perSector ==> s.bad == {} && AllHealthy(d, offset, offset + s.done))
    && (s.stopped ==> !s.perSector && offset + s.done >= |d.bytes|)
    && (s.perSector ==>
         && (forall i: nat | i in s.bad :: i < Settled(s, avail, d.ss))
         && (forall i: nat | i < Settled(s, avail, d.ss) && i !in s.bad :: Sound(d, offset, avail, i)))
  }

  lemma Asks(s: Loop, avail: nat, ss: nat)
    requires ss > 0 && Running(s, avail)
    ensures Low(s, ss) < High(s, avail, ss) <= avail && Low(s, ss) <= s.done
  {
    SectorAround(s.done, avail, ss);
  }

  lemma FastKeeps(d: Medium, offset: nat, avail: nat, s: Loop, r: IoResult)
    requires d.Valid() && offset % d.ss == 0 && offset + avail <= d.len
    requires Standing(d, offset, avail, s) && MayAnswer(d, offset, avail, s, r) && !s.perSector
    ensures Standing(d, offset, avail, After(s, avail, d.ss, r))
  {
    if r.Failed? {
      WholeSectorsBefore(s.done, avail, d.ss);
      forall i: nat | i < s.done / d.ss ensures Sound(d, offset, avail, i) {
        PrefixSector(d, offset, avail, s.done, i);
      }
    }
  }

  lemma SlowKeeps(d: Medium, offset: nat, avail: nat, s: Loop, r: IoResult)
    requires d.Valid() && offset % d.ss == 0 && offset + avail <= d.len
    requires Standing(d, offset, avail, s) && MayAnswer(d, offset, avail, s, r) && s.perSector
    ensures Standing(d, offset, avail, After(s, avail, d.ss, r))
  {
    SectorAround(s.done, avail, d.ss);
    if Whole(s, avail, d.ss, r) {
      SoundIsHealthy(d, offset, avail, s.done / d.ss);
    }
  }

  lemma {:induction false} PermittedStands(d: Medium, offset: nat, avail: nat, answers: seq<IoResult>)
    requires d.Valid() && offset % d.ss == 0 && offset + avail <= d.len && Permitted(d, offset, avail, answers)
    ensures Standing(d, offset, avail, Play(avail, d.ss, answers))
    decreases |answers|
  {
    if answers != [] {
      var before, r := answers[..|answers| - 1], answers[|answers| - 1];
      var s := Play(avail, d.ss, before);
      PermittedStands(d, offset, avail, before);
      if s.perSector {
        SlowKeeps(d, offset, avail, s, r);
      } else {
        FastKeeps(d, offset, avail, s, r);
      }
    }
  }

  // -------------------------------------------------------- the end of a request

  /** What reaches past the end of the loop is unsound, and what does not is
      settled. */
  lemma TailIsUnsound(d: Medium, offset: nat, n: nat, s: Loop, i: nat)
    requires d.Valid() && offset % d.ss == 0 && offset < d.len
    requires Standing(d, offset, Available(d, offset, n), s) && !Running(s, Available(d, offset, n))
    requires i < Sectors(n, d.ss)
    ensures i in From(s.done, n, d.ss) ==> !Sound(d, offset, n, i)
    ensures i !in From(s.done, n, d.ss) && i !in s.bad ==> Sound(d, offset, n, i)
  {
    var avail, ss := Available(d, offset, n), d.ss;
    SectorsBounds(n, ss);
    SectorsBounds(avail, ss);
    Distrib(i, 1, ss);
    if i !in From(s.done, n, ss) && !s.perSector {
      PrefixSector(d, offset, avail, s.done, i);
    }
  }

  /** A sector that is sound in the request is so in its available part. */
  lemma SoundIsAvailable(d: Medium, offset: nat, n: nat, i: nat)
    requires d.Valid() && offset < d.len && Sound(d, offset, n, i) && i < Sectors(n, d.ss)
    ensures i < Sectors(Available(d, offset, n), d.ss) && Sound(d, offset, Available(d, offset, n), i)
    ensures SectorEnd(i, Available(d, offset, n), d.ss) == SectorEnd(i, n, d.ss)
  {
    SectorsBounds(n, d.ss);
    SectorsBounds(Available(d, offset, n), d.ss);
    Distrib(i, 1, d.ss);
  }

  /** Nothing unsound passes for good, whatever the answers. */
  lemma UnsoundIsBad(d: Medium, offset: nat, n: nat, answers: seq<IoResult>, i: nat)
    requires d.Valid() && offset % d.ss == 0 && offset < d.len && Execution(d, offset, n, answers)
    requires i < Sectors(n, d.ss) && !Sound(d, offset, n, i)
    ensures i in Outcome(d, offset, n, answers)
  {
    PermittedStands(d, offset, Available(d, offset, n), answers);
    TailIsUnsound(d, offset, n, Play(Available(d, offset, n), d.ss, answers), i);
  }

  // ----------------------------------------------------- which executions are exact

  /** A sector of the request that is sound. */
  predicate Good(d: Medium, offset: nat, n: nat, i: nat)
    requires d.Valid()
  {
    i < Sectors(n, d.ss) && Sound(d, offset, n, i)
  }

  /** The answer makes the loop give up a sector that is sound. */
  predicate LosesSector(d: Medium, offset: nat, n: nat, s: Loop, r: IoResult)
    requires d.Valid()
  {
    && s.perSector && !r.Interrupted? && !Whole(s, Available(d, offset, n), d.ss, r)
    && Good(d, offset, n, s.done / d.ss)
  }

  /** That is a short answer to a read of a single sector, and nothing else. */
  lemma OnlyShortReadsLose(d: Medium, offset: nat, n: nat, s: Loop, r: IoResult)
    requires d.Valid() && offset % d.ss == 0 && offset < d.len
    requires MayAnswer(d, offset, Available(d, offset, n), s, r)
    ensures LosesSector(d, offset, n, s, r)
       <==> (s.perSector && Good(d, offset, n, s.done / d.ss)
             && r.Done? && 0 < r.n < High(s, Available(d, offset, n), d.ss) - Low(s, d.ss))
  {
    var avail, sec := Available(d, offset, n), s.done / d.ss;
    if s.perSector && Good(d, offset, n, sec) {
      SectorAround(s.done, avail, d.ss);
      SoundIsAvailable(d, offset, n, sec);
      SoundIsHealthy(d, offset, avail, sec);
      assert d.Healthy(offset + Low(s, d.ss));
    }
  }

  /** None of the answers is short for a sound sector. */
  predicate NoneLost(d: Medium, offset: nat, n: nat, answers: seq<IoResult>)
    requires d.Valid()
  {
    forall t | 0 <= t < |answers| ::
      !LosesSector(d, offset, n, Play(Available(d, offset, n), d.ss, answers[..t]), answers[t])
  }

  /** No sector that was given up is sound. */
  ghost predicate Justified(d: Medium, offset: nat, n: nat, bad: set<nat>)
    requires d.Valid()
  {
    forall i: nat | i in bad :: !Good(d, offset, n, i)
  }

  lemma NoneLostMore(d: Medium, offset: nat, n: nat, answers: seq<IoResult>)
    requires d.Valid() && answers != []
    ensures var before := answers[..|answers| - 1];
            NoneLost(d, offset, n, answers) <==>
              NoneLost(d, offset, n, before)
              && !LosesSector(d, offset, n, Play(Available(d, offset, n), d.ss, before), answers[|answers| - 1])
  {
    var before := answers[..|answers| - 1];
    assert forall t | 0 <= t < |before| :: before[..t] == answers[..t] && before[t] == answers[t];
  }

  lemma {:induction false} JustifiedIffNoneLost(d: Medium, offset: nat, n: nat, answers: seq<IoResult>)
    requires d.Valid()
    ensures Justified(d, offset, n, GivenUp(d, offset, n, answers)) <==> NoneLost(d, offset, n, answers)
    decreases |answers|
  {
    if answers != [] {
      JustifiedIffNoneLost(d, offset, n, answers[..|answers| - 1]);
      NoneLostMore(d, offset, n, answers);
    }
  }

  /** An execution's bad sectors are exact if and only if no read of a single
      sound sector came back short. */
  lemma ExactIffNoShortRead(d: Medium, offset: nat, n: nat, answers: seq<IoResult>)
    requires d.Valid() && offset % d.ss == 0 && offset < d.len && Execution(d, offset, n, answers)
    ensures Exact(d, offset, n, Outcome(d, offset, n, answers)) <==> NoneLost(d, offset, n, answers)
  {
    var s := Play(Available(d, offset, n), d.ss, answers);
    PermittedStands(d, offset, Available(d, offset, n), answers);
    JustifiedIffNoneLost(d, offset, n, answers);
    forall i: nat | i < Sectors(n, d.ss)
      ensures (i in Outcome(d, offset, n, answers) <==> !Sound(d, offset, n, i))
         <==> !(i in s.bad && Good(d, offset, n, i))
    {
      TailIsUnsound(d, offset, n, s, i);
    }
  }

  // ------------------------------------------------------- when every execution is

  /** A condition on device and request: single-sector reads are all or nothing,
      or all that is asked for is healthy, or no sound sector of the request has
      more than one byte in it. */
  ghost predicate NeverShort(d: Medium, offset: nat, n: nat)
    requires d.Valid()
  {
    || d.wholeSectors
    || AllHealthy(d, offset, offset + Available(d, offset, n))
    || forall i: nat | Good(d, offset, n, i) :: SectorEnd(i, n, d.ss) < i * d.ss + 2
  }

  /** While all is healthy the loop never drops to single sectors. */
  lemma {:induction false} HealthyStaysFast(d: Medium, offset: nat, avail: nat, answers: seq<IoResult>)
    requires d.Valid() && offset % d.ss == 0 && offset + avail <= d.len && Permitted(d, offset, avail, answers)
    requires AllHealthy(d, offset, offset + avail)
    ensures !Play(avail, d.ss, answers).perSector
    decreases |answers|
  {
    if answers != [] {
      var before := answers[..|answers| - 1];
      HealthyStaysFast(d, offset, avail, before);
      PermittedStands(d, offset, avail, before);
    }
  }

  /** A read inside a sound sector that is all or nothing is not short. */
  lemma WholeSectorIsNotShort(d: Medium, offset: nat, avail: nat, s: Loop, r: IoResult)
    requires d.Valid() && offset % d.ss == 0 && offset + avail <= d.len && d.wholeSectors && s.perSector
    requires MayAnswer(d, offset, avail, s, r) && r.Done? && Sound(d, offset, avail, s.done / d.ss)
    ensures Whole(s, avail, d.ss, r)
  {
    var sec := s.done / d.ss;
    SectorAround(s.done, avail, d.ss);
    SectorRange(sec, avail, d.ss);
    SameSectorEnds(offset, Low(s, d.ss), High(s, avail, d.ss), sec, d.ss);
  }

  lemma TinySector(d: Medium, offset: nat, n: nat, s: Loop)
    requires d.Valid() && offset < d.len && s.perSector && Good(d, offset, n, s.done / d.ss)
    requires SectorEnd(s.done / d.ss, n, d.ss) < s.done / d.ss * d.ss + 2
    ensures High(s, Available(d, offset, n), d.ss) < Low(s, d.ss) + 2
  {
    SoundIsAvailable(d, offset, n, s.done / d.ss);
  }

  lemma NeverShortNeverLoses(d: Medium, offset: nat, n: nat, s: Loop, r: IoResult)
    requires d.Valid() && offset % d.ss == 0 && offset < d.len && NeverShort(d, offset, n)
    requires AllHealthy(d, offset, offset + Available(d, offset, n)) ==> !s.perSector
    requires MayAnswer(d, offset, Available(d, offset, n), s, r)
    ensures !LosesSector(d, offset, n, s, r)
  {
    OnlyShortReadsLose(d, offset, n, s, r);
    if LosesSector(d, offset, n, s, r) {
      if d.wholeSectors {
        SoundIsAvailable(d, offset, n, s.done / d.ss);
        WholeSectorIsNotShort(d, offset, Available(d, offset, n), s, r);
      } else {
        TinySector(d, offset, n, s);
      }
    }
  }

  lemma {:induction false} NeverShortLosesNone(d: Medium, offset: nat, n: nat, answers: seq<IoResult>)
    requires d.Valid() && offset % d.ss == 0 && offset < d.len && NeverShort(d, offset, n)
    requires Permitted(d, offset, Available(d, offset, n), answers)
    ensures NoneLost(d, offset, n, answers)
    decreases |answers|
  {
    if answers != [] {
      var avail := Available(d, offset, n);
      var before, r := answers[..|answers| - 1], answers[|answers| - 1];
      NeverShortLosesNone(d, offset, n, before);
      if AllHealthy(d, offset, offset + avail) {
        HealthyStaysFast(d, offset, avail, before);
      }
      NeverShortNeverLoses(d, offset, n, Play(avail, d.ss, before), r);
      NoneLostMore(d, offset, n, answers);
    }
  }

  // -------------------------------------------- an execution that loses a given sector

  /** The loop is at the head of sector `k`, sector by sector. */
  predicate AtSector(s: Loop, avail: nat, ss: nat, k: nat) {
    s.perSector && !s.stopped && k * ss < avail && s.done == k * ss
  }

  lemma PermittedMore(d: Medium, offset: nat, avail: nat, answers: seq<IoResult>, r: IoResult)
    requires d.Valid() && Permitted(d, offset, avail, answers)
    requires MayAnswer(d, offset, avail, Play(avail, d.ss, answers), r)
    ensures Permitted(d, offset, avail, answers + [r])
    ensures Play(avail, d.ss, answers + [r]) == After(Play(avail, d.ss, answers), avail, d.ss, r)
  {
    assert (answers + [r])[..|answers|] == answers;
  }

  lemma AtSectorAsks(s: Loop, avail: nat, ss: nat, k: nat)
    requires ss > 0 && AtSector(s, avail, ss, k)
    ensures s.done / ss == k && Low(s, ss) == k * ss < High(s, avail, ss) == SectorEnd(k, avail, ss)
    ensures k < Sectors(avail, ss) && High(s, avail, ss) <= avail
    ensures High(s, avail, ss) < avail ==> High(s, avail, ss) == (k + 1) * ss
  {
    Quotient(k * ss, ss, k);
    SectorAround(s.done, avail, ss);
  }

  /** Any sector can be answered for so that the loop goes on to the next. */
  lemma SomeAnswer(d: Medium, offset: nat, avail: nat, s: Loop, k: nat) returns (r: IoResult)
    requires d.Valid() && AtSector(s, avail, d.ss, k)
    ensures MayAnswer(d, offset, avail, s, r) && !r.Interrupted?
  {
    AtSectorAsks(s, avail, d.ss, k);
    var lo, hi := offset + Low(s, d.ss), offset + High(s, avail, d.ss);
    if AllHealthy(d, lo, hi) {
      r := Done(hi - lo);
      assert d.Healthy(lo);
    } else {
      var q: nat :| lo <= q < hi && !d.Healthy(q);
      r := Failed;
    }
  }

  /** From where something is unhealthy the loop can come to any sector. */
  lemma {:induction false} Reach(d: Medium, offset: nat, avail: nat, k: nat) returns (answers: seq<IoResult>)
    requires d.Valid() && !AllHealthy(d, offset, offset + avail) && k * d.ss < avail
    ensures Permitted(d, offset, avail, answers) && AtSector(Play(avail, d.ss, answers), avail, d.ss, k)
    decreases k
  {
    if k == 0 {
      var q: nat :| offset <= q < offset + avail && !d.Healthy(q);
      PermittedMore(d, offset, avail, [], Failed);
      answers := [] + [Failed];
    } else {
      MulMono(k - 1, k, d.ss);
      Distrib(k - 1, 1, d.ss);
      var before := Reach(d, offset, avail, k - 1);
      var s := Play(avail, d.ss, before);
      AtSectorAsks(s, avail, d.ss, k - 1);
      var r := SomeAnswer(d, offset, avail, s, k - 1);
      PermittedMore(d, offset, avail, before, r);
      answers := before + [r];
    }
  }

  /** And from there to the end, giving nothing back. */
  lemma {:induction false} RunOut(d: Medium, offset: nat, avail: nat, answers: seq<IoResult>, k: nat)
    returns (all: seq<IoResult>)
    requires d.Valid() && Permitted(d, offset, avail, answers)
    requires var s := Play(avail, d.ss, answers);
             s.done <= avail && (s.done < avail ==> AtSector(s, avail, d.ss, k))
    ensures Permitted(d, offset, avail, all) && !Running(Play(avail, d.ss, all), avail)
    ensures Play(avail, d.ss, answers).bad <= Play(avail, d.ss, all).bad
    decreases avail - Play(avail, d.ss, answers).done
  {
    var s := Play(avail, d.ss, answers);
    all := answers;
    if s.done < avail {
      AtSectorAsks(s, avail, d.ss, k);
      var r := SomeAnswer(d, offset, avail, s, k);
      PermittedMore(d, offset, avail, answers, r);
      all := RunOut(d, offset, avail, answers + [r], k + 1);
    }
  }

  /** A sound sector of two bytes or more can be lost, if something is unhealthy
      and single-sector reads may be short. */
  lemma LosingExecution(d: Medium, offset: nat, n: nat, i: nat) returns (answers: seq<IoResult>)
    requires d.Valid() && offset % d.ss == 0 && offset < d.len && !d.wholeSectors
    requires !AllHealthy(d, offset, offset + Available(d, offset, n))
    requires Good(d, offset, n, i) && SectorEnd(i, n, d.ss) >= i * d.ss + 2
    ensures Execution(d, offset, n, answers) && i in GivenUp(d, offset, n, answers)
  {
    var avail := Available(d, offset, n);
    SoundIsAvailable(d, offset, n, i);
    SoundIsHealthy(d, offset, avail, i);
    SectorsBounds(avail, d.ss);
    var before := Reach(d, offset, avail, i);
    var s := Play(avail, d.ss, before);
    AtSectorAsks(s, avail, d.ss, i);
    assert d.Healthy(offset + Low(s, d.ss));
    PermittedMore(d, offset, avail, before, Done(1));
    answers := RunOut(d, offset, avail, before + [Done(1)], i + 1);
  }

  /** The failed promise with its exact condition: the bad sectors of a request
      are exact in every execution if and only if single-sector reads are all or
      nothing, or all that is asked for is healthy, or no sound sector of the
      request has more than one byte in it. */
  lemma AlwaysExactIff(d: Medium, offset: nat, n: nat)
    requires d.Valid() && offset % d.ss == 0 && offset < d.len
    ensures (forall answers | Execution(d, offset, n, answers) :: Exact(d, offset, n, Outcome(d, offset, n, answers)))
       <==> NeverShort(d, offset, n)
  {
    if NeverShort(d, offset, n) {
      forall answers | Execution(d, offset, n, answers) ensures Exact(d, offset, n, Outcome(d, offset, n, answers)) {
        NeverShortLosesNone(d, offset, n, answers);
        ExactIffNoShortRead(d, offset, n, answers);
      }
    } else {
      var i: nat :| Good(d, offset, n, i) && SectorEnd(i, n, d.ss) >= i * d.ss + 2;
      var answers := LosingExecution(d, offset, n, i);
      assert !Exact(d, offset, n, Outcome(d, offset, n, answers));
    }
  }

  /** Four bytes in two sectors, the first unreadable. After the failed read of
      all, and of the first sector, one byte of the second comes back: the second,
      which is sound, is given up as well. */
  lemma ShortReadLosesASector()
    ensures var d, answers := Medium([1, 2, 3, 4], 4, 2, {0}, false), [Failed, Failed, Done(1)];
            && Execution(d, 0, 4, answers) && Outcome(d, 0, 4, answers) == {0, 1}
            && Sound(d, 0, 4, 1) && !Sound(d, 0, 4, 0)
  {
    var d := Medium([1, 2, 3, 4], 4, 2, {0}, false);
    assert !d.Healthy(0) && d.Healthy(2);
    PermittedMore(d, 0, 4, [], Failed);
    assert Play(4, 2, [Failed]) == Loop(0, true, false, {}) by {
      assert [Failed][..0] == [];
    }
    PermittedMore(d, 0, 4, [Failed], Failed);
    assert [Failed] + [Failed] == [Failed, Failed];
    assert Play(4, 2, [Failed, Failed]) == Loop(2, true, false, {0});
    PermittedMore(d, 0, 4, [Failed, Failed], Done(1));
    assert [Failed, Failed] + [Done(1)] == [Failed, Failed, Done(1)];
    assert From(4, 4, 2) == {};
  }
}
