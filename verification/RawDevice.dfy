/** The raw device's salvage read (crates/reclaim-block/src/raw_device.rs:160-232):
    the code, against the loop of `Salvage` and the bytes it leaves. */
module RawDevice {
  import opened Arith
  import opened Bytes
  import opened BlockSource
  import opened Salvage

  class Device {
    const m: Medium
    var interrupts: nat
    /** What the device has answered so far. */
    ghost var log: seq<IoResult>

    /** `pread` into `buf[lo..hi]`. */
    method Pread(buf: array<Byte>, lo: nat, hi: nat, offset: nat) returns (r: IoResult)
      requires m.Valid() && lo < hi <= buf.Length
      modifies buf, this
      ensures forall j | 0 <= j < buf.Length && !(lo <= j < hi) :: buf[j] == old(buf[j])
      ensures m.MayReturn(offset, hi - lo, r) && log == old(log) + [r]
      ensures if r.Interrupted? then interrupts < old(interrupts) else interrupts == old(interrupts)
      ensures r.Done? ==> forall q: nat | offset <= q < offset + r.n ::
                m.Healthy(q) && buf[lo + (q - offset)] == m.bytes[q]
    {
      var interrupted: bool := *;
      if interrupts > 0 && interrupted {
        interrupts, log := interrupts - 1, log + [Interrupted];
        return Interrupted;
      }
      var k := 0;
      while k < hi - lo && m.Healthy(offset + k)
        invariant k <= hi - lo && interrupts == old(interrupts) && log == old(log)
        invariant forall j | 0 <= j < buf.Length && !(lo <= j < hi) :: buf[j] == old(buf[j])
        invariant forall q: nat | offset <= q < offset + k :: m.Healthy(q) && buf[lo + (q - offset)] == m.bytes[q]
      {
        buf[lo + k] := m.bytes[offset + k];
        k := k + 1;
      }
      if k == 0 && offset < |m.bytes| {
        assert !m.Healthy(offset);
        log := log + [Failed];
        return Failed;
      }
      if m.wholeSectors {
        if k < hi - lo && offset + hi - lo <= |m.bytes| {
          assert !m.Healthy(offset + k);
          log := log + [Failed];
          return Failed;
        }
        log := log + [Done(k)];
        return Done(k);
      }
      var short :| 0 <= short <= k && (short == 0 ==> k == 0);
      log := log + [Done(short)];
      return Done(short);
    }
  }

  // ------------------------------------------------------------- what the buffer holds

  /** Byte `j` of the buffer is the device's. */
  predicate ByteHeld(d: Medium, offset: nat, buf: seq<Byte>, j: nat)
    requires j < |buf|
  {
    offset + j < |d.bytes| && buf[j] == d.bytes[offset + j]
  }

  predicate Holds(d: Medium, offset: nat, lo: nat, hi: nat, buf: seq<Byte>)
    requires hi <= |buf|
  {
    forall j: nat | lo <= j < hi :: ByteHeld(d, offset, buf, j)
  }

  /** Byte `j` of a settled sector: zero if the sector was given up, else the device's. */
  predicate ByteSettled(d: Medium, offset: nat, bad: set<nat>, buf: seq<Byte>, j: nat)
    requires d.Valid() && j < |buf|
  {
    if j / d.ss in bad then buf[j] == 0 else ByteHeld(d, offset, buf, j)
  }

  predicate SectorsSettled(d: Medium, offset: nat, avail: nat, k: nat, bad: set<nat>, buf: seq<Byte>)
    requires d.Valid() && avail <= |buf|
  {
    forall j: nat | j < avail && j / d.ss < k :: ByteSettled(d, offset, bad, buf, j)
  }

  /** Before single-sector mode a prefix of the device's bytes; in it, whole sectors. */
  predicate Filled(d: Medium, offset: nat, avail: nat, s: Loop, buf: seq<Byte>)
    requires d.Valid() && avail <= |buf|
  {
    s.done <= avail &&
    if s.perSector then SectorsSettled(d, offset, avail, Settled(s, avail, d.ss), s.bad, buf)
    else Holds(d, offset, 0, s.done, buf)
  }

  lemma DivLess(a: nat, b: nat, d: nat)
    requires d > 0 && a / d < b / d
    ensures a < b
  {
    DivBounds(a, d);
    DivBounds(b, d);
    MulMono(a / d + 1, b / d, d);
  }

  /** Dropping to single sectors keeps what was read. */
  lemma LatchFills(d: Medium, offset: nat, avail: nat, s: Loop, buf: seq<Byte>)
    requires d.Valid() && avail <= |buf| && Filled(d, offset, avail, s, buf) && !s.perSector && s.bad == {}
             && s.done < avail
    ensures Filled(d, offset, avail, s.(perSector := true), buf)
  {
    forall j: nat | j < avail && j / d.ss < s.done / d.ss ensures ByteSettled(d, offset, {}, buf, j) {
      DivLess(j, s.done, d.ss);
      assert ByteHeld(d, offset, buf, j);
    }
  }

  lemma NextSettled(s: Loop, avail: nat, ss: nat, r: IoResult)
    requires ss > 0 && s.perSector && Running(s, avail) && !r.Interrupted?
    ensures Settled(After(s, avail, ss, r), avail, ss) == s.done / ss + 1 && After(s, avail, ss, r).done <= avail
  {
    SectorAround(s.done, avail, ss);
  }

  lemma SectorBytes(s: Loop, avail: nat, ss: nat)
    requires ss > 0 && s.perSector && Running(s, avail)
    ensures forall j: nat | j < avail && j / ss == s.done / ss :: Low(s, ss) <= j < High(s, avail, ss)
  {
    SectorAround(s.done, avail, ss);
    SectorRange(s.done / ss, avail, ss);
  }

  /** One more sector: its bytes are the device's, or zero if it is given up. */
  lemma SectorFills(d: Medium, offset: nat, avail: nat, s: Loop, r: IoResult, before: seq<Byte>, buf: seq<Byte>)
    requires d.Valid() && avail <= |before| == |buf| && s.perSector && Running(s, avail) && !r.Interrupted?
    requires Filled(d, offset, avail, s, before) && s.done / d.ss !in s.bad
    requires High(s, avail, d.ss) <= avail
    requires forall j: nat | j < avail && j / d.ss < s.done / d.ss :: buf[j] == before[j]
    requires if Whole(s, avail, d.ss, r) then Holds(d, offset, Low(s, d.ss), High(s, avail, d.ss), buf)
             else forall j: nat | j < avail && j / d.ss == s.done / d.ss :: buf[j] == 0
    ensures Filled(d, offset, avail, After(s, avail, d.ss, r), buf)
  {
    var sec, bad := s.done / d.ss, After(s, avail, d.ss, r).bad;
    NextSettled(s, avail, d.ss, r);
    SectorBytes(s, avail, d.ss);
    forall j: nat | j < avail && j / d.ss < sec + 1 ensures ByteSettled(d, offset, bad, buf, j) {
      if j / d.ss < sec {
        assert ByteSettled(d, offset, s.bad, before, j);
      } else if Whole(s, avail, d.ss, r) {
        assert ByteHeld(d, offset, buf, j);
      }
    }
  }

  lemma ByteInSectors(avail: nat, ss: nat, j: nat)
    requires ss > 0 && j < avail
    ensures j / ss < Sectors(avail, ss)
  {
    DivBounds(j, ss);
    SectorsBounds(avail, ss);
  }

  /** A byte of the request outside the bad sectors lies before the loop's end. */
  lemma ByteBeforeEnd(n: nat, ss: nat, done: nat, j: nat)
    requires ss > 0 && done <= n && j < n && j / ss !in From(done, n, ss)
    ensures j < done
  {
    ByteInSectors(n, ss, j);
    SectorRange(j / ss, n, ss);
  }

  /** The request once the loop has ended. */
  lemma RequestFilled(d: Medium, offset: nat, n: nat, s: Loop, buf: seq<Byte>)
    requires d.Valid() && offset < d.len && n <= |buf|
    requires !Running(s, Available(d, offset, n)) && (s.stopped ==> !s.perSector) && (!s.perSector ==> s.bad == {})
    requires Filled(d, offset, Available(d, offset, n), s, buf)
    requires forall j | Available(d, offset, n) <= j < n :: buf[j] == 0
    ensures forall j: nat | j < n && j / d.ss !in s.bad + From(s.done, n, d.ss) :: ByteHeld(d, offset, buf, j)
    ensures forall j: nat | j < n && j / d.ss in s.bad :: buf[j] == 0
  {
    var avail := Available(d, offset, n);
    forall j: nat | j < n && j / d.ss !in s.bad + From(s.done, n, d.ss) ensures ByteHeld(d, offset, buf, j) {
      ByteBeforeEnd(n, d.ss, s.done, j);
      ByteInSectors(avail, d.ss, j);
      if s.perSector {
        assert ByteSettled(d, offset, s.bad, buf, j);
      }
    }
    forall j: nat | j < n && j / d.ss in s.bad ensures buf[j] == 0 {
      if j < avail {
        ByteInSectors(avail, d.ss, j);
        assert ByteSettled(d, offset, s.bad, buf, j);
      }
    }
  }

  // ---------------------------------------------------------------------------- the code

  /** `RawDevice::read_at`. `answers` is what the device said meanwhile. Good
      sectors hold device bytes, sectors that were given up are zero, and the bad
      ones are those that the answers make the loop give up and those that reach
      past the end: all that cannot be read whole, and others only as
      `Salvage.ExactIffNoShortRead` says. */
  method ReadAt(d: Device, offset: nat, buf: array<Byte>, n: nat)
    returns (res: ReadResult, ghost answers: seq<IoResult>)
    requires d.m.Valid() && n <= buf.Length
    modifies buf, d
    ensures fresh(res) && fresh(res.bad) && fresh(res.unread) && res.Valid()
    ensures res.sectorCount == Sectors(n, d.m.ss) && res.unread.Members() == {}
    ensures d.log == old(d.log) + answers
    ensures offset % d.m.ss != 0 || offset >= d.m.len ==>
              && (forall i: nat :: i in res.bad.Members() <==> i < Sectors(n, d.m.ss))
              && forall j | 0 <= j < n :: buf[j] == 0
    ensures offset % d.m.ss == 0 && offset < d.m.len ==>
              && Execution(d.m, offset, n, answers)
              && res.bad.Members() == Outcome(d.m, offset, n, answers)
              && (forall i: nat | i < Sectors(n, d.m.ss) && !Sound(d.m, offset, n, i) :: i in res.bad.Members())
              && (forall j: nat | j < n && j / d.m.ss !in res.bad.Members() ::
                    offset + j < |d.m.bytes| && buf[j] == d.m.bytes[offset + j])
              && (forall j: nat | j < n && j / d.m.ss in GivenUp(d.m, offset, n, answers) :: buf[j] == 0)
    ensures forall j | n <= j < buf.Length :: buf[j] == old(buf[j])
  {
    answers := [];
    res := new ReadResult(d.m.ss, Sectors(n, d.m.ss));
    Zero(buf, 0, n);
    SectorsBounds(n, d.m.ss);
    if n == 0 {
      assert From(0, 0, d.m.ss) == {};
      return;
    }
    if offset % d.m.ss != 0 || offset >= d.m.len {
      res.MarkAllBad();
      return;
    }
    answers := ReadSalvaging(d, offset, buf, n, res);
    forall i: nat | i < Sectors(n, d.m.ss) && !Sound(d.m, offset, n, i) ensures i in res.bad.Members() {
      UnsoundIsBad(d.m, offset, n, answers, i);
    }
  }

  method ReadSalvaging(d: Device, offset: nat, buf: array<Byte>, n: nat, res: ReadResult)
    returns (ghost answers: seq<IoResult>)
    requires d.m.Valid() && offset % d.m.ss == 0 && offset < d.m.len && n <= buf.Length
    requires res.Valid() && res.sectorCount == Sectors(n, d.m.ss) && res.bad.Members() == {}
    requires forall j | 0 <= j < n :: buf[j] == 0
    modifies buf, d, res.bad
    ensures res.Valid() && res.unread.Members() == old(res.unread.Members())
    ensures d.log == old(d.log) + answers && Execution(d.m, offset, n, answers)
    ensures res.bad.Members() == Outcome(d.m, offset, n, answers)
    ensures forall j: nat | j < n && j / d.m.ss !in res.bad.Members() :: ByteHeld(d.m, offset, buf[..], j)
    ensures forall j: nat | j < n && j / d.m.ss in GivenUp(d.m, offset, n, answers) :: buf[j] == 0
    ensures forall j | n <= j < buf.Length :: buf[j] == old(buf[j])
  {
    var m, ss := d.m, d.m.ss;
    var avail := Available(m, offset, n);
    var done: nat, perSector, stop := 0, false, false;
    answers := [];
    SectorsMono(avail, n, ss);
    while !stop && done < avail
      invariant res.Valid() && res.unread.Members() == old(res.unread.Members())
      invariant d.log == old(d.log) + answers && Permitted(m, offset, avail, answers)
      invariant Play(avail, ss, answers) == Loop(done, perSector, stop, res.bad.Members())
      invariant Filled(m, offset, avail, Play(avail, ss, answers), buf[..])
      invariant forall j | avail <= j < buf.Length :: buf[j] == old(buf[j])
      decreases !stop, avail - done, !perSector, d.interrupts
    {
      PermittedStands(m, offset, avail, answers);
      ghost var r;
      done, perSector, stop, r := Turn(d, offset, buf, n, avail, done, perSector, res);
      PermittedMore(m, offset, avail, answers, r);
      answers := answers + [r];
    }
    PermittedStands(m, offset, avail, answers);
    RequestFilled(m, offset, n, Play(avail, ss, answers), buf[..]);
    MarkBadFromByte(res, ss, n, done);
  }

  /** One turn of the loop: one answer. */
  method Turn(d: Device, offset: nat, buf: array<Byte>, n: nat, avail: nat, done: nat, perSector: bool, res: ReadResult)
    returns (done': nat, perSector': bool, stop: bool, ghost r: IoResult)
    requires d.m.Valid() && offset % d.m.ss == 0 && offset + avail <= d.m.len && done < avail <= n <= buf.Length
    requires res.Valid() && res.sectorCount == Sectors(n, d.m.ss) && Sectors(avail, d.m.ss) <= Sectors(n, d.m.ss)
    requires Standing(d.m, offset, avail, Loop(done, perSector, false, res.bad.Members()))
    requires Filled(d.m, offset, avail, Loop(done, perSector, false, res.bad.Members()), buf[..])
    modifies buf, d, res.bad
    ensures res.Valid() && res.unread.Members() == old(res.unread.Members()) && d.log == old(d.log) + [r]
    ensures var s := Loop(done, perSector, false, old(res.bad.Members()));
            && MayAnswer(d.m, offset, avail, s, r)
            && Loop(done', perSector', stop, res.bad.Members()) == After(s, avail, d.m.ss, r)
            && Filled(d.m, offset, avail, After(s, avail, d.m.ss, r), buf[..])
    ensures if r.Interrupted? then d.interrupts < old(d.interrupts) else d.interrupts == old(d.interrupts)
    ensures !r.Interrupted? && !stop ==> done' > done || (done' == done && perSector' && !perSector)
    ensures forall j | avail <= j < buf.Length :: buf[j] == old(buf[j])
  {
    Asks(Loop(done, perSector, false, res.bad.Members()), avail, d.m.ss);
    if perSector {
      perSector', stop := true, false;
      done', r := ReadSector(d, offset, buf, n, avail, done, res);
    } else {
      done', perSector', stop, r := ReadRest(d, offset, buf, avail, done, res);
    }
  }

  /** The single-sector branch: a whole sector, or one that is given up. */
  method ReadSector(d: Device, offset: nat, buf: array<Byte>, n: nat, avail: nat, done: nat, res: ReadResult)
    returns (done': nat, ghost r: IoResult)
    requires d.m.Valid() && offset % d.m.ss == 0 && done < avail <= n <= buf.Length
    requires res.Valid() && res.sectorCount == Sectors(n, d.m.ss) && Sectors(avail, d.m.ss) <= Sectors(n, d.m.ss)
    requires Standing(d.m, offset, avail, Loop(done, true, false, res.bad.Members()))
    requires Filled(d.m, offset, avail, Loop(done, true, false, res.bad.Members()), buf[..])
    modifies buf, d, res.bad
    ensures res.Valid() && res.unread.Members() == old(res.unread.Members()) && d.log == old(d.log) + [r]
    ensures var s := Loop(done, true, false, old(res.bad.Members()));
            && MayAnswer(d.m, offset, avail, s, r)
            && Loop(done', true, false, res.bad.Members()) == After(s, avail, d.m.ss, r)
            && Filled(d.m, offset, avail, After(s, avail, d.m.ss, r), buf[..])
    ensures if r.Interrupted? then d.interrupts < old(d.interrupts) else d.interrupts == old(d.interrupts)
    ensures !r.Interrupted? ==> done' > done
    ensures forall j | avail <= j < buf.Length :: buf[j] == old(buf[j])
  {
    ghost var s, before := Loop(done, true, false, res.bad.Members()), buf[..];
    var ss, sec := d.m.ss, done / d.m.ss;
    var start, end := sec * ss, SectorEnd(sec, avail, ss);
    SectorAround(done, avail, ss);
    SectorRange(sec, avail, ss);
    var got := TakeSector(d, offset, buf, sec, start, end, res);
    r := got;
    assert forall j: nat | j < avail && j / ss < sec :: buf[j] == before[j];
    if got.Interrupted? {
      done' := done;
      Untouched(d.m, offset, avail, s, before, buf[..]);
    } else {
      done' := end;
      SectorFills(d.m, offset, avail, s, r, before, buf[..]);
    }
  }

  /** The bytes of one sector, or zeros and a mark. */
  method TakeSector(d: Device, offset: nat, buf: array<Byte>, sec: nat, start: nat, end: nat, res: ReadResult)
    returns (r: IoResult)
    requires d.m.Valid() && start < end <= buf.Length && res.Valid() && sec < res.sectorCount
    modifies buf, d, res.bad
    ensures res.Valid() && res.unread.Members() == old(res.unread.Members()) && d.log == old(d.log) + [r]
    ensures d.m.MayReturn(offset + start, end - start, r)
    ensures if r.Interrupted? then d.interrupts < old(d.interrupts) else d.interrupts == old(d.interrupts)
    ensures res.bad.Members()
         == old(res.bad.Members()) + (if r.Interrupted? || r == Done(end - start) then {} else {sec})
    ensures r == Done(end - start) ==> Holds(d.m, offset, start, end, buf[..])
    ensures !r.Interrupted? && r != Done(end - start) ==> forall j | start <= j < end :: buf[j] == 0
    ensures forall j | 0 <= j < buf.Length && !(start <= j < end) :: buf[j] == old(buf[j])
  {
    ghost var bad := res.bad.Members();
    r := d.Pread(buf, start, end, offset + start);
    assert res.bad.Members() == bad;
    if r == Done(end - start) {
      HeldBytes(d.m, offset, start, end, buf[..]);
    } else if !r.Interrupted? {
      res.MarkBad(sec);
      Zero(buf, start, end);
    }
  }

  /** An interrupted read of a sector leaves the settled ones alone. */
  lemma Untouched(d: Medium, offset: nat, avail: nat, s: Loop, before: seq<Byte>, buf: seq<Byte>)
    requires d.Valid() && avail <= |before| == |buf| && s.perSector && Running(s, avail)
    requires Filled(d, offset, avail, s, before)
    requires forall j: nat | j < avail && j / d.ss < s.done / d.ss :: buf[j] == before[j]
    ensures Filled(d, offset, avail, s, buf)
  {
    forall j: nat | j < avail && j / d.ss < Settled(s, avail, d.ss) ensures ByteSettled(d, offset, s.bad, buf, j) {
      assert ByteSettled(d, offset, s.bad, before, j);
    }
  }

  lemma HeldBytes(d: Medium, offset: nat, lo: nat, hi: nat, buf: seq<Byte>)
    requires d.Valid() && lo <= hi <= |buf|
    requires forall q: nat | offset + lo <= q < offset + hi ::
              d.Healthy(q) && buf[lo + (q - (offset + lo))] == d.bytes[q]
    ensures Holds(d, offset, lo, hi, buf)
  {
    forall j: nat | lo <= j < hi ensures ByteHeld(d, offset, buf, j) {
      assert buf[lo + ((offset + j) - (offset + lo))] == buf[j];
      assert d.Healthy(offset + j);
    }
  }

  /** The fast path: read all that is left. */
  method ReadRest(d: Device, offset: nat, buf: array<Byte>, avail: nat, done: nat, res: ReadResult)
    returns (done': nat, perSector': bool, stop: bool, ghost r: IoResult)
    requires d.m.Valid() && done < avail <= buf.Length && res.Valid()
    requires Standing(d.m, offset, avail, Loop(done, false, false, res.bad.Members()))
    requires Filled(d.m, offset, avail, Loop(done, false, false, res.bad.Members()), buf[..])
    modifies buf, d
    ensures d.log == old(d.log) + [r]
    ensures var s := Loop(done, false, false, res.bad.Members());
            && MayAnswer(d.m, offset, avail, s, r)
            && Loop(done', perSector', stop, res.bad.Members()) == After(s, avail, d.m.ss, r)
            && Filled(d.m, offset, avail, After(s, avail, d.m.ss, r), buf[..])
    ensures if r.Interrupted? then d.interrupts < old(d.interrupts) else d.interrupts == old(d.interrupts)
    ensures !r.Interrupted? && !stop ==> done' > done || (done' == done && perSector')
    ensures forall j | avail <= j < buf.Length :: buf[j] == old(buf[j])
  {
    ghost var s, before := Loop(done, false, false, res.bad.Members()), buf[..];
    var got := d.Pread(buf, done, avail, offset + done);
    r := got;
    assert Holds(d.m, offset, 0, done, buf[..]) by {
      forall j: nat | j < done ensures ByteHeld(d.m, offset, buf[..], j) {
        assert ByteHeld(d.m, offset, before, j);
      }
    }
    done', perSector', stop := done, false, false;
    match got {
      case Done(k) =>
        if k == 0 {
          stop := true;
        } else {
          done' := done + k;
          HeldBytes(d.m, offset, done, done', buf[..]);
        }
      case Interrupted =>
      case Failed =>
        perSector' := true;
        LatchFills(d.m, offset, avail, s, buf[..]);
    }
  }
}
