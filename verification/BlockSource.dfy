/** Read-only block sources: the per-sector read result, image files, the fault
    injector and the offset view (crates/reclaim-block/src/bitset.rs,
    source.rs, image_file.rs, fault.rs and offset_view.rs).

    Every source denotes a `Media`: its bytes and its bad sectors.  Reading is
    specified once, by `BytesRead` and `BadRead`, and every source is proved to
    read its own media. */
module BlockSource {
  import opened Arith
  import opened Bits
  import opened Bytes

  // ------------------------------------------------------------ sector numbers

  /** Sectors in a request of `n` bytes. */
  function Sectors(n: nat, ss: nat): nat
    requires ss > 0
  {
    (n + ss - 1) / ss
  }

  lemma SectorsBounds(n: nat, ss: nat)
    requires ss > 0
    ensures Sectors(n, ss) * ss >= n
    ensures n > 0 ==> (Sectors(n, ss) - 1) * ss < n
    ensures n == 0 ==> Sectors(n, ss) == 0
    ensures forall i: nat :: i < Sectors(n, ss) <==> i * ss < n
  {
    DivBounds(n + ss - 1, ss);
    var c := Sectors(n, ss);
    assert (c + 1) * ss == c * ss + ss;
    assert (c - 1) * ss == c * ss - ss;
    if n == 0 {
      DivUnique(ss - 1, ss, 0);
    }
    forall i: nat ensures i < c <==> i * ss < n {
      if i < c {
        MulMono(i, c - 1, ss);
      } else {
        MulMono(c, i, ss);
      }
    }
  }

  /** Where sector `i` of a request of `n` bytes ends. */
  function SectorEnd(i: nat, n: nat, ss: nat): nat { Min((i + 1) * ss, n) }

  // -------------------------------------------------------------------- media

  datatype Media = Media(bytes: seq<Byte>, ss: nat, bad: set<nat>)

  predicate Readable(m: Media, offset: nat)
    requires m.ss > 0
  {
    offset % m.ss == 0 && offset < |m.bytes|
  }

  /** What byte `j` of a request reads as: bad and missing bytes are zero. */
  function ByteAt(m: Media, offset: nat, j: nat): Byte
    requires m.ss > 0
  {
    if Readable(m, offset) && offset + j < |m.bytes| && (offset + j) / m.ss !in m.bad
    then m.bytes[offset + j] else 0
  }

  function BytesRead(m: Media, offset: nat, n: nat): (r: seq<Byte>)
    requires m.ss > 0
    ensures |r| == n
  {
    seq(n, j requires 0 <= j < n => ByteAt(m, offset, j))
  }

  predicate IsBad(m: Media, offset: nat, n: nat, i: nat)
    requires m.ss > 0
  {
    !Readable(m, offset) || offset / m.ss + i in m.bad || offset + SectorEnd(i, n, m.ss) > |m.bytes|
  }

  /** The sectors of a request that are reported bad. */
  function BadRead(m: Media, offset: nat, n: nat): set<nat>
    requires m.ss > 0
  {
    set i: nat | i < Sectors(n, m.ss) && IsBad(m, offset, n, i)
  }

  // ------------------------------------------------------------------ bitsets

  /** A fixed-length bitset packed into 64-bit words. */
  class Bitset {
    const bits: nat
    var words: seq<nat>

    predicate Raw(i: nat)
      reads this
    {
      i / 64 < |words| && GetBit(words[i / 64], i % 64)
    }

    ghost predicate Valid()
      reads this
    {
      && |words| == (bits + 63) / 64
      && (forall k | 0 <= k < |words| :: Fits(words[k], 64))
      && (forall i: nat | Raw(i) :: i < bits)
    }

    ghost function Members(): set<nat>
      reads this
    {
      set i: nat | i < bits && Raw(i)
    }

    constructor (bits: nat)
      ensures this.bits == bits && Valid() && Members() == {}
    {
      this.bits := bits;
      words := seq((bits + 63) / 64, i => 0);
      new;
      ZeroFits(64);
      forall i: nat ensures !Raw(i) {
        ZeroHasNoBits(i % 64);
      }
    }

    method Set(i: nat)
      requires Valid()
      modifies this
      ensures Valid() && Members() == if i < bits then old(Members()) + {i} else old(Members())
    {
      if i >= bits {
        return;
      }
      BitsFit(words[i / 64], i % 64, 64);
      words := words[i / 64 := SetBit(words[i / 64], i % 64)];
      forall j: nat ensures Raw(j) <==> j == i || old(Raw(j)) {
        if j / 64 == i / 64 {
          SetBitGet(old(words)[i / 64], i % 64, j % 64);
        }
      }
    }

    method Get(i: nat) returns (r: bool)
      requires Valid()
      ensures r <==> i in Members()
    {
      if i >= bits {
        return false;
      }
      r := GetBit(words[i / 64], i % 64);
    }

    method Any() returns (r: bool)
      requires Valid()
      ensures r <==> Members() != {}
    {
      for k := 0 to |words|
        invariant forall j | 0 <= j < k :: words[j] == 0
      {
        if words[k] != 0 {
          ghost var b := NonZeroHasABit(words[k], 64);
          assert (64 * k + b) / 64 == k && (64 * k + b) % 64 == b;
          assert Raw(64 * k + b);
          assert 64 * k + b in Members();
          return true;
        }
      }
      forall i: nat ensures !Raw(i) {
        ZeroHasNoBits(i % 64);
      }
      return false;
    }
  }

  // -------------------------------------------------------------- read results

  datatype SectorStatus = Good | Bad | Unread

  class ReadResult {
    const sectorSize: nat
    const sectorCount: nat
    const bad: Bitset
    const unread: Bitset

    ghost predicate Valid()
      reads this, bad, unread
    {
      && bad != unread
      && bad.bits == sectorCount && bad.Valid()
      && unread.bits == sectorCount && unread.Valid()
    }

    /** `ReadResult::good`. */
    constructor (sectorSize: nat, sectorCount: nat)
      ensures Valid() && fresh(bad) && fresh(unread)
      ensures this.sectorSize == sectorSize && this.sectorCount == sectorCount
      ensures bad.Members() == {} && unread.Members() == {}
    {
      this.sectorSize, this.sectorCount := sectorSize, sectorCount;
      bad := new Bitset(sectorCount);
      unread := new Bitset(sectorCount);
    }

    method MarkBad(i: nat)
      requires Valid()
      modifies bad
      ensures Valid()
      ensures bad.Members() == if i < sectorCount then old(bad.Members()) + {i} else old(bad.Members())
    {
      bad.Set(i);
    }

    /** Bad takes precedence over Unread. */
    method Status(i: nat) returns (s: SectorStatus)
      requires Valid()
      ensures s == if i in bad.Members() then Bad else if i in unread.Members() then Unread else Good
    {
      var b := bad.Get(i);
      if b {
        return Bad;
      }
      var u := unread.Get(i);
      s := if u then Unread else Good;
    }

    method MarkAllBad()
      requires Valid()
      modifies bad
      ensures Valid() && forall i: nat :: i in bad.Members() <==> i < sectorCount
    {
      for i := 0 to sectorCount
        invariant Valid() && forall j: nat :: j in bad.Members() <==> j < i || j in old(bad.Members())
      {
        MarkBad(i);
      }
    }
  }

  /** The sectors with a byte at or after `start`. */
  function From(start: nat, n: nat, ss: nat): set<nat>
    requires ss > 0
  {
    set i: nat | i < Sectors(n, ss) && start < n && SectorEnd(i, n, ss) > start
  }

  method MarkBadFromByte(res: ReadResult, ss: nat, n: nat, start: nat)
    requires ss > 0 && res.Valid() && res.sectorCount == Sectors(n, ss)
    modifies res.bad
    ensures res.Valid() && res.bad.Members() == old(res.bad.Members()) + From(start, n, ss)
  {
    ghost var marked := From(start, n, ss);
    if start >= n {
      return;
    }
    for i := 0 to res.sectorCount
      invariant res.Valid()
      invariant forall j: nat :: j in res.bad.Members() <==> j in old(res.bad.Members()) || (j < i && j in marked)
    {
      var sectorEnd := SectorEnd(i, n, ss);
      if sectorEnd > start {
        res.MarkBad(i);
      }
    }
  }

  // ------------------------------------------------------------- a file handle

  datatype IoResult = Done(n: nat) | Interrupted | Failed

  /** An open file: its bytes, and its length when it was opened.  A read may be
      interrupted a finite number of times, may come back short and may fail;
      past the end of the bytes nothing is read. */
  class FileHandle {
    const bytes: seq<Byte>
    const len: nat
    const reliable: bool
    var interrupts: nat

    method ReadAt(buf: array<Byte>, lo: nat, hi: nat, offset: nat) returns (r: IoResult)
      requires lo < hi <= buf.Length
      modifies buf, this
      ensures forall j | 0 <= j < buf.Length && !(lo <= j < hi) :: buf[j] == old(buf[j])
      ensures match r
              case Done(n) => n <= hi - lo && interrupts == old(interrupts) && (n == 0 <==> offset >= |bytes|)
                              && (n == 0 || offset + n <= |bytes|) && Got(buf[..], lo, n, offset)
                              && forall j | lo + n <= j < hi :: buf[j] == old(buf[j])
              case Interrupted => interrupts < old(interrupts) && buf[..] == old(buf[..])
              case Failed => !reliable && buf[..] == old(buf[..])
    {
      var interrupted: bool, failed: bool := *, *;
      if interrupts > 0 && interrupted {
        interrupts := interrupts - 1;
        return Interrupted;
      }
      if failed && !reliable {
        return Failed;
      }
      if offset >= |bytes| {
        return Done(0);
      }
      var n: nat :| 0 < n <= hi - lo && offset + n <= |bytes|;
      for j := 0 to n
        invariant interrupts == old(interrupts)
        invariant forall i | 0 <= i < buf.Length && !(lo <= i < lo + n) :: buf[i] == old(buf[i])
        invariant Got(buf[..], lo, j, offset)
      {
        buf[lo + j] := bytes[offset + j];
      }
      return Done(n);
    }

    /** The buffer holds `n` of the file's bytes at `lo`. */
    ghost predicate Got(buf: seq<Byte>, lo: nat, n: nat, offset: nat)
      requires lo + n <= |buf|
    {
      n > 0 ==> offset + n <= |bytes| && forall p | lo <= p < lo + n :: buf[p] == bytes[offset + p - lo]
    }
  }

  // ------------------------------------------------------------- image files

  /** No read fails, and the file still has the length it was opened with. */
  predicate SoundFile(file: FileHandle) {
    file.reliable && |file.bytes| == file.len
  }

  /** Past the end of the media exactly the sectors from `avail` on are bad. */
  lemma TailIsBad(m: Media, offset: nat, n: nat, avail: nat)
    requires m.ss > 0 && Readable(m, offset) && avail == Min(n, |m.bytes| - offset) && m.bad == {}
    ensures BadRead(m, offset, n) == From(avail, n, m.ss)
  {
    forall i: nat | i < Sectors(n, m.ss)
      ensures i in From(avail, n, m.ss) <==> offset + SectorEnd(i, n, m.ss) > |m.bytes|
    {
    }
  }

  lemma AllFromZero(n: nat, ss: nat)
    requires ss > 0
    ensures forall i: nat :: i in From(0, n, ss) <==> i < Sectors(n, ss)
  {
    SectorsBounds(n, ss);
    forall i: nat | i < Sectors(n, ss) ensures SectorEnd(i, n, ss) > 0 {
      Distrib(i, 1, ss);
    }
  }

  /** `read_file_at`.  The first `good` bytes are the file's, the rest are zero,
      and the sectors with a byte of the rest are bad. */
  method ReadFileAt(file: FileHandle, ss: nat, offset: nat, buf: array<Byte>, n: nat)
    returns (res: ReadResult, ghost good: nat)
    requires ss > 0 && n <= buf.Length
    modifies buf, file
    ensures fresh(res) && fresh(res.bad) && fresh(res.unread) && res.Valid() && res.sectorCount == Sectors(n, ss)
    ensures buf[n..] == old(buf[n..]) && res.unread.Members() == {}
    ensures good <= n && (good > 0 ==> offset % ss == 0 && offset + good <= Min(file.len, |file.bytes|))
    ensures file.Got(buf[..], 0, good, offset) && forall j | good <= j < n :: buf[j] == 0
    ensures res.bad.Members() == From(good, n, ss)
    ensures file.reliable && offset % ss == 0 ==> good == Min(n, Minus(Min(file.len, |file.bytes|), offset))
    ensures SoundFile(file) ==> buf[..n] == BytesRead(Media(file.bytes, ss, {}), offset, n)
    ensures SoundFile(file) ==> res.bad.Members() == BadRead(Media(file.bytes, ss, {}), offset, n)
  {
    var sectorCount := Sectors(n, ss);
    res := new ReadResult(ss, sectorCount);
    good := 0;
    Zero(buf, 0, n);
    SectorsBounds(n, ss);
    AllFromZero(n, ss);
    if n == 0 {
      return;
    }
    if offset % ss != 0 {
      res.MarkAllBad();
      return;
    }
    if offset >= file.len {
      res.MarkAllBad();
      return;
    }
    var avail := Min(n, file.len - offset);
    var done := Fill(file, buf, n, offset, avail);
    MarkBadFromByte(res, ss, n, done);
    good := done;
    if SoundFile(file) {
      TailIsBad(Media(file.bytes, ss, {}), offset, n, avail);
    }
  }

  /** Reads up to `avail` bytes; stops at a failure and at the end of the file. */
  method Fill(file: FileHandle, buf: array<Byte>, n: nat, offset: nat, avail: nat) returns (done: nat)
    requires avail <= n <= buf.Length && forall j | 0 <= j < n :: buf[j] == 0
    modifies buf, file
    ensures done <= avail && file.Got(buf[..], 0, done, offset)
    ensures forall j | done <= j < n :: buf[j] == 0
    ensures buf[n..] == old(buf[n..])
    ensures file.reliable ==> done == avail || offset + done >= |file.bytes|
  {
    done := 0;
    while done < avail
      invariant 0 <= done <= avail && file.Got(buf[..], 0, done, offset)
      invariant forall j | done <= j < n :: buf[j] == 0
      invariant buf[n..] == old(buf[n..])
      modifies buf, file
      decreases avail - done, file.interrupts
    {
      var r := file.ReadAt(buf, done, avail, offset + done);
      match r {
        case Done(k) =>
          if k == 0 {
            break;
          }
          done := done + k;
        case Interrupted =>
        case Failed => break;
      }
    }
  }

  method Zero(buf: array<Byte>, lo: nat, hi: nat)
    requires lo <= hi <= buf.Length
    modifies buf
    ensures forall j | 0 <= j < buf.Length :: buf[j] == if lo <= j < hi then 0 else old(buf[j])
  {
    for i := lo to hi
      invariant forall j | 0 <= j < buf.Length :: buf[j] == if lo <= j < i then 0 else old(buf[j])
    {
      buf[i] := 0;
    }
  }

  // ------------------------------------------------------------ stacked sources

  /** A source over one readable image file: injected faults and windows, in any order. */
  datatype Src =
    | Image(file: FileHandle, sectorSize: nat)
    | Fault(inner: Src, lbas: set<nat>)
    | View(inner: Src, start: nat, len: nat)

  function Handle(src: Src): FileHandle {
    match src
    case Image(file, _) => file
    case Fault(inner, _) => Handle(inner)
    case View(inner, _, _) => Handle(inner)
  }

  function SectorSize(src: Src): nat {
    match src
    case Image(_, ss) => ss
    case Fault(inner, _) => SectorSize(inner)
    case View(inner, _, _) => SectorSize(inner)
  }

  function Len(src: Src): nat {
    match src
    case Image(file, _) => file.len
    case Fault(inner, _) => Len(inner)
    case View(_, _, len) => len
  }

  /** What `OffsetView::new` accepts. */
  predicate WindowFits(inner: Src, start: nat, len: nat)
    requires SectorSize(inner) > 0
  {
    start % SectorSize(inner) == 0 && start + len <= Len(inner)
  }

  predicate ValidSrc(src: Src)
    ensures ValidSrc(src) ==> SectorSize(src) > 0
  {
    match src
    case Image(file, ss) => ss > 0 && SoundFile(file)
    case Fault(inner, _) => ValidSrc(inner)
    case View(inner, start, len) => ValidSrc(inner) && WindowFits(inner, start, len)
  }

  function WindowOf(m: Media, start: nat, len: nat): Media
    requires m.ss > 0 && start + len <= |m.bytes|
  {
    Media(m.bytes[start..start + len], m.ss, set b | b in m.bad && b >= start / m.ss :: b - start / m.ss)
  }

  function Denote(src: Src): (m: Media)
    requires ValidSrc(src)
    ensures m.ss == SectorSize(src) && m.ss > 0 && |m.bytes| == Len(src)
  {
    match src
    case Image(file, ss) => Media(file.bytes, ss, {})
    case Fault(inner, lbas) => var m := Denote(inner); m.(bad := m.bad + lbas)
    case View(inner, start, len) => WindowOf(Denote(inner), start, len)
  }

  /** The bytes of one sector of a request. */
  lemma SectorRange(i: nat, n: nat, ss: nat)
    requires ss > 0 && i < Sectors(n, ss)
    ensures i * ss <= SectorEnd(i, n, ss)
    ensures forall j: nat | j < n :: i * ss <= j < SectorEnd(i, n, ss) <==> j / ss == i
  {
    SectorsBounds(n, ss);
    Distrib(i, 1, ss);
    forall j: nat | j < n ensures i * ss <= j < SectorEnd(i, n, ss) <==> j / ss == i {
      DivBounds(j, ss);
      if i * ss <= j < (i + 1) * ss {
        DivUnique(j, ss, i);
      }
    }
  }

  /** Injected faults zero their sectors and nothing else. */
  lemma FaultAt(m: Media, lbas: set<nat>, offset: nat, j: nat)
    requires m.ss > 0 && offset % m.ss == 0
    ensures ByteAt(m.(bad := m.bad + lbas), offset, j)
         == if offset / m.ss + j / m.ss in lbas then 0 else ByteAt(m, offset, j)
  {
    Aligned(offset, m.ss);
    DivShift(offset / m.ss, j, m.ss);
  }

  /** Reading a window is reading its parent, inside the window. */
  lemma WindowByte(m: Media, start: nat, len: nat, offset: nat, j: nat)
    requires m.ss > 0 && start % m.ss == 0 && start + len <= |m.bytes|
    requires offset % m.ss == 0 && offset + j < len
    ensures ByteAt(WindowOf(m, start, len), offset, j) == ByteAt(m, start + offset, j)
  {
    Aligned(start, m.ss);
    DivShift(start / m.ss, offset + j, m.ss);
    AlignedSum(start, offset, m.ss);
    var b := (offset + j) / m.ss;
    assert b in WindowOf(m, start, len).bad <==> b + start / m.ss in m.bad;
  }

  lemma WindowBad(m: Media, start: nat, len: nat, offset: nat, n: nat, avail: nat, i: nat)
    requires m.ss > 0 && start % m.ss == 0 && start + len <= |m.bytes|
    requires offset % m.ss == 0 && offset < len && avail == Min(n, len - offset) && i < Sectors(n, m.ss)
    ensures i < Sectors(avail, m.ss) || i in From(avail, n, m.ss)
    ensures IsBad(WindowOf(m, start, len), offset, n, i)
         <==> (i < Sectors(avail, m.ss) && IsBad(m, start + offset, avail, i)) || i in From(avail, n, m.ss)
  {
    AlignedSum(start, offset, m.ss);
    SectorsBounds(n, m.ss);
    SectorsBounds(avail, m.ss);
    var b := offset / m.ss + i;
    assert b in WindowOf(m, start, len).bad <==> b + start / m.ss in m.bad;
    Distrib(i, 1, m.ss);
  }

  /** Every source reads exactly what it denotes. */
  method ReadAt(src: Src, offset: nat, buf: array<Byte>, n: nat) returns (res: ReadResult)
    requires ValidSrc(src) && n <= buf.Length
    modifies buf, Handle(src)
    ensures fresh(res) && fresh(res.bad) && fresh(res.unread) && res.Valid()
    ensures res.sectorCount == Sectors(n, SectorSize(src))
    ensures buf[..n] == BytesRead(Denote(src), offset, n) && buf[n..] == old(buf[n..])
    ensures res.bad.Members() == BadRead(Denote(src), offset, n) && res.unread.Members() == {}
    decreases src
  {
    match src {
      case Image(file, ss) =>
        ghost var good: nat;
        res, good := ReadFileAt(file, ss, offset, buf, n);
      case Fault(inner, lbas) => res := ReadFaulty(inner, lbas, offset, buf, n);
      case View(inner, start, len) => res := ReadWindow(inner, start, len, offset, buf, n);
    }
  }

  /** `FaultInjector::read_at`. */
  method ReadFaulty(inner: Src, lbas: set<nat>, offset: nat, buf: array<Byte>, n: nat) returns (res: ReadResult)
    requires ValidSrc(inner) && n <= buf.Length
    modifies buf, Handle(inner)
    ensures fresh(res) && fresh(res.bad) && fresh(res.unread) && res.Valid()
    ensures res.sectorCount == Sectors(n, SectorSize(inner))
    ensures buf[..n] == BytesRead(Denote(Fault(inner, lbas)), offset, n) && buf[n..] == old(buf[n..])
    ensures res.bad.Members() == BadRead(Denote(Fault(inner, lbas)), offset, n) && res.unread.Members() == {}
    decreases Fault(inner, lbas), 0
  {
    var ss := SectorSize(inner);
    res := ReadAt(inner, offset, buf, n);
    if offset % ss != 0 {
      return;
    }
    ghost var m := Denote(inner);
    ghost var was, wasBad := buf[..], res.bad.Members();
    InjectFaults(lbas, offset / ss, ss, buf, n, res);
    FaultyRead(m, lbas, offset, n, was, wasBad, buf[..], res.bad.Members());
  }

  /** A read with faults injected is a read of the faulty medium. */
  lemma FaultyRead(m: Media, lbas: set<nat>, offset: nat, n: nat, was: seq<Byte>, wasBad: set<nat>, now: seq<Byte>,
                   bad: set<nat>)
    requires m.ss > 0 && offset % m.ss == 0 && n <= |was| == |now|
    requires was[..n] == BytesRead(m, offset, n) && wasBad == BadRead(m, offset, n)
    requires forall j: nat | j < n ::
               now[j] == if j / m.ss < Sectors(n, m.ss) && offset / m.ss + j / m.ss in lbas then 0 else was[j]
    requires forall k: nat :: k in bad <==> k in wasBad || (k < Sectors(n, m.ss) && offset / m.ss + k in lbas)
    ensures now[..n] == BytesRead(m.(bad := m.bad + lbas), offset, n)
    ensures bad == BadRead(m.(bad := m.bad + lbas), offset, n)
  {
    FaultyBytes(m, lbas, offset, n, was);
    SectorOfByte(n, m.ss);
  }

  lemma FaultyBytes(m: Media, lbas: set<nat>, offset: nat, n: nat, was: seq<Byte>)
    requires m.ss > 0 && offset % m.ss == 0 && n <= |was| && was[..n] == BytesRead(m, offset, n)
    ensures forall j: nat | j < n ::
              ByteAt(m.(bad := m.bad + lbas), offset, j) == if offset / m.ss + j / m.ss in lbas then 0 else was[j]
  {
    forall j: nat | j < n
      ensures ByteAt(m.(bad := m.bad + lbas), offset, j) == if offset / m.ss + j / m.ss in lbas then 0 else was[j]
    {
      FaultAt(m, lbas, offset, j);
      assert was[j] == was[..n][j];
    }
  }

  lemma SectorOfByte(n: nat, ss: nat)
    requires ss > 0
    ensures forall j: nat | j < n :: j / ss < Sectors(n, ss)
  {
    forall j: nat | j < n ensures j / ss < Sectors(n, ss) {
      DivBounds(j, ss);
      SectorsBounds(n, ss);
    }
  }

  method InjectFaults(lbas: set<nat>, firstLba: nat, ss: nat, buf: array<Byte>, n: nat, res: ReadResult)
    requires ss > 0 && n <= buf.Length && res.Valid() && res.sectorCount == Sectors(n, ss)
    modifies buf, res.bad
    ensures res.Valid()
    ensures forall k: nat :: k in res.bad.Members() <==>
              k in old(res.bad.Members()) || (k < res.sectorCount && firstLba + k in lbas)
    ensures forall j: nat | j < n ::
              buf[j] == if j / ss < res.sectorCount && firstLba + j / ss in lbas then 0 else old(buf[j])
    ensures buf[n..] == old(buf[n..])
  {
    for i := 0 to res.sectorCount
      invariant res.Valid()
      invariant forall k: nat :: k in res.bad.Members() <==>
                  k in old(res.bad.Members()) || (k < i && firstLba + k in lbas)
      invariant forall j: nat | j < n :: buf[j] == if j / ss < i && firstLba + j / ss in lbas then 0 else old(buf[j])
      invariant forall j | n <= j < buf.Length :: buf[j] == old(buf[j])
    {
      FailIfListed(lbas, firstLba, i, ss, buf, n, res);
    }
  }

  method FailIfListed(lbas: set<nat>, firstLba: nat, i: nat, ss: nat, buf: array<Byte>, n: nat, res: ReadResult)
    requires ss > 0 && n <= buf.Length && res.Valid() && res.sectorCount == Sectors(n, ss) && i < res.sectorCount
    modifies buf, res.bad
    ensures res.Valid()
    ensures forall k: nat :: k in res.bad.Members() <==> k in old(res.bad.Members()) || (k == i && firstLba + i in lbas)
    ensures forall j: nat | j < n :: buf[j] == if j / ss == i && firstLba + i in lbas then 0 else old(buf[j])
    ensures forall j | n <= j < buf.Length :: buf[j] == old(buf[j])
  {
    if firstLba + i in lbas {
      FailSector(i, ss, buf, n, res);
    }
  }

  /** One sector becomes bad and zero. */
  method FailSector(i: nat, ss: nat, buf: array<Byte>, n: nat, res: ReadResult)
    requires ss > 0 && n <= buf.Length && res.Valid() && res.sectorCount == Sectors(n, ss) && i < res.sectorCount
    modifies buf, res.bad
    ensures res.Valid() && res.bad.Members() == old(res.bad.Members()) + {i}
    ensures forall j: nat | j < n :: buf[j] == if j / ss == i then 0 else old(buf[j])
    ensures forall j | n <= j < buf.Length :: buf[j] == old(buf[j])
  {
    SectorRange(i, n, ss);
    res.MarkBad(i);
    Zero(buf, i * ss, SectorEnd(i, n, ss));
  }

  /** `OffsetView::read_at`. */
  method ReadWindow(inner: Src, start: nat, len: nat, offset: nat, buf: array<Byte>, n: nat) returns (res: ReadResult)
    requires ValidSrc(inner) && WindowFits(inner, start, len) && n <= buf.Length
    modifies buf, Handle(inner)
    ensures fresh(res) && fresh(res.bad) && fresh(res.unread) && res.Valid()
    ensures res.sectorCount == Sectors(n, SectorSize(inner))
    ensures buf[..n] == BytesRead(Denote(View(inner, start, len)), offset, n) && buf[n..] == old(buf[n..])
    ensures res.bad.Members() == BadRead(Denote(View(inner, start, len)), offset, n) && res.unread.Members() == {}
    decreases View(inner, start, len), 0
  {
    var ss := SectorSize(inner);
    ghost var m, v := Denote(inner), Denote(View(inner, start, len));
    if offset >= len || offset % ss != 0 {
      Zero(buf, 0, n);
      res := new ReadResult(ss, Sectors(n, ss));
      res.MarkAllBad();
      return;
    }
    var parentOff := start - start % ss + offset;
    var avail := Min(len - offset, n);
    WindowReads(m, start, len, offset, n, avail);
    var inside := ReadAt(inner, parentOff, buf, avail);
    if avail == n {
      res := inside;
      return;
    }
    res := Widen(inside, ss, buf, n, avail);
  }

  /** A result for more bytes than were read: those after `avail` are zero and bad. */
  method Widen(inside: ReadResult, ss: nat, buf: array<Byte>, n: nat, avail: nat) returns (res: ReadResult)
    requires ss > 0 && inside.Valid() && avail <= n <= buf.Length && inside.sectorCount <= Sectors(n, ss)
    modifies buf
    ensures fresh(res) && fresh(res.bad) && fresh(res.unread) && res.Valid() && res.sectorCount == Sectors(n, ss)
    ensures res.bad.Members() == inside.bad.Members() + From(avail, n, ss) && res.unread.Members() == {}
    ensures forall j | 0 <= j < buf.Length :: buf[j] == if avail <= j < n then 0 else old(buf[j])
  {
    res := new ReadResult(ss, Sectors(n, ss));
    CopyBad(inside, res);
    Zero(buf, avail, n);
    MarkBadFromByte(res, ss, n, avail);
  }

  method CopyBad(from: ReadResult, to: ReadResult)
    requires from.Valid() && to.Valid() && from.bad != to.bad && from.sectorCount <= to.sectorCount
    modifies to.bad
    ensures from.Valid() && to.Valid() && to.bad.Members() == old(to.bad.Members()) + from.bad.Members()
  {
    for i := 0 to from.sectorCount
      invariant to.Valid() && from.Valid()
      invariant forall k: nat :: k in to.bad.Members() <==>
                  k in old(to.bad.Members()) || (k < i && k in from.bad.Members())
    {
      var bad := from.bad.Get(i);
      if bad {
        to.MarkBad(i);
      }
    }
  }

  /** A request through a fault injector, in terms of the same request to its parent:
      the listed sectors of the source are bad and zero in addition. */
  lemma FaultReads(inner: Src, lbas: set<nat>, offset: nat, n: nat)
    requires ValidSrc(inner) && offset % SectorSize(inner) == 0
    ensures var ss := SectorSize(inner);
            forall i: nat | i < Sectors(n, ss) ::
              i in BadRead(Denote(Fault(inner, lbas)), offset, n)
              <==> i in BadRead(Denote(inner), offset, n) || offset / ss + i in lbas
    ensures var ss := SectorSize(inner);
            forall j: nat | j < n ::
              BytesRead(Denote(Fault(inner, lbas)), offset, n)[j]
              == if offset / ss + j / ss in lbas then 0 else BytesRead(Denote(inner), offset, n)[j]
  {
    FaultyBytes(Denote(inner), lbas, offset, n, BytesRead(Denote(inner), offset, n));
  }

  /** A request to a window, in terms of a request to its parent for the bytes
      inside it. */
  lemma WindowReads(m: Media, start: nat, len: nat, offset: nat, n: nat, avail: nat)
    requires m.ss > 0 && start % m.ss == 0 && start + len <= |m.bytes|
    requires offset % m.ss == 0 && offset < len && avail == Min(n, len - offset)
    ensures BytesRead(WindowOf(m, start, len), offset, n)
         == BytesRead(m, start + offset, avail) + seq(n - avail, _ => 0)
    ensures BadRead(WindowOf(m, start, len), offset, n)
         == BadRead(m, start + offset, avail) + From(avail, n, m.ss)
    ensures Sectors(avail, m.ss) <= Sectors(n, m.ss)
  {
    forall j: nat | j < avail
      ensures ByteAt(WindowOf(m, start, len), offset, j) == ByteAt(m, start + offset, j)
    {
      WindowByte(m, start, len, offset, j);
    }
    SectorsBounds(n, m.ss);
    SectorsBounds(avail, m.ss);
    var c := Sectors(avail, m.ss);
    assert c > 0 ==> c - 1 < Sectors(n, m.ss);
    forall i: nat | i < Sectors(n, m.ss)
      ensures IsBad(WindowOf(m, start, len), offset, n, i)
         <==> (i < Sectors(avail, m.ss) && IsBad(m, start + offset, avail, i)) || i in From(avail, n, m.ss)
    {
      WindowBad(m, start, len, offset, n, avail, i);
    }
  }

  // --------------------------------------------------- are the bytes of bad sectors zero

  /** Every byte of the request in a bad sector reads as zero. */
  ghost predicate BadBytesAreZero(m: Media, offset: nat, n: nat)
    requires m.ss > 0
  {
    forall j: nat | j < n && j / m.ss in BadRead(m, offset, n) :: ByteAt(m, offset, j) == 0
  }

  /** The bytes of the source after its last whole sector are zero. */
  ghost predicate TailIsZero(m: Media)
    requires m.ss > 0
  {
    forall q: nat | |m.bytes| / m.ss * m.ss <= q < |m.bytes| :: m.bytes[q] == 0
  }

  /** A sector of a request that holds a byte of the source's sector `k`. */
  lemma SectorOfRequest(offset: nat, q: nat, ss: nat)
    requires ss > 0 && offset % ss == 0 && offset <= q
    ensures offset / ss + (q - offset) / ss == q / ss
    ensures offset + ((q - offset) / ss + 1) * ss == (q / ss + 1) * ss
  {
    Aligned(offset, ss);
    DivShift(offset / ss, q - offset, ss);
    Distrib(offset / ss, (q - offset) / ss + 1, ss);
  }

  lemma TailBegins(offset: nat, end: nat, ss: nat)
    requires ss > 0 && offset % ss == 0 && offset <= end
    ensures offset <= end / ss * ss
  {
    Aligned(offset, ss);
    DivMono(offset, end, ss);
    MulMono(offset / ss, end / ss, ss);
  }

  lemma InSomeSector(j: nat, n: nat, ss: nat)
    requires ss > 0 && j < n
    ensures j / ss < Sectors(n, ss)
  {
    DivBounds(j, ss);
    SectorsBounds(n, ss);
  }

  /** The sector of a request with a byte of the tail reaches past the end. */
  lemma PassesTheEnd(offset: nat, n: nat, q: nat, end: nat, ss: nat)
    requires ss > 0 && offset % ss == 0 && offset <= q && end / ss * ss <= q <= end < offset + n
    ensures q / ss == end / ss && offset + SectorEnd((q - offset) / ss, n, ss) > end
  {
    SameQuotient(q, end, ss);
    SectorOfRequest(offset, q, ss);
    DivBounds(end, ss);
  }

  /** Where a byte of the last, partial sector is in a request that passes the end. */
  lemma TailInRequest(offset: nat, n: nat, q: nat, end: nat, ss: nat) returns (i: nat)
    requires ss > 0 && offset % ss == 0 && offset <= end < offset + n && end / ss * ss <= q < end
    ensures offset <= q && i == (q - offset) / ss && q / ss == end / ss
    ensures i < Sectors(n, ss) && offset + SectorEnd(i, n, ss) > end
  {
    TailBegins(offset, end, ss);
    PassesTheEnd(offset, n, q, end, ss);
    InSomeSector(q - offset, n, ss);
    i := (q - offset) / ss;
  }

  /** A byte inside the source but in a sector that passes its end is in its tail. */
  lemma PartialIsTail(m: Media, offset: nat, n: nat, j: nat)
    requires m.ss > 0 && Readable(m, offset) && j < n && offset + j < |m.bytes|
    requires offset + SectorEnd(j / m.ss, n, m.ss) > |m.bytes|
    ensures |m.bytes| / m.ss * m.ss <= offset + j && (offset + j) / m.ss == |m.bytes| / m.ss
  {
    SectorOfRequest(offset, offset + j, m.ss);
    DivBounds(offset + j, m.ss);
    CutSector(offset + j, |m.bytes|, m.ss);
  }

  /** The end lies in the sector of `q`. */
  lemma CutSector(q: nat, end: nat, ss: nat)
    requires ss > 0 && q < end < (q / ss + 1) * ss
    ensures q / ss == end / ss && end / ss * ss <= q
  {
    DivBelow(end, q / ss + 1, ss);
    DivMono(q, end, ss);
    DivBounds(q, ss);
  }

  /** The documented promise with its exact condition: the bytes of bad sectors
      are zero if and only if the request ends inside the source, or the source's
      last, partial sector is itself bad, or its bytes are zero anyway. */
  lemma BadIsZeroIff(m: Media, offset: nat, n: nat)
    requires m.ss > 0 && Readable(m, offset)
    ensures BadBytesAreZero(m, offset, n)
       <==> (offset + n <= |m.bytes| || |m.bytes| / m.ss in m.bad || TailIsZero(m))
  {
    if offset + n <= |m.bytes| || |m.bytes| / m.ss in m.bad || TailIsZero(m) {
      forall j: nat | j < n && j / m.ss in BadRead(m, offset, n) ensures ByteAt(m, offset, j) == 0 {
        if offset + j < |m.bytes| && offset + SectorEnd(j / m.ss, n, m.ss) > |m.bytes| {
          PartialIsTail(m, offset, n, j);
        }
        SectorOfRequest(offset, offset + j, m.ss);
      }
    } else {
      var q: nat :| |m.bytes| / m.ss * m.ss <= q < |m.bytes| && m.bytes[q] != 0;
      var i := TailInRequest(offset, n, q, |m.bytes|, m.ss);
      assert i in BadRead(m, offset, n);
      assert ByteAt(m, offset, q - offset) == m.bytes[q];
    }
  }

  /** Three bytes in sectors of two: a request for four has its second sector bad,
      and the third byte in it. */
  lemma BadSectorKeepsItsBytes()
    ensures var m := Media([7, 7, 7], 2, {});
            BadRead(m, 0, 4) == {1} && BytesRead(m, 0, 4) == [7, 7, 7, 0] && !BadBytesAreZero(m, 0, 4)
  {
    var m := Media([7, 7, 7], 2, {});
    assert IsBad(m, 0, 4, 1) && !IsBad(m, 0, 4, 0);
    assert ByteAt(m, 0, 2) == 7 && 2 / m.ss in BadRead(m, 0, 4);
  }
}
