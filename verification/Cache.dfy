/** The LRU read-ahead cache (crates/reclaim-block/src/cache.rs), proved to read
    exactly what the source under it reads. */
module Cache {
  import opened Arith
  import opened Bytes
  import opened BlockSource

  const CHUNK_SIZE: nat := 1024 * 1024

  datatype Entry = Entry(data: seq<Byte>, bad: set<nat>, lastUsed: nat)

  type Resident = map<nat, Entry>

  function AlignUp(value: nat, align: nat): (r: nat)
    requires align > 0
    ensures value <= r < value + align && r % align == 0
  {
    if value % align == 0 then value
    else
      RoundUp(value, align);
      value + (align - value % align)
  }

  lemma RoundUp(value: nat, align: nat)
    requires align > 0
    ensures (value + (align - value % align)) % align == 0
  {
    var q := value / align;
    DivBounds(value, align);
    assert value + (align - value % align) == (q + 1) * align;
    MultipleOf(q + 1, align);
  }

  function ChunkLen(len: nat, start: nat, chunkSize: nat): nat {
    if start >= len then 0 else Min(chunkSize, len - start)
  }

  /** A chunk holds what its source reads there. */
  predicate Mirrors(m: Media, chunkSize: nat, idx: nat, e: Entry)
    requires m.ss > 0
  {
    var start := idx * chunkSize;
    var n := ChunkLen(|m.bytes|, start, chunkSize);
    e.data == BytesRead(m, start, n) && e.bad == BadRead(m, start, n)
  }

  /** No two chunks were used last by the same tick. */
  predicate Ticked(chunks: Resident, tick: nat) {
    && (forall k | k in chunks :: chunks[k].lastUsed <= tick)
    && (forall j, k | j in chunks && k in chunks && j != k :: chunks[j].lastUsed != chunks[k].lastUsed)
  }

  /** Least recently used first: what is left was used after what was dropped. */
  predicate EvictedTo(before: Resident, after: Resident, capacity: nat) {
    && |after| <= capacity
    && (if |before| <= capacity then after == before else |after| == capacity)
    && (forall k | k in after :: k in before && after[k] == before[k])
    && (forall k, v | k in after && v in before && v !in after :: before[v].lastUsed < before[k].lastUsed)
  }

  method Oldest(chunks: Resident) returns (victim: nat)
    requires chunks != map[]
    ensures victim in chunks && forall k | k in chunks :: chunks[victim].lastUsed <= chunks[k].lastUsed
  {
    var left := chunks.Keys;
    victim :| victim in left;
    left := left - {victim};
    while left != {}
      invariant left <= chunks.Keys && victim in chunks
      invariant forall k | k in chunks && k !in left :: chunks[victim].lastUsed <= chunks[k].lastUsed
      decreases |left|
    {
      var k :| k in left;
      if chunks[k].lastUsed < chunks[victim].lastUsed {
        victim := k;
      }
      left := left - {k};
    }
  }

  /** A chunk becomes the one that was used last. */
  lemma UsedLast(m: Media, chunkSize: nat, chunks: Resident, tick: nat, idx: nat, e: Entry)
    requires m.ss > 0 && Ticked(chunks, tick) && Mirrors(m, chunkSize, idx, e)
    requires forall k | k in chunks :: Mirrors(m, chunkSize, k, chunks[k])
    ensures var now := chunks[idx := e.(lastUsed := tick + 1)];
            Ticked(now, tick + 1) && forall k | k in now :: Mirrors(m, chunkSize, k, now[k])
  {
    var now := chunks[idx := e.(lastUsed := tick + 1)];
    forall k | k in now ensures Mirrors(m, chunkSize, k, now[k]) {
      if k != idx {
        assert Mirrors(m, chunkSize, k, chunks[k]);
      }
    }
  }

  method Evict(chunks: Resident, capacity: nat, ghost tick: nat) returns (kept: Resident)
    requires Ticked(chunks, tick)
    ensures EvictedTo(chunks, kept, capacity) && Ticked(kept, tick)
    ensures if |chunks| <= capacity then kept == chunks else |kept| == capacity
    ensures forall k | k in kept :: k in chunks && kept[k] == chunks[k]
    ensures forall k, v | k in kept && v in chunks && v !in kept :: chunks[v].lastUsed < chunks[k].lastUsed
  {
    kept := chunks;
    while |kept| > capacity
      invariant forall k | k in kept :: k in chunks && kept[k] == chunks[k]
      invariant forall k, v | k in kept && v in chunks && v !in kept :: chunks[v].lastUsed < chunks[k].lastUsed
      invariant if |chunks| <= capacity then kept == chunks else |kept| >= capacity
      decreases |kept|
    {
      var victim := Oldest(kept);
      ghost var keys := kept.Keys - {victim};
      kept := kept - {victim};
      assert kept.Keys == keys;
    }
  }

  // ------------------------------------------------- chunks against requests

  /** A chunk starts on a sector boundary, at or before any byte it holds. */
  lemma ChunkStart(pos: nat, chunkSize: nat, ss: nat)
    requires ss > 0 && chunkSize > 0 && chunkSize % ss == 0
    ensures var start := pos / chunkSize * chunkSize;
            start <= pos < start + chunkSize && start % ss == 0 && (start + chunkSize) % ss == 0
  {
    var q := pos / chunkSize;
    DivBounds(pos, chunkSize);
    Distrib(q, 1, chunkSize);
    MultipleAligned(q, chunkSize, ss);
    var start := q * chunkSize;
    AlignedSum(start, chunkSize, ss);
  }

  /** The same byte of the media, read from two aligned places. */
  lemma SameByte(m: Media, a: nat, i: nat, b: nat, j: nat)
    requires m.ss > 0 && Readable(m, a) && Readable(m, b) && a + i == b + j
    ensures ByteAt(m, a, i) == ByteAt(m, b, j)
  {
  }

  /** Sector `r` of a request, found again in the chunk that holds it. */
  lemma SectorInChunk(m: Media, offset: nat, r: nat, start: nat, n: nat)
    requires m.ss > 0 && Readable(m, offset) && Readable(m, start)
    requires start <= offset + r * m.ss < start + n && start + n <= |m.bytes|
    ensures (offset + r * m.ss - start) / m.ss in BadRead(m, start, n) <==> offset / m.ss + r in m.bad
  {
    var ss := m.ss;
    Aligned(offset, ss);
    Aligned(start, ss);
    MultipleOf(r, ss);
    AlignedSum(offset, r * ss, ss);
    DivUnique(r * ss, ss, r);
    var abs := offset + r * ss;
    var c := abs / ss - start / ss;
    Aligned(abs, ss);
    MinusAligned(abs / ss, start / ss, ss);
    SectorsBounds(n, ss);
  }

  /** How far a request has been answered: bytes up to `d`, and the bad sectors
      that begin before it. */
  ghost predicate Answered(m: Media, offset: nat, n: nat, d: nat, buf: seq<Byte>, bad: set<nat>)
    requires m.ss > 0
  {
    && d <= n <= |buf|
    && (forall j | 0 <= j < d :: buf[j] == ByteAt(m, offset, j))
    && (forall j | d <= j < n :: buf[j] == 0)
    && (forall r: nat :: r in bad <==> r < Sectors(d, m.ss) && offset / m.ss + r in m.bad)
  }

  /** What is left to mark once every readable byte is answered. */
  lemma AnsweredAll(m: Media, offset: nat, n: nat, buf: seq<Byte>, bad: set<nat>)
    requires m.ss > 0 && Readable(m, offset)
    requires Answered(m, offset, n, Min(n, |m.bytes| - offset), buf, bad)
    ensures buf[..n] == BytesRead(m, offset, n)
    ensures bad + From(Min(n, |m.bytes| - offset), n, m.ss) == BadRead(m, offset, n)
  {
    var d := Min(n, |m.bytes| - offset);
    SectorsBounds(n, m.ss);
    SectorsBounds(d, m.ss);
    forall r: nat
      ensures r in bad + From(d, n, m.ss) <==> r in BadRead(m, offset, n)
    {
      Distrib(r, 1, m.ss);
      if r < Sectors(n, m.ss) && !(r < Sectors(d, m.ss)) {
        assert r in From(d, n, m.ss);
      }
    }
  }

  /** Copy `span` bytes of a chunk into the caller's buffer. */
  method CopySpan(data: seq<Byte>, within: nat, buf: array<Byte>, at: nat, span: nat)
    requires within + span <= |data| && at + span <= buf.Length
    modifies buf
    ensures forall j | 0 <= j < buf.Length ::
              buf[j] == if at <= j < at + span then data[within + (j - at)] else old(buf[j])
  {
    for k := 0 to span
      invariant forall j | 0 <= j < buf.Length ::
                buf[j] == if at <= j < at + k then data[within + (j - at)] else old(buf[j])
    {
      buf[at + k] := data[within + k];
    }
  }

  /** Zero one sector, all of whose bytes are zero already. */
  method ZeroSector(buf: array<Byte>, r: nat, n: nat, ss: nat)
    requires ss > 0 && n <= buf.Length && r < Sectors(n, ss)
    requires forall j: nat | j < n && j / ss == r :: buf[j] == 0
    modifies buf
    ensures buf[..] == old(buf[..])
  {
    SectorRange(r, n, ss);
    Zero(buf, r * ss, SectorEnd(r, n, ss));
  }

  /** Whether the sector at `abs` is bad in the chunk that begins at `start`. */
  predicate BadInChunk(bad: set<nat>, start: nat, abs: nat, ss: nat)
    requires ss > 0 && start <= abs
  {
    (abs - start) / ss in bad
  }

  /** A zeroed buffer and a result without marks. */
  method Cleared(buf: array<Byte>, n: nat, ss: nat) returns (res: ReadResult)
    requires ss > 0 && n <= buf.Length
    modifies buf
    ensures fresh(res) && fresh(res.bad) && fresh(res.unread) && res.Valid() && res.sectorCount == Sectors(n, ss)
    ensures res.bad.Members() == {} && res.unread.Members() == {}
    ensures buf[n..] == old(buf[n..]) && forall j | 0 <= j < n :: buf[j] == 0
  {
    res := new ReadResult(ss, Sectors(n, ss));
    Zero(buf, 0, n);
  }

  /** A request sector between two that lie in a chunk lies in it too. */
  lemma SectorBetween(m: Media, offset: nat, first: nat, r: nat, last: nat, start: nat, n: nat)
    requires m.ss > 0 && Readable(m, offset) && Readable(m, start) && first <= r <= last
    requires start <= offset + first * m.ss && offset + last * m.ss < start + n && start + n <= |m.bytes|
    ensures start <= offset + r * m.ss
    ensures BadInChunk(BadRead(m, start, n), start, offset + r * m.ss, m.ss) <==> offset / m.ss + r in m.bad
  {
    MulMono(first, r, m.ss);
    MulMono(r, last, m.ss);
    SectorInChunk(m, offset, r, start, n);
  }

  /** Carry a chunk's bad sectors over to request sectors `first..last`. */
  method MarkSpan(ghost m: Media, bad: set<nat>, ghost len: nat, start: nat, offset: nat, ss: nat,
                  buf: array<Byte>, n: nat, first: nat, last: nat, res: ReadResult)
    requires ss == m.ss > 0 && Readable(m, offset) && Readable(m, start) && n <= buf.Length
    requires bad == BadRead(m, start, len) && start + len <= |m.bytes|
    requires res.Valid() && res.sectorCount == Sectors(n, ss) && first <= last < res.sectorCount
    requires start <= offset + first * ss && offset + last * ss < start + len
    requires forall j: nat | j < n && offset / ss + j / ss in m.bad :: buf[j] == 0
    modifies buf, res.bad
    ensures res.Valid() && buf[..] == old(buf[..])
    ensures forall r: nat :: r in res.bad.Members() <==>
              r in old(res.bad.Members()) || (first <= r <= last && offset / ss + r in m.bad)
  {
    ghost var lba := offset / ss;
    for r := first to last + 1
      invariant res.Valid() && buf[..] == old(buf[..])
      invariant forall k: nat :: k in res.bad.Members() <==>
                  k in old(res.bad.Members()) || (first <= k < r && lba + k in m.bad)
    {
      SectorBetween(m, offset, first, r, last, start, len);
      var sectorBad := BadInChunk(bad, start, offset + r * ss, ss);
      assert forall j: nat | j < n && j / ss == r && lba + j / ss in m.bad :: buf[..][j] == 0;
      MarkIf(sectorBad, r, ss, buf, n, res);
    }
  }

  method MarkIf(sectorBad: bool, r: nat, ss: nat, buf: array<Byte>, n: nat, res: ReadResult)
    requires ss > 0 && n <= buf.Length && res.Valid() && res.sectorCount == Sectors(n, ss) && r < res.sectorCount
    requires sectorBad ==> forall j: nat | j < n && j / ss == r :: buf[j] == 0
    modifies buf, res.bad
    ensures res.Valid() && buf[..] == old(buf[..])
    ensures res.bad.Members() == if sectorBad then old(res.bad.Members()) + {r} else old(res.bad.Members())
  {
    if sectorBad {
      res.MarkBad(r);
      ZeroSector(buf, r, n, ss);
    }
  }

  /** The last sector of a request that is not empty. */
  lemma LastSector(n: nat, ss: nat)
    requires ss > 0 && n > 0
    ensures Sectors(n, ss) == (n - 1) / ss + 1
  {
    DivShift(1, n - 1, ss);
  }

  lemma WholeSectors(at: nat, ss: nat)
    requires ss > 0 && at % ss == 0
    ensures Sectors(at, ss) == at / ss && at / ss * ss == at
  {
    Aligned(at, ss);
    DivShift(at / ss, ss - 1, ss);
    DivUnique(ss - 1, ss, 0);
  }

  /** Request bytes `at .. at + span`, in whole sectors except at the end. */
  lemma SpanSectors(at: nat, span: nat, n: nat, ss: nat)
    requires ss > 0 && at % ss == 0 && span > 0 && at + span <= n
    ensures var first, last := at / ss, (at + span - 1) / ss;
            && first <= last < Sectors(n, ss)
            && first * ss == at && last * ss < at + span
            && Sectors(at, ss) == first && Sectors(at + span, ss) == last + 1
  {
    WholeSectors(at, ss);
    LastSector(at + span, ss);
    LastSector(n, ss);
    DivMono(at, at + span - 1, ss);
    DivMono(at + span - 1, n - 1, ss);
    DivBounds(at + span - 1, ss);
  }

  /** Copying what a chunk holds answers that part of the request. */
  lemma SpanAnswers(m: Media, offset: nat, start: nat, data: seq<Byte>, pos: nat, span: nat)
    requires m.ss > 0 && Readable(m, offset) && Readable(m, start) && start <= pos && offset <= pos
    requires data == BytesRead(m, start, |data|) && pos - start + span <= |data|
    ensures forall j: nat | pos - offset <= j < pos - offset + span ::
              data[pos - start + (j - (pos - offset))] == ByteAt(m, offset, j)
  {
    forall j: nat | pos - offset <= j < pos - offset + span
      ensures data[pos - start + (j - (pos - offset))] == ByteAt(m, offset, j)
    {
      SameByte(m, start, pos - start + (j - (pos - offset)), offset, j);
    }
  }

  /** A bad sector's bytes read as zero. */
  lemma BadIsZero(m: Media, offset: nat, j: nat)
    requires m.ss > 0 && Readable(m, offset) && offset / m.ss + j / m.ss in m.bad
    ensures ByteAt(m, offset, j) == 0
  {
    Aligned(offset, m.ss);
    DivShift(offset / m.ss, j, m.ss);
  }

  method BadSectors(rr: ReadResult) returns (bad: set<nat>)
    requires rr.Valid()
    ensures bad == rr.bad.Members()
  {
    bad := {};
    for s := 0 to rr.sectorCount
      invariant forall k: nat :: k in bad <==> k < s && k in rr.bad.Members()
    {
      var b := rr.bad.Get(s);
      if b {
        bad := bad + {s};
      }
    }
  }

  /** The chunk that holds byte `pos`, as far as the source goes. */
  lemma ChunkOf(m: Media, chunkSize: nat, offset: nat, pos: nat, e: Entry)
    requires m.ss > 0 && chunkSize > 0 && chunkSize % m.ss == 0
    requires Readable(m, offset) && offset <= pos < |m.bytes| && pos % m.ss == 0
    requires Mirrors(m, chunkSize, pos / chunkSize, e)
    ensures var start := pos / chunkSize * chunkSize;
            && Readable(m, start) && start <= pos < start + |e.data| && start + |e.data| <= |m.bytes|
            && e.data == BytesRead(m, start, |e.data|) && e.bad == BadRead(m, start, |e.data|)
            && (pos - offset) % m.ss == 0
            && (start + |e.data| < |m.bytes| ==> (start + |e.data|) % m.ss == 0)
  {
    ChunkStart(pos, chunkSize, m.ss);
    AlignedDiff(pos, offset, m.ss);
  }

  /** The two early returns: an empty request, and one that starts off a sector
      boundary or past the end. */
  lemma NothingToRead(m: Media, offset: nat, n: nat)
    requires m.ss > 0
    ensures n == 0 ==> BytesRead(m, offset, n) == [] && BadRead(m, offset, n) == {}
    ensures !Readable(m, offset) ==>
              && (forall j | 0 <= j < n :: BytesRead(m, offset, n)[j] == 0)
              && (forall i: nat :: i in BadRead(m, offset, n) <==> i < Sectors(n, m.ss))
  {
    SectorsBounds(n, m.ss);
  }

  class ReadAheadCache {
    const inner: Src
    const chunkSize: nat
    const sectorSize: nat
    const len: nat
    const capacity: nat
    var chunks: Resident
    var tick: nat

    ghost predicate Valid()
      reads this
    {
      && ValidSrc(inner) && sectorSize == SectorSize(inner) && len == Len(inner)
      && chunkSize > 0 && chunkSize % sectorSize == 0 && capacity > 0
      && Ticked(chunks, tick)
      && forall idx | idx in chunks :: Mirrors(Denote(inner), chunkSize, idx, chunks[idx])
    }

    constructor (inner: Src, capacity: nat)
      requires ValidSrc(inner)
      ensures Valid() && this.inner == inner && chunks == map[]
               && this.capacity == if capacity == 0 then 1 else capacity
      ensures chunkSize % sectorSize == 0 && 1_048_576 <= chunkSize < 1_048_576 + sectorSize
    {
      this.inner := inner;
      sectorSize := SectorSize(inner);
      len := Len(inner);
      chunkSize := AlignUp(CHUNK_SIZE, SectorSize(inner));
      this.capacity := if capacity == 0 then 1 else capacity;
      chunks, tick := map[], 0;
    }

    /** Read one chunk, or what there is of it, from the source. */
    method Fetch(idx: nat) returns (e: Entry)
      requires Valid()
      modifies Handle(inner)
      ensures Mirrors(Denote(inner), chunkSize, idx, e)
    {
      var start := idx * chunkSize;
      var n := ChunkLen(len, start, chunkSize);
      var data := new Byte[n](_ => 0);
      var bad: set<nat> := {};
      if n != 0 {
        var rr := ReadAt(inner, start, data, n);
        bad := BadSectors(rr);
      } else {
        SectorsBounds(0, sectorSize);
      }
      assert data[..] == data[..n];
      return Entry(data[..], bad, 0);
    }

    /** Make a chunk resident and the most recently used one. */
    method Touch(idx: nat)
      requires Valid()
      modifies this, Handle(inner)
      ensures Valid() && tick == old(tick) + 1
      ensures idx in chunks && chunks[idx].lastUsed == tick
      ensures chunks.Keys == old(chunks.Keys) + {idx}
      ensures forall k | k in old(chunks) && k != idx :: chunks[k] == old(chunks[k])
    {
      var e;
      if idx !in chunks {
        e := Fetch(idx);
      } else {
        e := chunks[idx];
      }
      UsedLast(Denote(inner), chunkSize, chunks, tick, idx, e);
      tick := tick + 1;
      chunks := chunks[idx := e.(lastUsed := tick)];
    }

    /** The resident chunk that holds byte `pos`. */
    method Load(offset: nat, pos: nat) returns (start: nat, data: seq<Byte>, bad: set<nat>)
      requires Valid() && Readable(Denote(inner), offset) && offset <= pos < len && pos % sectorSize == 0
      modifies this, Handle(inner)
      ensures Valid() && old(chunks.Keys) <= chunks.Keys
      ensures Readable(Denote(inner), start) && start <= pos < start + |data| && start + |data| <= len
      ensures data == BytesRead(Denote(inner), start, |data|) && bad == BadRead(Denote(inner), start, |data|)
      ensures (pos - offset) % sectorSize == 0
      ensures start + |data| < len ==> (start + |data|) % sectorSize == 0
    {
      var idx := pos / chunkSize;
      start := idx * chunkSize;
      Touch(idx);
      data, bad := chunks[idx].data, chunks[idx].bad;
      ChunkOf(Denote(inner), chunkSize, offset, pos, chunks[idx]);
    }

    /** One step of the read loop: the part of the request in one chunk. */
    method ReadSpan(offset: nat, buf: array<Byte>, n: nat, pos: nat, readableEnd: nat, res: ReadResult)
      returns (next: nat)
      requires Valid() && Readable(Denote(inner), offset) && n <= buf.Length
      requires readableEnd == Min(offset + n, len) && offset <= pos < readableEnd && pos % sectorSize == 0
      requires res.Valid() && res.sectorCount == Sectors(n, sectorSize)
      requires Answered(Denote(inner), offset, n, pos - offset, buf[..], res.bad.Members())
      modifies this, Handle(inner), buf, res.bad
      ensures Valid() && res.Valid() && res.unread.Members() == old(res.unread.Members())
      ensures pos < next <= readableEnd && (next < readableEnd ==> next % sectorSize == 0)
      ensures Answered(Denote(inner), offset, n, next - offset, buf[..], res.bad.Members())
      ensures buf[n..] == old(buf[n..]) && old(chunks.Keys) <= chunks.Keys
    {
      ghost var filled, marked, unread := buf[..], res.bad.Members(), res.unread.Members();
      var start, data, bad := Load(offset, pos);
      assert buf[..] == filled && res.bad.Members() == marked;
      if pos - start >= |data| {
        return pos;
      }
      label loaded:
      next := CopyAndMark(Denote(inner), data, bad, start, offset, sectorSize, buf, n, pos, readableEnd, res);
      assert chunks == old@loaded(chunks) && tick == old@loaded(tick);
    }

    /** `read_at`: bytes and bad sectors are those of the source, whatever is
        resident; afterwards the cache is within its capacity, and what was
        evicted was used before everything that stayed.  `resident` is what
        was held when eviction began. */
    method Read(offset: nat, buf: array<Byte>, n: nat) returns (res: ReadResult, ghost resident: Resident)
      requires Valid() && |chunks| <= capacity && n <= buf.Length
      modifies this, Handle(inner), buf
      ensures Valid() && |chunks| <= capacity
      ensures fresh(res) && fresh(res.bad) && fresh(res.unread) && res.Valid()
      ensures res.sectorCount == Sectors(n, sectorSize)
      ensures buf[..n] == BytesRead(Denote(inner), offset, n) && buf[n..] == old(buf[n..])
      ensures res.bad.Members() == BadRead(Denote(inner), offset, n) && res.unread.Members() == {}
      ensures old(chunks.Keys) <= resident.Keys && EvictedTo(resident, chunks, capacity)
      ensures forall k | k in chunks :: k in resident && chunks[k] == resident[k]
      ensures forall k, v | k in chunks && v in resident && v !in chunks ::
                resident[v].lastUsed < resident[k].lastUsed
    {
      res := Cleared(buf, n, sectorSize);
      resident := chunks;
      NothingToRead(Denote(inner), offset, n);
      if n == 0 {
        return;
      }
      if offset % sectorSize != 0 || offset >= len {
        res.MarkAllBad();
        return;
      }
      resident := ReadReadable(offset, buf, n, res);
    }

    method ReadReadable(offset: nat, buf: array<Byte>, n: nat, res: ReadResult) returns (ghost resident: Resident)
      requires Valid() && Readable(Denote(inner), offset) && n <= buf.Length
      requires res.Valid() && res.sectorCount == Sectors(n, sectorSize)
      requires res.bad.Members() == {} && forall j | 0 <= j < n :: buf[j] == 0
      modifies this, Handle(inner), buf, res.bad
      ensures Valid() && res.Valid() && res.unread.Members() == old(res.unread.Members())
      ensures buf[..n] == BytesRead(Denote(inner), offset, n) && buf[n..] == old(buf[n..])
      ensures res.bad.Members() == BadRead(Denote(inner), offset, n)
      ensures old(chunks.Keys) <= resident.Keys && EvictedTo(resident, chunks, capacity)
    {
      ReadChunks(offset, buf, n, res);
      resident := chunks;
      Trim();
      var end, readableEnd := offset + n, Min(offset + n, len);
      if readableEnd < end {
        MarkBadFromByte(res, sectorSize, n, readableEnd - offset);
      }
    }

    method Trim()
      requires Valid()
      modifies this`chunks
      ensures Valid() && EvictedTo(old(chunks), chunks, capacity)
    {
      chunks := Evict(chunks, capacity, tick);
    }

    /** The read loop. */
    method ReadChunks(offset: nat, buf: array<Byte>, n: nat, res: ReadResult)
      requires Valid() && Readable(Denote(inner), offset) && n <= buf.Length
      requires res.Valid() && res.sectorCount == Sectors(n, sectorSize)
      requires res.bad.Members() == {} && forall j | 0 <= j < n :: buf[j] == 0
      modifies this, Handle(inner), buf, res.bad
      ensures Valid() && res.Valid() && res.unread.Members() == old(res.unread.Members())
      ensures old(chunks.Keys) <= chunks.Keys && buf[n..] == old(buf[n..])
      ensures buf[..n] == BytesRead(Denote(inner), offset, n)
      ensures res.bad.Members() + From(Min(n, len - offset), n, sectorSize) == BadRead(Denote(inner), offset, n)
    {
      var readableEnd := Min(offset + n, len);
      var pos := offset;
      SectorsBounds(0, sectorSize);
      while pos < readableEnd
        invariant offset <= pos <= readableEnd && (pos < readableEnd ==> pos % sectorSize == 0)
        invariant Valid() && res.Valid() && res.unread.Members() == old(res.unread.Members())
        invariant old(chunks.Keys) <= chunks.Keys && buf[n..] == old(buf[n..])
        invariant Answered(Denote(inner), offset, n, pos - offset, buf[..], res.bad.Members())
      {
        pos := ReadSpan(offset, buf, n, pos, readableEnd, res);
      }
      AnsweredAll(Denote(inner), offset, n, buf[..], res.bad.Members());
    }
  }

  method CopyAndMark(ghost m: Media, data: seq<Byte>, bad: set<nat>, start: nat, offset: nat, ss: nat,
                     buf: array<Byte>, n: nat, pos: nat, readableEnd: nat, res: ReadResult) returns (next: nat)
    requires ss == m.ss > 0 && Readable(m, offset) && Readable(m, start) && n <= buf.Length
    requires data == BytesRead(m, start, |data|) && bad == BadRead(m, start, |data|) && start + |data| <= |m.bytes|
    requires readableEnd == Min(offset + n, |m.bytes|) && offset <= pos < readableEnd
    requires start <= pos < start + |data| && (pos - offset) % ss == 0
    requires res.Valid() && res.sectorCount == Sectors(n, ss)
    requires Answered(m, offset, n, pos - offset, buf[..], res.bad.Members())
    modifies buf, res.bad
    ensures res.Valid() && buf[n..] == old(buf[n..])
    ensures next == Min(start + |data|, readableEnd)
    ensures Answered(m, offset, n, next - offset, buf[..], res.bad.Members())
  {
    var within, at := pos - start, pos - offset;
    var span := Min(|data| - within, readableEnd - pos);
    CopySpan(data, within, buf, at, span);
    SpanAnswers(m, offset, start, data, pos, span);
    var first, last := at / ss, (at + span - 1) / ss;
    SpanSectors(at, span, n, ss);
    assert forall j: nat | j < at + span :: buf[j] == ByteAt(m, offset, j);
    forall j: nat | j < n && offset / ss + j / ss in m.bad ensures buf[j] == 0 {
      BadIsZero(m, offset, j);
    }
    ghost var filled := buf[..];
    MarkSpan(m, bad, |data|, start, offset, ss, buf, n, first, last, res);
    next := pos + span;
    assert buf[..] == filled;
  }
}
