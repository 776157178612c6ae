/** One block of an ext directory: live records, and deleted ones that survive
    in the slack of the record that absorbed them
    (crates/fs-ext/src/dir.rs:48-137). */
module ExtDir {
  import opened Bytes

  const MAX_STEPS: nat := 100_000

  datatype DirEntry = DirEntry(inode: nat, name: seq<Byte>, fileType: Byte, deleted: bool)

  function Round4(n: nat): (r: nat)
    ensures n <= r < n + 4
  {
    (n + 3) / 4 * 4
  }

  /** No control bytes and no '/', and neither "." nor "..". */
  predicate Plausible(name: seq<Byte>) {
    && name != [] && name != [0x2E] && name != [0x2E, 0x2E]
    && forall i | 0 <= i < |name| :: name[i] >= 0x20 && name[i] != 0x2F && name[i] != 0x7F
  }

  // --------------------------------------------------------------------- the parser

  function NameLen(b: seq<Byte>, p: nat): (n: nat)
    requires p + 8 <= |b|
    ensures n < 256
  {
    b[p + 6]
  }

  function NameAt(b: seq<Byte>, p: nat): (name: seq<Byte>)
    requires p + 8 <= |b| && p + 8 + NameLen(b, p) <= |b|
  {
    seq<Byte>(NameLen(b, p), i requires 0 <= i < NameLen(b, p) => b[p + 8 + i])
  }

  /** The deleted record at `p`, if the bytes there look like one. */
  predicate StaleThere(count: nat, b: seq<Byte>, p: nat, end: nat)
    requires p + 8 <= end <= |b|
  {
    && 0 < LeU32(b, p) <= count && 0 < NameLen(b, p) && p + 8 + NameLen(b, p) <= end
    && Plausible(NameAt(b, p))
  }

  function StaleEntry(b: seq<Byte>, p: nat): DirEntry
    requires p + 8 <= |b| && p + 8 + NameLen(b, p) <= |b|
  {
    DirEntry(LeU32(b, p), NameAt(b, p), b[p + 7], true)
  }

  /** `scan_slack`, from a position that is a multiple of 4, adding to `out`. */
  function Slack(count: nat, b: seq<Byte>, p: nat, end: nat, out: seq<DirEntry>): seq<DirEntry>
    requires end <= |b|
    decreases end - p
  {
    if p + 8 > end then out
    else if StaleThere(count, b, p, end) then
      Slack(count, b, Round4(p + 8 + NameLen(b, p)), end, out + [StaleEntry(b, p)])
    else Slack(count, b, p + 4, end, out)
  }

  /** What one record of the chain adds. */
  function Yield(count: nat, b: seq<Byte>, pos: nat, out: seq<DirEntry>): seq<DirEntry>
    requires pos + 8 <= |b| && pos + LeU16(b, pos + 4) <= |b|
  {
    var end := pos + LeU16(b, pos + 4);
    if LeU32(b, pos) != 0 && NameLen(b, pos) > 0 && pos + 8 + NameLen(b, pos) <= |b| then
      Slack(count, b, Round4(pos + Round4(8 + NameLen(b, pos))), end,
            if Plausible(NameAt(b, pos)) then out + [StaleEntry(b, pos).(deleted := false)] else out)
    else Slack(count, b, Round4(pos + 8), end, out)
  }

  function Parse(count: nat, b: seq<Byte>, pos: nat, steps: nat, out: seq<DirEntry>): seq<DirEntry>
    decreases |b| - pos
  {
    if pos + 8 > |b| || steps >= MAX_STEPS || LeU16(b, pos + 4) < 8 || pos + LeU16(b, pos + 4) > |b| then out
    else Parse(count, b, pos + LeU16(b, pos + 4), steps + 1, Yield(count, b, pos, out))
  }

  method ScanSlack(count: nat, b: seq<Byte>, start: nat, end0: nat, before: seq<DirEntry>) returns (out: seq<DirEntry>)
    requires end0 <= |b|
    ensures out == Slack(count, b, Round4(start), end0, before)
  {
    out := before;
    var end := if end0 < |b| then end0 else |b|;
    var p: nat := Round4(start);
    while p + 8 <= end
      invariant Slack(count, b, p, end, out) == Slack(count, b, Round4(start), end, before)
      decreases end - p
    {
      var inode, nameLen, fileType := LeU32(b, p), NameLen(b, p), b[p + 7];
      if inode != 0 && inode <= count && nameLen > 0 && p + 8 + nameLen <= end && Plausible(NameAt(b, p)) {
        out := out + [DirEntry(inode, NameAt(b, p), fileType, true)];
        p := Round4(p + 8 + nameLen);
        continue;
      }
      p := p + 4;
    }
  }

  method ParseDirBlock(count: nat, b: seq<Byte>) returns (out: seq<DirEntry>)
    ensures out == Parse(count, b, 0, 0, [])
  {
    out := [];
    var pos: nat, guard: nat := 0, 0;
    while pos + 8 <= |b|
      invariant guard <= MAX_STEPS && Parse(count, b, pos, guard, out) == Parse(count, b, 0, 0, [])
      decreases |b| - pos
    {
      guard := guard + 1;
      if guard > MAX_STEPS {
        return;
      }
      var recLen := LeU16(b, pos + 4);
      if recLen < 8 || pos + recLen > |b| {
        return;
      }
      out := ParseRecord(count, b, pos, recLen, out);
      pos := pos + recLen;
    }
  }

  /** The rest of the loop's body. */
  method ParseRecord(count: nat, b: seq<Byte>, pos: nat, recLen: nat, before: seq<DirEntry>)
    returns (out: seq<DirEntry>)
    requires pos + 8 <= |b| && recLen == LeU16(b, pos + 4) && pos + recLen <= |b|
    ensures out == Yield(count, b, pos, before)
  {
    out := before;
    var inode, nameLen, fileType := LeU32(b, pos), NameLen(b, pos), b[pos + 7];
    if inode != 0 && nameLen > 0 && pos + 8 + nameLen <= |b| {
      if Plausible(NameAt(b, pos)) {
        out := out + [DirEntry(inode, NameAt(b, pos), fileType, false)];
      }
      out := ScanSlack(count, b, pos + Round4(8 + nameLen), pos + recLen, out);
    } else {
      out := ScanSlack(count, b, pos + 8, pos + recLen, out);
    }
  }

  // ---------------------------------------------------------------- what a block holds

  datatype Rec = Rec(inode: nat, name: seq<Byte>, fileType: Byte)

  /** Slack is what was absorbed, and zeros. */
  datatype Piece = Stale(rec: Rec) | Zeros(words: nat)

  /** A live record and the slack inside its length. */
  datatype Group = Group(live: Rec, slack: seq<Piece>)

  predicate Named(r: Rec) { 0 < r.inode && 0 < |r.name| <= 255 }

  /** A record that can be recovered from slack. */
  predicate Recoverable(count: nat, r: Rec) { Named(r) && r.inode <= count && Plausible(r.name) }

  function Tight(r: Rec): (n: nat)
    ensures n >= 8 + |r.name|
  {
    Round4(8 + |r.name|)
  }

  function PieceLength(p: Piece): nat
  {
    match p
    case Stale(r) => Tight(r)
    case Zeros(words) => 4 * words
  }

  function SlackLength(ps: seq<Piece>): nat
  {
    if ps == [] then 0 else PieceLength(ps[0]) + SlackLength(ps[1..])
  }

  function Length(g: Group): (n: nat)
    ensures n >= 8
  {
    Tight(g.live) + SlackLength(g.slack)
  }

  /** The record's bytes, but for its length field. */
  predicate RecordAt(b: seq<Byte>, p: nat, r: Rec) {
    && p + Tight(r) <= |b| && Named(r)
    && LeU32(b, p) == r.inode && b[p + 6] == |r.name| && b[p + 7] == r.fileType && At(b, p + 8, r.name)
  }

  predicate PieceAt(count: nat, b: seq<Byte>, p: nat, x: Piece) {
    match x
    case Stale(r) => Recoverable(count, r) && RecordAt(b, p, r)
    case Zeros(words) => p + 4 * words <= |b| && forall i | p <= i < p + 4 * words :: b[i] == 0
  }

  predicate SlackAt(count: nat, b: seq<Byte>, p: nat, ps: seq<Piece>)
    decreases |ps|
  {
    ps == [] || (PieceAt(count, b, p, ps[0]) && SlackAt(count, b, p + PieceLength(ps[0]), ps[1..]))
  }

  predicate GroupAt(count: nat, b: seq<Byte>, p: nat, g: Group) {
    && p + Length(g) <= |b| && RecordAt(b, p, g.live) && LeU16(b, p + 4) == Length(g)
    && SlackAt(count, b, p + Tight(g.live), g.slack)
  }

  /** From `p` on the block is exactly these groups. */
  predicate Holds(count: nat, b: seq<Byte>, p: nat, gs: seq<Group>)
    decreases |gs|
  {
    if gs == [] then p == |b|
    else GroupAt(count, b, p, gs[0]) && Holds(count, b, p + Length(gs[0]), gs[1..])
  }

  // -------------------------------------------------------------- parsing what it holds

  function EntryOf(r: Rec, deleted: bool): DirEntry { DirEntry(r.inode, r.name, r.fileType, deleted) }

  function StaleEntries(ps: seq<Piece>, out: seq<DirEntry>): seq<DirEntry>
    decreases |ps|
  {
    if ps == [] then out
    else
      match ps[0]
      case Stale(r) => StaleEntries(ps[1..], out + [EntryOf(r, true)])
      case Zeros(_) => StaleEntries(ps[1..], out)
  }

  function Entries(g: Group, out: seq<DirEntry>): seq<DirEntry> {
    StaleEntries(g.slack, if Plausible(g.live.name) then out + [EntryOf(g.live, false)] else out)
  }

  /** What there is to list: each live record, if its name is plausible, and what
      it absorbed. */
  function Listing(gs: seq<Group>, out: seq<DirEntry>): seq<DirEntry>
    decreases |gs|
  {
    if gs == [] then out else Listing(gs[1..], Entries(gs[0], out))
  }

  lemma NameIs(b: seq<Byte>, p: nat, r: Rec)
    requires RecordAt(b, p, r)
    ensures p + 8 <= |b| && NameLen(b, p) == |r.name| && p + 8 + |r.name| <= |b| && NameAt(b, p) == r.name
  {
  }

  /** Zeros are stepped over. */
  lemma {:induction false} SlackOfZeros(count: nat, b: seq<Byte>, p: nat, words: nat, end: nat, out: seq<DirEntry>)
    requires p + 4 * words <= end <= |b| && forall i | p <= i < p + 4 * words :: b[i] == 0
    ensures Slack(count, b, p, end, out) == Slack(count, b, p + 4 * words, end, out)
    decreases words
  {
    if words > 0 {
      if p + 8 <= end {
        assert LeU32(b, p) == 0;
      }
      SlackOfZeros(count, b, p + 4, words - 1, end, out);
    }
  }

  lemma Round4Of(p: nat, n: nat)
    requires p % 4 == 0
    ensures Round4(p + Round4(n)) == p + Round4(n) && Round4(p + n) == p + Round4(n)
  {
    var k, m := p / 4, (n + 3) / 4;
    assert p == 4 * k && Round4(n) == 4 * m;
    assert (4 * k + 4 * m + 3) / 4 == k + m;
    assert (4 * k + n + 3) / 4 == k + m;
  }

  lemma SlackOfStale(count: nat, b: seq<Byte>, p: nat, r: Rec, end: nat, out: seq<DirEntry>)
    requires p % 4 == 0 && p + Tight(r) <= end <= |b| && Recoverable(count, r) && RecordAt(b, p, r)
    ensures Slack(count, b, p, end, out) == Slack(count, b, p + Tight(r), end, out + [EntryOf(r, true)])
  {
    NameIs(b, p, r);
    Round4Of(p, 8 + |r.name|);
  }

  lemma {:induction false} SlackOfPieces(count: nat, b: seq<Byte>, p: nat, ps: seq<Piece>, out: seq<DirEntry>)
    requires p % 4 == 0 && p + SlackLength(ps) <= |b| && SlackAt(count, b, p, ps)
    ensures Slack(count, b, p, p + SlackLength(ps), out) == StaleEntries(ps, out)
    decreases |ps|
  {
    if ps != [] {
      var end, next := p + SlackLength(ps), p + PieceLength(ps[0]);
      PieceBy4(ps[0]);
      SumOf4(p, PieceLength(ps[0]));
      match ps[0] {
        case Stale(r) =>
          SlackOfStale(count, b, p, r, end, out);
          SlackOfPieces(count, b, next, ps[1..], out + [EntryOf(r, true)]);
        case Zeros(words) =>
          SlackOfZeros(count, b, p, words, end, out);
          SlackOfPieces(count, b, next, ps[1..], out);
      }
    }
  }

  lemma YieldOfRecord(count: nat, b: seq<Byte>, p: nat, r: Rec, n: nat, out: seq<DirEntry>)
    requires p % 4 == 0 && RecordAt(b, p, r) && LeU16(b, p + 4) == n && p + n <= |b|
    ensures Yield(count, b, p, out)
         == Slack(count, b, p + Tight(r), p + n, if Plausible(r.name) then out + [EntryOf(r, false)] else out)
  {
    NameIs(b, p, r);
    Round4Of(p, 8 + |r.name|);
  }

  lemma YieldOfGroup(count: nat, b: seq<Byte>, p: nat, g: Group, out: seq<DirEntry>)
    requires p % 4 == 0 && GroupAt(count, b, p, g)
    ensures Yield(count, b, p, out) == Entries(g, out)
  {
    var start := if Plausible(g.live.name) then out + [EntryOf(g.live, false)] else out;
    var at := p + Tight(g.live);
    YieldOfRecord(count, b, p, g.live, Length(g), out);
    TightBy4(g.live);
    SumOf4(p, Tight(g.live));
    assert p + Length(g) == at + SlackLength(g.slack);
    SlackOfPieces(count, b, at, g.slack, start);
  }

  lemma {:induction false} SlackBy4(ps: seq<Piece>)
    ensures SlackLength(ps) % 4 == 0
  {
    if ps != [] {
      PieceBy4(ps[0]);
      SlackBy4(ps[1..]);
    }
  }

  lemma TightBy4(r: Rec)
    ensures Tight(r) % 4 == 0
  {
  }

  lemma PieceBy4(p: Piece)
    ensures PieceLength(p) % 4 == 0
  {
  }

  lemma SumOf4(p: nat, n: nat)
    requires p % 4 == 0 && n % 4 == 0
    ensures (p + n) % 4 == 0
  {
  }

  lemma LengthBy4(g: Group)
    ensures Length(g) % 4 == 0
  {
    TightBy4(g.live);
    SlackBy4(g.slack);
    SumOf4(Tight(g.live), SlackLength(g.slack));
  }

  /** The parser takes one turn for each group and adds its entries. */
  ghost predicate Turns(count: nat, b: seq<Byte>, p: nat, gs: seq<Group>, out: seq<DirEntry>)
    decreases |gs|
  {
    if gs == [] then p == |b|
    else
      && p + 8 <= |b| && LeU16(b, p + 4) == Length(gs[0]) && p + Length(gs[0]) <= |b|
      && Yield(count, b, p, out) == Entries(gs[0], out)
      && Turns(count, b, p + Length(gs[0]), gs[1..], Entries(gs[0], out))
  }

  lemma {:induction false} HeldTurns(count: nat, b: seq<Byte>, p: nat, gs: seq<Group>, out: seq<DirEntry>)
    requires p % 4 == 0 && Holds(count, b, p, gs)
    ensures Turns(count, b, p, gs, out)
    decreases |gs|
  {
    if gs != [] {
      YieldOfGroup(count, b, p, gs[0], out);
      LengthBy4(gs[0]);
      SumOf4(p, Length(gs[0]));
      HeldTurns(count, b, p + Length(gs[0]), gs[1..], Entries(gs[0], out));
    }
  }

  lemma {:induction false} ParseOfTurns(count: nat, b: seq<Byte>, p: nat, gs: seq<Group>, steps: nat,
                                        out: seq<DirEntry>)
    requires Turns(count, b, p, gs, out) && steps + |gs| <= MAX_STEPS
    ensures Parse(count, b, p, steps, out) == Listing(gs, out)
    decreases |gs|
  {
    if gs != [] {
      ParseOfTurns(count, b, p + Length(gs[0]), gs[1..], steps + 1, Entries(gs[0], out));
    }
  }

  /** The parser lists every live record with a plausible name as live and every
      absorbed one as deleted, in block order, and nothing else. */
  lemma ParseOfHeld(count: nat, b: seq<Byte>, p: nat, gs: seq<Group>, steps: nat, out: seq<DirEntry>)
    requires p % 4 == 0 && Holds(count, b, p, gs) && steps + |gs| <= MAX_STEPS
    ensures Parse(count, b, p, steps, out) == Listing(gs, out)
  {
    HeldTurns(count, b, p, gs, out);
    ParseOfTurns(count, b, p, gs, steps, out);
  }

  // ------------------------------------------------------------------------- deletion

  function StartOf(gs: seq<Group>, i: nat): nat
    requires i <= |gs|
  {
    if i == 0 then 0 else Length(gs[0]) + StartOf(gs[1..], i - 1)
  }

  /** Group `i` is absorbed by the one before it. */
  function Absorb(a: Group, v: Group): Group { Group(a.live, a.slack + [Stale(v.live)] + v.slack) }

  function Merge(gs: seq<Group>, i: nat): (r: seq<Group>)
    requires 0 < i < |gs|
    ensures |r| == |gs| - 1
  {
    gs[..i - 1] + [Absorb(gs[i - 1], gs[i])] + gs[i + 1..]
  }

  /** On disk, only the length of the record before is changed. */
  function Delete(b: seq<Byte>, gs: seq<Group>, i: nat): (b': seq<Byte>)
    requires 0 < i < |gs| && Length(gs[i - 1]) + Length(gs[i]) < 0x1_0000 && StartOf(gs, i - 1) + 6 <= |b|
    ensures |b'| == |b|
  {
    Write(b, StartOf(gs, i - 1) + 4, ToLe16(Length(gs[i - 1]) + Length(gs[i])))
  }

  lemma {:induction false} SlackLengthConcat(a: seq<Piece>, b: seq<Piece>)
    ensures SlackLength(a + b) == SlackLength(a) + SlackLength(b)
    decreases |a|
  {
    if a == [] {
      assert a + b == b;
    } else {
      assert (a + b)[1..] == a[1..] + b;
      SlackLengthConcat(a[1..], b);
    }
  }

  lemma {:induction false} SlackAtConcat(count: nat, b: seq<Byte>, p: nat, x: seq<Piece>, y: seq<Piece>)
    requires SlackAt(count, b, p, x) && SlackAt(count, b, p + SlackLength(x), y)
    ensures SlackAt(count, b, p, x + y)
    decreases |x|
  {
    if x == [] {
      assert x + y == y;
    } else {
      assert (x + y)[1..] == x[1..] + y;
      SlackAtConcat(count, b, p + PieceLength(x[0]), x[1..], y);
    }
  }

  /** Two blocks with the same bytes from `from` up to `to`. */
  predicate Same(b: seq<Byte>, c: seq<Byte>, from: nat, to: nat) {
    |b| == |c| && to <= |b| && forall i | from <= i < to :: b[i] == c[i]
  }

  lemma RecordFrame(b: seq<Byte>, c: seq<Byte>, p: nat, r: Rec)
    requires RecordAt(b, p, r) && Same(b, c, p, p + 4) && Same(b, c, p + 6, p + Tight(r))
    ensures RecordAt(c, p, r)
  {
  }

  lemma {:induction false} SlackFrame(count: nat, b: seq<Byte>, c: seq<Byte>, p: nat, ps: seq<Piece>)
    requires SlackAt(count, b, p, ps) && Same(b, c, p, p + SlackLength(ps))
    ensures SlackAt(count, c, p, ps)
    decreases |ps|
  {
    if ps != [] {
      match ps[0] {
        case Stale(r) => RecordFrame(b, c, p, r);
        case Zeros(_) =>
      }
      SlackFrame(count, b, c, p + PieceLength(ps[0]), ps[1..]);
    }
  }

  lemma GroupFrame(count: nat, b: seq<Byte>, c: seq<Byte>, p: nat, g: Group)
    requires GroupAt(count, b, p, g) && Same(b, c, p, p + Length(g))
    ensures GroupAt(count, c, p, g)
  {
    RecordFrame(b, c, p, g.live);
    SlackFrame(count, b, c, p + Tight(g.live), g.slack);
  }

  lemma {:induction false} HoldsFrame(count: nat, b: seq<Byte>, c: seq<Byte>, p: nat, gs: seq<Group>)
    requires p <= |b| && Holds(count, b, p, gs) && Same(b, c, p, |b|)
    ensures Holds(count, c, p, gs)
    decreases |gs|
  {
    if gs != [] {
      GroupFrame(count, b, c, p, gs[0]);
      HoldsFrame(count, b, c, p + Length(gs[0]), gs[1..]);
    }
  }

  lemma AbsorbLength(a: Group, v: Group)
    ensures Length(Absorb(a, v)) == Length(a) + Length(v)
  {
    SlackLengthConcat(a.slack + [Stale(v.live)], v.slack);
    SlackLengthConcat(a.slack, [Stale(v.live)]);
    assert SlackLength([Stale(v.live)]) == Tight(v.live) + SlackLength([Stale(v.live)][1..]);
  }

  lemma AbsorbSlack(count: nat, b: seq<Byte>, p: nat, a: Group, v: Group)
    requires SlackAt(count, b, p, a.slack) && Recoverable(count, v.live)
    requires RecordAt(b, p + SlackLength(a.slack), v.live)
    requires SlackAt(count, b, p + SlackLength(a.slack) + Tight(v.live), v.slack)
    ensures SlackAt(count, b, p, a.slack + [Stale(v.live)] + v.slack)
  {
    var one := [Stale(v.live)];
    assert SlackAt(count, b, p + SlackLength(a.slack), one) && one[1..] == [];
    SlackAtConcat(count, b, p, a.slack, one);
    SlackLengthConcat(a.slack, one);
    assert SlackLength(one) == Tight(v.live) + SlackLength(one[1..]);
    SlackAtConcat(count, b, p, a.slack + one, v.slack);
  }

  /** Only the two bytes of a length differ. */
  ghost predicate LengthWritten(b: seq<Byte>, c: seq<Byte>, p: nat, n: nat) {
    && p + 6 <= |b| && Same(b, c, 0, p + 4) && Same(b, c, p + 6, |b|) && LeU16(c, p + 4) == n
  }

  lemma AbsorbAt(count: nat, b: seq<Byte>, c: seq<Byte>, p: nat, a: Group, v: Group)
    requires GroupAt(count, b, p, a) && GroupAt(count, b, p + Length(a), v) && Recoverable(count, v.live)
    requires LengthWritten(b, c, p, Length(a) + Length(v))
    ensures GroupAt(count, c, p, Absorb(a, v))
  {
    AbsorbLength(a, v);
    RecordFrame(b, c, p, a.live);
    SlackFrame(count, b, c, p + Tight(a.live), a.slack);
    GroupFrame(count, b, c, p + Length(a), v);
    AbsorbSlack(count, c, p + Tight(a.live), a, v);
  }

  lemma HoldsCons(count: nat, b: seq<Byte>, p: nat, g: Group, gs: seq<Group>)
    requires GroupAt(count, b, p, g) && Holds(count, b, p + Length(g), gs)
    ensures Holds(count, b, p, [g] + gs)
  {
    assert ([g] + gs)[1..] == gs;
  }

  lemma DeleteSecond(count: nat, b: seq<Byte>, c: seq<Byte>, p: nat, gs: seq<Group>)
    requires 1 < |gs| && Holds(count, b, p, gs) && Recoverable(count, gs[1].live)
    requires LengthWritten(b, c, p, Length(gs[0]) + Length(gs[1]))
    ensures Holds(count, c, p, Merge(gs, 1))
  {
    var a, v, rest := gs[0], gs[1], gs[2..];
    assert gs[1..][0] == v && gs[1..][1..] == rest;
    assert Holds(count, b, p + Length(a), gs[1..]);
    AbsorbAt(count, b, c, p, a, v);
    AbsorbLength(a, v);
    HoldsFrame(count, b, c, p + Length(a) + Length(v), rest);
    HoldsCons(count, c, p, Absorb(a, v), rest);
    assert Merge(gs, 1) == [Absorb(a, v)] + rest;
  }

  /** The groups fill the block from `p` up to `end`. */
  predicate Stretch(count: nat, b: seq<Byte>, p: nat, gs: seq<Group>, end: nat)
    decreases |gs|
  {
    if gs == [] then p == end
    else GroupAt(count, b, p, gs[0]) && Stretch(count, b, p + Length(gs[0]), gs[1..], end)
  }

  lemma Splits(count: nat, b: seq<Byte>, p: nat, gs: seq<Group>, k: nat)
    requires Holds(count, b, p, gs) && k <= |gs|
    ensures Stretch(count, b, p, gs[..k], p + StartOf(gs, k)) && Holds(count, b, p + StartOf(gs, k), gs[k..])
  {
    HoldsTo(count, b, p, gs, k);
    HoldsFrom(count, b, p, gs, k);
  }

  lemma {:induction false} HoldsTo(count: nat, b: seq<Byte>, p: nat, gs: seq<Group>, k: nat)
    requires Holds(count, b, p, gs) && k <= |gs|
    ensures Stretch(count, b, p, gs[..k], p + StartOf(gs, k))
    decreases k
  {
    if k > 0 {
      assert gs[..k][1..] == gs[1..][..k - 1];
      HoldsTo(count, b, p + Length(gs[0]), gs[1..], k - 1);
    }
  }

  lemma {:induction false} HoldsFrom(count: nat, b: seq<Byte>, p: nat, gs: seq<Group>, k: nat)
    requires Holds(count, b, p, gs) && k <= |gs|
    ensures Holds(count, b, p + StartOf(gs, k), gs[k..])
    decreases k
  {
    if k > 0 {
      assert gs[k..] == gs[1..][k - 1..];
      HoldsFrom(count, b, p + Length(gs[0]), gs[1..], k - 1);
    } else {
      assert gs[0..] == gs;
    }
  }

  lemma {:induction false} Joins(count: nat, b: seq<Byte>, p: nat, x: seq<Group>, end: nat, y: seq<Group>)
    requires Stretch(count, b, p, x, end) && Holds(count, b, end, y)
    ensures Holds(count, b, p, x + y)
    decreases |x|
  {
    if x == [] {
      assert x + y == y;
    } else {
      assert (x + y)[1..] == x[1..] + y;
      Joins(count, b, p + Length(x[0]), x[1..], end, y);
    }
  }

  lemma {:induction false} StretchFrame(count: nat, b: seq<Byte>, c: seq<Byte>, p: nat, gs: seq<Group>, end: nat)
    requires Stretch(count, b, p, gs, end) && Same(b, c, 0, end)
    ensures p <= end && Stretch(count, c, p, gs, end)
    decreases |gs|
  {
    if gs != [] {
      StretchFrame(count, b, c, p + Length(gs[0]), gs[1..], end);
      GroupFrame(count, b, c, p, gs[0]);
    }
  }

  lemma MergeLater(gs: seq<Group>, i: nat)
    requires 0 < i < |gs|
    ensures Merge(gs, i) == gs[..i - 1] + Merge(gs[i - 1..], 1)
  {
    var tail := gs[i - 1..];
    assert tail[0] == gs[i - 1] && tail[1] == gs[i] && tail[2..] == gs[i + 1..];
  }

  lemma DeleteHolds(count: nat, b: seq<Byte>, c: seq<Byte>, gs: seq<Group>, i: nat, at: nat, n: nat)
    requires 0 < i < |gs| && Holds(count, b, 0, gs) && Recoverable(count, gs[i].live)
    requires at == StartOf(gs, i - 1) && n == Length(gs[i - 1]) + Length(gs[i]) && LengthWritten(b, c, at, n)
    ensures Holds(count, c, 0, Merge(gs, i))
  {
    Splits(count, b, 0, gs, i - 1);
    StretchFrame(count, b, c, 0, gs[..i - 1], at);
    DeleteSecond(count, b, c, at, gs[i - 1..]);
    Joins(count, c, 0, gs[..i - 1], at, Merge(gs[i - 1..], 1));
    MergeLater(gs, i);
  }

  lemma StartsInside(count: nat, b: seq<Byte>, p: nat, gs: seq<Group>, i: nat)
    requires Holds(count, b, p, gs) && i < |gs|
    ensures p + StartOf(gs, i) + Length(gs[i]) <= |b|
  {
    Splits(count, b, p, gs, i);
    assert gs[i..][0] == gs[i];
  }

  /** A deletion that fits the length field, of a record with a plausible name. */
  predicate CanDelete(count: nat, gs: seq<Group>, i: nat) {
    0 < i < |gs| && Length(gs[i - 1]) + Length(gs[i]) < 0x1_0000 && Recoverable(count, gs[i].live)
  }

  lemma DeleteWrites(count: nat, b: seq<Byte>, gs: seq<Group>, i: nat)
    requires Holds(count, b, 0, gs) && CanDelete(count, gs, i)
    ensures StartOf(gs, i - 1) + 6 <= |b|
    ensures Holds(count, Delete(b, gs, i), 0, Merge(gs, i))
  {
    StartsInside(count, b, 0, gs, i - 1);
    var c := Delete(b, gs, i);
    var p := StartOf(gs, i - 1);
    forall j | 0 <= j < |b| && !(p + 4 <= j < p + 6) ensures b[j] == c[j] {
      assert ByteOrZero(c, j) == ByteOrZero(b, j);
    }
    WrittenLength(b, p + 4, Length(gs[i - 1]) + Length(gs[i]));
    DeleteHolds(count, b, c, gs, i, p, Length(gs[i - 1]) + Length(gs[i]));
  }

  lemma WrittenLength(b: seq<Byte>, p: nat, n: nat)
    requires p + 2 <= |b| && n < 0x1_0000
    ensures LeU16(Write(b, p, ToLe16(n)), p) == n
  {
    var c := Write(b, p, ToLe16(n));
    assert ByteOrZero(c, p) == ToLe16(n)[0] && ByteOrZero(c, p + 1) == ToLe16(n)[1];
    assert LeU16(ToLe16(n), 0) == n;
  }

  // ----------------------------------------------------------------- deletion is undone

  /** Entries without the mark that says they are deleted. */
  function Unmarked(es: seq<DirEntry>): (r: seq<Rec>)
    ensures |r| == |es|
  {
    seq(|es|, i requires 0 <= i < |es| => Rec(es[i].inode, es[i].name, es[i].fileType))
  }

  predicate SameButMarks(x: seq<DirEntry>, y: seq<DirEntry>) {
    |x| == |y| && forall i | 0 <= i < |x| :: x[i] == y[i].(deleted := x[i].deleted)
  }

  lemma SameUnmarked(x: seq<DirEntry>, y: seq<DirEntry>)
    ensures SameButMarks(x, y) <==> Unmarked(x) == Unmarked(y)
  {
    if Unmarked(x) == Unmarked(y) {
      forall i | 0 <= i < |x| ensures x[i] == y[i].(deleted := x[i].deleted) {
        assert Unmarked(x)[i] == Unmarked(y)[i];
      }
    }
  }

  lemma {:induction false} SameStaleEntries(ps: seq<Piece>, x: seq<DirEntry>, y: seq<DirEntry>)
    requires SameButMarks(x, y)
    ensures SameButMarks(StaleEntries(ps, x), StaleEntries(ps, y))
    decreases |ps|
  {
    if ps != [] {
      match ps[0]
      case Stale(r) => SameStaleEntries(ps[1..], x + [EntryOf(r, true)], y + [EntryOf(r, true)]);
      case Zeros(_) => SameStaleEntries(ps[1..], x, y);
    }
  }

  lemma SameEntries(g: Group, x: seq<DirEntry>, y: seq<DirEntry>)
    requires SameButMarks(x, y)
    ensures SameButMarks(Entries(g, x), Entries(g, y))
  {
    if Plausible(g.live.name) {
      SameStaleEntries(g.slack, x + [EntryOf(g.live, false)], y + [EntryOf(g.live, false)]);
    } else {
      SameStaleEntries(g.slack, x, y);
    }
  }

  lemma {:induction false} SameListing(gs: seq<Group>, x: seq<DirEntry>, y: seq<DirEntry>)
    requires SameButMarks(x, y)
    ensures SameButMarks(Listing(gs, x), Listing(gs, y))
    decreases |gs|
  {
    if gs != [] {
      SameEntries(gs[0], x, y);
      SameListing(gs[1..], Entries(gs[0], x), Entries(gs[0], y));
    }
  }

  lemma {:induction false} StaleEntriesConcat(a: seq<Piece>, b: seq<Piece>, out: seq<DirEntry>)
    ensures StaleEntries(a + b, out) == StaleEntries(b, StaleEntries(a, out))
    decreases |a|
  {
    if a == [] {
      assert a + b == b;
    } else {
      assert (a + b)[1..] == a[1..] + b;
      match a[0]
      case Stale(r) => StaleEntriesConcat(a[1..], b, out + [EntryOf(r, true)]);
      case Zeros(_) => StaleEntriesConcat(a[1..], b, out);
    }
  }

  /** The absorbing group lists the victim where it stood, now as deleted. */
  lemma EntriesOfAbsorb(a: Group, v: Group, out: seq<DirEntry>)
    ensures Entries(Absorb(a, v), out) == StaleEntries(v.slack, Entries(a, out) + [EntryOf(v.live, true)])
  {
    var start := if Plausible(a.live.name) then out + [EntryOf(a.live, false)] else out;
    var one := [Stale(v.live)];
    StaleEntriesConcat(a.slack + one, v.slack, start);
    StaleEntriesConcat(a.slack, one, start);
    var so := StaleEntries(a.slack, start);
    assert one[1..] == [] && StaleEntries(one[1..], so + [EntryOf(v.live, true)]) == so + [EntryOf(v.live, true)];
  }

  lemma SameAfterAbsorb(a: Group, v: Group, out: seq<DirEntry>)
    requires Plausible(v.live.name)
    ensures SameButMarks(Entries(Absorb(a, v), out), Entries(v, Entries(a, out)))
  {
    var so := Entries(a, out);
    EntriesOfAbsorb(a, v, out);
    SameStaleEntries(v.slack, so + [EntryOf(v.live, true)], so + [EntryOf(v.live, false)]);
  }

  lemma {:induction false} ListingOfMerge(gs: seq<Group>, i: nat, out: seq<DirEntry>)
    requires 0 < i < |gs| && Plausible(gs[i].live.name)
    ensures SameButMarks(Listing(Merge(gs, i), out), Listing(gs, out))
    decreases i
  {
    var rest := gs[1..];
    if i == 1 {
      assert rest[1..] == gs[2..] && Merge(gs, 1)[1..] == gs[2..];
      SameAfterAbsorb(gs[0], gs[1], out);
      SameListing(gs[2..], Entries(Absorb(gs[0], gs[1]), out), Entries(gs[1], Entries(gs[0], out)));
    } else {
      assert Merge(gs, i)[1..] == Merge(rest, i - 1);
      ListingOfMerge(rest, i - 1, Entries(gs[0], out));
    }
  }

  /** A directory block and what it holds, after some deletions. */
  datatype Held = Held(block: seq<Byte>, groups: seq<Group>)

  predicate AllCanDelete(count: nat, gs: seq<Group>, victims: seq<nat>)
    decreases |victims|
  {
    victims == []
    || (CanDelete(count, gs, victims[0]) && AllCanDelete(count, Merge(gs, victims[0]), victims[1..]))
  }

  function DeleteOne(count: nat, h: Held, i: nat): (r: Held)
    requires Holds(count, h.block, 0, h.groups) && CanDelete(count, h.groups, i)
    ensures Holds(count, r.block, 0, r.groups) && r.groups == Merge(h.groups, i)
  {
    DeleteWrites(count, h.block, h.groups, i);
    Held(Delete(h.block, h.groups, i), Merge(h.groups, i))
  }

  function DeleteAll(count: nat, h: Held, victims: seq<nat>): Held
    requires Holds(count, h.block, 0, h.groups) && AllCanDelete(count, h.groups, victims)
    decreases |victims|
  {
    if victims == [] then h else DeleteAll(count, DeleteOne(count, h, victims[0]), victims[1..])
  }

  /** However many records were deleted, and in whatever order, the parser still
      lists what it listed before, record by record; what changed is only which
      of them are marked deleted. */
  lemma {:induction false} DeletionIsUndone(count: nat, h: Held, victims: seq<nat>)
    requires Holds(count, h.block, 0, h.groups) && AllCanDelete(count, h.groups, victims)
    requires |h.groups| <= MAX_STEPS
    ensures Unmarked(Parse(count, DeleteAll(count, h, victims).block, 0, 0, []))
         == Unmarked(Parse(count, h.block, 0, 0, []))
    ensures Parse(count, DeleteAll(count, h, victims).block, 0, 0, [])
         == Listing(DeleteAll(count, h, victims).groups, [])
    ensures |DeleteAll(count, h, victims).groups| == |h.groups| - |victims|
    decreases |victims|
  {
    ParseOfHeld(count, h.block, 0, h.groups, 0, []);
    if victims != [] {
      var next := DeleteOne(count, h, victims[0]);
      DeletionIsUndone(count, next, victims[1..]);
      ParseOfHeld(count, next.block, 0, next.groups, 0, []);
      ListingOfMerge(h.groups, victims[0], []);
      SameUnmarked(Listing(next.groups, []), Listing(h.groups, []));
    }
  }

  // --------------------------------------------------------------------- what is listed

  /** A group gives its live record, if the name is plausible, and every record
      in its slack. */
  ghost predicate Gives(g: Group, e: DirEntry) {
    if e.deleted then exists r :: Stale(r) in g.slack && e == EntryOf(r, true)
    else e == EntryOf(g.live, false) && Plausible(g.live.name)
  }

  lemma {:induction false} StaleEntriesIff(ps: seq<Piece>, out: seq<DirEntry>, e: DirEntry)
    ensures e in StaleEntries(ps, out)
       <==> e in out || (e.deleted && exists r :: Stale(r) in ps && e == EntryOf(r, true))
    decreases |ps|
  {
    if ps != [] {
      assert forall x :: x in ps <==> x == ps[0] || x in ps[1..];
      match ps[0]
      case Stale(r) => StaleEntriesIff(ps[1..], out + [EntryOf(r, true)], e);
      case Zeros(_) => StaleEntriesIff(ps[1..], out, e);
    }
  }

  lemma EntriesIff(g: Group, out: seq<DirEntry>, e: DirEntry)
    ensures e in Entries(g, out) <==> e in out || Gives(g, e)
  {
    if Plausible(g.live.name) {
      StaleEntriesIff(g.slack, out + [EntryOf(g.live, false)], e);
    } else {
      StaleEntriesIff(g.slack, out, e);
    }
  }

  lemma {:induction false} ListingIff(gs: seq<Group>, out: seq<DirEntry>, e: DirEntry)
    ensures e in Listing(gs, out) <==> e in out || exists g :: g in gs && Gives(g, e)
    decreases |gs|
  {
    if gs != [] {
      var g := gs[0];
      assert forall x :: x in gs <==> x == g || x in gs[1..];
      EntriesIff(g, out, e);
      ListingIff(gs[1..], Entries(g, out), e);
    }
  }

  /** The parser's result on a block, entry by entry: exactly what its groups give. */
  lemma ParseListsIff(count: nat, b: seq<Byte>, gs: seq<Group>, e: DirEntry)
    requires Holds(count, b, 0, gs) && |gs| <= MAX_STEPS
    ensures e in Parse(count, b, 0, 0, []) <==> exists g :: g in gs && Gives(g, e)
  {
    ParseOfHeld(count, b, 0, gs, 0, []);
    ListingIff(gs, [], e);
  }

  /** A live record of a block is listed as live if and only if its name is
      plausible; "." and ".." are not. */
  lemma LiveIsListedIff(count: nat, b: seq<Byte>, gs: seq<Group>, i: nat)
    requires Holds(count, b, 0, gs) && |gs| <= MAX_STEPS && i < |gs|
    ensures EntryOf(gs[i].live, false) in Parse(count, b, 0, 0, []) <==> Plausible(gs[i].live.name)
    ensures !Plausible([0x2E]) && !Plausible([0x2E, 0x2E])
  {
    var e := EntryOf(gs[i].live, false);
    ParseListsIff(count, b, gs, e);
    if Plausible(gs[i].live.name) {
      assert gs[i] in gs && Gives(gs[i], e);
    }
  }

  /** A deletion moves the victim from the live entries to the deleted ones. */
  lemma VictimIsListedDeleted(count: nat, b: seq<Byte>, gs: seq<Group>, i: nat)
    requires Holds(count, b, 0, gs) && |gs| <= MAX_STEPS && CanDelete(count, gs, i)
    ensures StartOf(gs, i - 1) + 6 <= |b|
    ensures EntryOf(gs[i].live, true) in Parse(count, Delete(b, gs, i), 0, 0, [])
  {
    DeleteWrites(count, b, gs, i);
    var g, e := Absorb(gs[i - 1], gs[i]), EntryOf(gs[i].live, true);
    assert Stale(gs[i].live) in g.slack && Gives(g, e);
    assert Merge(gs, i)[i - 1] == g;
    ParseListsIff(count, Delete(b, gs, i), Merge(gs, i), e);
  }

  // ------------------------------------------------------------------------ any block

  /** An entry that may be listed: of an inode, under a name of printable bytes
      without '/', neither "." nor ".."; a deleted one is of an inode there is. */
  ghost predicate Listable(count: nat, e: DirEntry) {
    && e.inode > 0 && 0 < |e.name| <= 255 && e.name != [0x2E] && e.name != [0x2E, 0x2E]
    && (forall i | 0 <= i < |e.name| :: 0x20 <= e.name[i] && e.name[i] != 0x2F && e.name[i] != 0x7F)
    && (e.deleted ==> e.inode <= count)
  }

  ghost predicate AllListable(count: nat, out: seq<DirEntry>) { forall i | 0 <= i < |out| :: Listable(count, out[i]) }

  lemma {:induction false} SlackIsListable(count: nat, b: seq<Byte>, p: nat, end: nat, out: seq<DirEntry>)
    requires end <= |b| && AllListable(count, out)
    ensures AllListable(count, Slack(count, b, p, end, out))
    decreases end - p
  {
    if p + 8 <= end {
      if StaleThere(count, b, p, end) {
        SlackIsListable(count, b, Round4(p + 8 + NameLen(b, p)), end, out + [StaleEntry(b, p)]);
      } else {
        SlackIsListable(count, b, p + 4, end, out);
      }
    }
  }

  /** Whatever is in a block, nothing else is listed. */
  lemma {:induction false} ParseIsListable(count: nat, b: seq<Byte>, pos: nat, steps: nat, out: seq<DirEntry>)
    requires AllListable(count, out)
    ensures AllListable(count, Parse(count, b, pos, steps, out))
    decreases |b| - pos
  {
    if pos + 8 <= |b| && steps < MAX_STEPS && LeU16(b, pos + 4) >= 8 && pos + LeU16(b, pos + 4) <= |b| {
      var end := pos + LeU16(b, pos + 4);
      if LeU32(b, pos) != 0 && NameLen(b, pos) > 0 && pos + 8 + NameLen(b, pos) <= |b| {
        var live := StaleEntry(b, pos).(deleted := false);
        SlackIsListable(count, b, Round4(pos + Round4(8 + NameLen(b, pos))), end,
                        if Plausible(NameAt(b, pos)) then out + [live] else out);
      } else {
        SlackIsListable(count, b, Round4(pos + 8), end, out);
      }
      ParseIsListable(count, b, end, steps + 1, Yield(count, b, pos, out));
    }
  }

  /** A record in slack is listed and passed over if its entry may be listed;
      otherwise the search goes on four bytes further, inside it. */
  lemma StaleIsListedIff(count: nat, b: seq<Byte>, p: nat, r: Rec, end: nat, out: seq<DirEntry>)
    requires p % 4 == 0 && p + Tight(r) <= end <= |b| && RecordAt(b, p, r)
    ensures Slack(count, b, p, end, out)
         == if Listable(count, EntryOf(r, true)) then Slack(count, b, p + Tight(r), end, out + [EntryOf(r, true)])
            else Slack(count, b, p + 4, end, out)
  {
    NameIs(b, p, r);
    Round4Of(p, 8 + |r.name|);
  }

  /** A record that has no inode gives nothing itself; after its eight bytes, all
      of it is slack. */
  lemma UnusedIsSlack(count: nat, b: seq<Byte>, p: nat, ps: seq<Piece>, out: seq<DirEntry>)
    requires p % 4 == 0 && SlackLength(ps) < 0xFFF8
    requires At(b, p, ToLe32(0)) && At(b, p + 4, ToLe16(8 + SlackLength(ps)))
    requires p + 8 + SlackLength(ps) <= |b| && SlackAt(count, b, p + 8, ps)
    ensures Yield(count, b, p, out) == StaleEntries(ps, out)
  {
    Reads32(b, p, 0);
    Reads16(b, p + 4, 8 + SlackLength(ps));
    SumOf4(p, 8);
    Round4Of(p, 8);
    SlackOfPieces(count, b, p + 8, ps, out);
  }

  /** After 100,000 records nothing more is listed. */
  lemma AfterTheLimit(count: nat, b: seq<Byte>, pos: nat, steps: nat, out: seq<DirEntry>)
    requires steps >= 100_000
    ensures Parse(count, b, pos, steps, out) == out
  {
  }

  /** The limit of records is met by no block of up to a megabyte. */
  lemma {:induction false} HeldIsShort(count: nat, b: seq<Byte>, p: nat, gs: seq<Group>)
    requires Holds(count, b, p, gs) && p <= |b|
    ensures p + 12 * |gs| <= |b|
    ensures |b| < 1_200_000 ==> |gs| <= MAX_STEPS
    decreases |gs|
  {
    if gs != [] {
      assert Length(gs[0]) >= 12;
      HeldIsShort(count, b, p + Length(gs[0]), gs[1..]);
    }
  }
}
