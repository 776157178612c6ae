/** Signature patterns, their anchors, and the chunked search for them
    (crates/reclaim-sigs/build.rs, crates/reclaim-sigs/src/lib.rs,
    crates/reclaim-carve/src/matcher.rs and the read loop of engine.rs).

    The Aho-Corasick automaton is an oracle that lists all occurrences of the
    anchors, overlapping ones included. */
module AnchorSearch {
  import opened Arith
  import opened Wrappers
  import CarveEngine

  type Byte = bv8

  const CHUNK: nat := CarveEngine.CHUNK
  const MIN_ANCHOR_LEN: nat := 2

  // -------------------------------------------------- compiling one pattern

  /** A whitespace-separated token of a catalog pattern. */
  datatype Token = Wildcard | Hex(value: Byte) | Malformed

  method ParsePattern(tokens: seq<Token>) returns (r: Option<(seq<Byte>, seq<Byte>)>)
    ensures r.Some? <==> tokens != [] && Malformed !in tokens
    ensures r.Some? ==>
      && |r.value.0| == |r.value.1| == |tokens|
      && forall i | 0 <= i < |tokens| ::
           match tokens[i]
           case Hex(b) => r.value.0[i] == b && r.value.1[i] == 0xFF
           case _ => r.value.0[i] == 0 && r.value.1[i] == 0
  {
    var bytes: seq<Byte>, mask: seq<Byte> := [], [];
    for i := 0 to |tokens|
      invariant |bytes| == |mask| == i && Malformed !in tokens[..i]
      invariant forall j | 0 <= j < i ::
        match tokens[j]
        case Hex(b) => bytes[j] == b && mask[j] == 0xFF
        case _ => bytes[j] == 0 && mask[j] == 0
    {
      match tokens[i] {
        case Wildcard => bytes, mask := bytes + [0], mask + [0x00];
        case Hex(b) => bytes, mask := bytes + [b], mask + [0xFF];
        case Malformed => return None;
      }
    }
    if bytes == [] {
      return None;
    }
    assert tokens[..|tokens|] == tokens;
    return Some((bytes, mask));
  }

  predicate Literal(mask: seq<Byte>, lo: int, hi: int)
    requires 0 <= lo <= hi <= |mask|
  {
    forall k | lo <= k < hi :: mask[k] == 0xFF
  }

  /** The first of the longest literal runs, or none if there is no literal. */
  method ExtractAnchor(bytes: seq<Byte>, mask: seq<Byte>) returns (r: Option<(seq<Byte>, nat)>)
    requires |bytes| == |mask|
    ensures r.None? <==> 0xFF !in mask
    ensures r.Some? ==>
      var (anchor, start) := r.value;
      && 0 < |anchor| && start + |anchor| <= |bytes|
      && anchor == bytes[start..start + |anchor|] && Literal(mask, start, start + |anchor|)
      && forall lo, hi | 0 <= lo <= hi <= |mask| && Literal(mask, lo, hi) ::
           hi - lo < |anchor| || (hi - lo == |anchor| && start <= lo)
  {
    var bestStart, bestLen := 0, 0;
    var i := 0;
    while i < |mask|
      invariant 0 <= i <= |mask| && 0 <= bestStart && 0 <= bestLen && bestStart + bestLen <= i
      invariant i < |mask| && i > 0 ==> mask[i] != 0xFF || mask[i - 1] != 0xFF
      invariant Literal(mask, bestStart, bestStart + bestLen)
      invariant forall lo, hi | 0 <= lo < hi <= i && Literal(mask, lo, hi) ::
        hi - lo < bestLen || (hi - lo == bestLen && bestStart <= lo)
    {
      if mask[i] == 0xFF {
        var start := i;
        while i < |mask| && mask[i] == 0xFF
          invariant start <= i <= |mask| && Literal(mask, start, i)
        {
          i := i + 1;
        }
        var len := i - start;
        assert start > 0 ==> mask[start - 1] != 0xFF;
        assert forall lo, hi | 0 <= lo < hi <= i && Literal(mask, lo, hi) :: lo >= start || hi <= start;
        if len > bestLen {
          bestLen := len;
          bestStart := start;
        }
      } else {
        forall lo, hi | 0 <= lo < hi <= i + 1 && Literal(mask, lo, hi)
          ensures hi <= i
        {
        }
        i := i + 1;
      }
    }
    if bestLen == 0 {
      forall k | 0 <= k < |mask| ensures mask[k] != 0xFF {
        if mask[k] == 0xFF {
          assert Literal(mask, k, k + 1);
        }
      }
      return None;
    }
    assert mask[bestStart] == 0xFF;
    return Some((bytes[bestStart..bestStart + bestLen], bestStart));
  }

  datatype HeaderPat = HeaderPat(bytes: seq<Byte>, mask: seq<Byte>, offset: nat, anchor: seq<Byte>, anchorPos: nat)

  predicate WellFormed(h: HeaderPat) {
    && |h.bytes| == |h.mask|
    && h.anchorPos + |h.anchor| <= |h.bytes|
    && h.anchor == h.bytes[h.anchorPos..h.anchorPos + |h.anchor|]
    && Literal(h.mask, h.anchorPos, h.anchorPos + |h.anchor|)
  }

  /** The header is made of these tokens: a literal with a full mask for a hex
      pair, nothing with an empty mask for a wildcard. */
  predicate MadeOf(h: HeaderPat, tokens: seq<Token>) {
    && |h.bytes| == |h.mask| == |tokens| && Malformed !in tokens
    && forall i | 0 <= i < |tokens| ::
         match tokens[i]
         case Hex(b) => h.bytes[i] == b && h.mask[i] == 0xFF
         case _ => h.bytes[i] == 0 && h.mask[i] == 0
  }

  /** What the pattern's tokens say about some bytes. */
  predicate TokensMatch(tokens: seq<Token>, window: seq<Byte>) {
    |window| >= |tokens| && forall i | 0 <= i < |tokens| && tokens[i].Hex? :: window[i] == tokens[i].value
  }

  method CompileHeader(tokens: seq<Token>, offset: nat) returns (r: Option<HeaderPat>)
    ensures r.Some? <==> Malformed !in tokens && exists t | t in tokens :: t.Hex?
    ensures r.Some? ==> WellFormed(r.value) && r.value.offset == offset && MadeOf(r.value, tokens)
    ensures r.Some? ==> forall window :: Confirm(r.value, window) <==> TokensMatch(tokens, window)
  {
    var p := ParsePattern(tokens);
    if p.None? {
      return None;
    }
    var (bytes, mask) := p.value;
    var a := ExtractAnchor(bytes, mask);
    if a.None? {
      assert forall i | 0 <= i < |tokens| :: tokens[i].Hex? ==> mask[i] in mask;
      return None;
    }
    var k :| 0 <= k < |mask| && mask[k] == 0xFF;
    assert tokens[k].Hex?;
    var h := HeaderPat(bytes, mask, offset, a.value.0, a.value.1);
    assert MadeOf(h, tokens);
    forall window ensures Confirm(h, window) <==> TokensMatch(tokens, window) {
      ConfirmIsTokens(h, tokens, window);
    }
    return Some(h);
  }

  /** Confirming a header is matching its tokens, all of them. */
  lemma ConfirmIsTokens(h: HeaderPat, tokens: seq<Token>, window: seq<Byte>)
    requires MadeOf(h, tokens)
    ensures Confirm(h, window) <==> TokensMatch(tokens, window)
  {
    if |window| >= |tokens| {
      forall i | 0 <= i < |tokens|
        ensures window[i] & h.mask[i] == h.bytes[i] & h.mask[i] <==> (tokens[i].Hex? ==> window[i] == tokens[i].value)
      {
        MaskedByte(window[i], h.bytes[i]);
        assert tokens[i] in tokens;
      }
    }
  }

  lemma MaskedByte(a: Byte, b: Byte)
    ensures a & 0xFF == b & 0xFF <==> a == b
    ensures a & 0 == b & 0
  {
  }

  /** `HeaderPat::confirm`. */
  predicate Confirm(h: HeaderPat, window: seq<Byte>) {
    && |window| >= |h.bytes|
    && forall i | 0 <= i < |h.bytes| && i < |h.mask| :: window[i] & h.mask[i] == h.bytes[i] & h.mask[i]
  }

  // ------------------------------------------------------------ the matcher

  /** A catalog: each signature's header patterns. */
  type Catalog = seq<seq<HeaderPat>>

  datatype Ref = Ref(sig: nat, header: nat)

  predicate InCatalog(sigs: Catalog, r: Ref) { r.sig < |sigs| && r.header < |sigs[r.sig]| }

  function HeaderOf(sigs: Catalog, r: Ref): HeaderPat
    requires InCatalog(sigs, r)
  {
    sigs[r.sig][r.header]
  }

  /** Catalog order. */
  predicate Before(r: Ref, si: nat, hi: nat) { r.sig < si || (r.sig == si && r.header < hi) }

  predicate Distinct<T(==)>(s: seq<T>) { forall i, j | 0 <= i < j < |s| :: s[i] != s[j] }

  predicate Searchable(sigs: Catalog, r: Ref) {
    InCatalog(sigs, r) && |HeaderOf(sigs, r).anchor| >= MIN_ANCHOR_LEN
  }

  predicate Ascending(s: seq<Ref>) { forall i, j | 0 <= i < j < |s| :: Before(s[i], s[j].sig, s[j].header) }

  /** A bucket holds, in catalog order and once each, only headers before
      `(si, hi)` with its anchor. */
  predicate BucketOk(sigs: Catalog, pattern: seq<Byte>, bucket: seq<Ref>, si: nat, hi: nat) {
    Distinct(bucket) && Ascending(bucket) &&
    forall r | r in bucket :: Searchable(sigs, r) && Before(r, si, hi) && HeaderOf(sigs, r).anchor == pattern
  }

  ghost predicate Bucketed(sigs: Catalog, patterns: seq<seq<Byte>>, refs: seq<seq<Ref>>, r: Ref)
    requires |patterns| == |refs| && InCatalog(sigs, r)
  {
    exists p | 0 <= p < |refs| :: patterns[p] == HeaderOf(sigs, r).anchor && r in refs[p]
  }

  /** Each searchable header before `(si, hi)` is in exactly the bucket of its anchor. */
  ghost predicate Indexed(sigs: Catalog, patterns: seq<seq<Byte>>, refs: seq<seq<Ref>>, si: nat, hi: nat) {
    && |patterns| == |refs| && Distinct(patterns)
    && (forall p | 0 <= p < |refs| :: BucketOk(sigs, patterns[p], refs[p], si, hi))
    && (forall r | Searchable(sigs, r) && Before(r, si, hi) :: Bucketed(sigs, patterns, refs, r))
  }

  /** `Matcher::for_signatures`: group headers by anchor, in catalog order. */
  method ForSignatures(sigs: Catalog) returns (patterns: seq<seq<Byte>>, refs: seq<seq<Ref>>)
    ensures Indexed(sigs, patterns, refs, |sigs|, 0)
  {
    patterns, refs := [], [];
    for si := 0 to |sigs|
      invariant Indexed(sigs, patterns, refs, si, 0)
    {
      for hi := 0 to |sigs[si]|
        invariant Indexed(sigs, patterns, refs, si, hi)
      {
        patterns, refs := AddHeader(sigs, patterns, refs, si, hi);
      }
      MarkMoves(sigs, patterns, refs, si, |sigs[si]|, si + 1, 0);
    }
  }

  /** Moving the mark past headers that are not searchable. */
  lemma MarkMoves(sigs: Catalog, patterns: seq<seq<Byte>>, refs: seq<seq<Ref>>, si: nat, hi: nat, si': nat, hi': nat)
    requires Indexed(sigs, patterns, refs, si, hi)
    requires forall r :: Before(r, si, hi) ==> Before(r, si', hi')
    requires forall r | Searchable(sigs, r) :: Before(r, si', hi') ==> Before(r, si, hi)
    ensures Indexed(sigs, patterns, refs, si', hi')
  {
    forall p | 0 <= p < |refs| ensures BucketOk(sigs, patterns[p], refs[p], si', hi') {
      assert BucketOk(sigs, patterns[p], refs[p], si, hi);
    }
  }

  /** In a whole index a bucket holds, in catalog order, exactly the headers with
      its anchor of at least two bytes. */
  lemma BucketIff(sigs: Catalog, patterns: seq<seq<Byte>>, refs: seq<seq<Ref>>, p: nat, r: Ref)
    requires Indexed(sigs, patterns, refs, |sigs|, 0) && p < |refs| && p < |patterns|
    ensures r in refs[p] <==>
              r.sig < |sigs| && r.header < |sigs[r.sig]| && sigs[r.sig][r.header].anchor == patterns[p]
              && (|patterns[p]| >= 2)
    ensures forall i, j | 0 <= i < j < |refs[p]| ::
              refs[p][i].sig < refs[p][j].sig
              || (refs[p][i].sig == refs[p][j].sig && refs[p][i].header < refs[p][j].header)
  {
    assert BucketOk(sigs, patterns[p], refs[p], |sigs|, 0);
    if InCatalog(sigs, r) && HeaderOf(sigs, r).anchor == patterns[p] && |patterns[p]| >= 2 {
      assert Searchable(sigs, r) && Bucketed(sigs, patterns, refs, r);
      var q :| 0 <= q < |refs| && patterns[q] == HeaderOf(sigs, r).anchor && r in refs[q];
    }
  }

  /** And no such header is without a bucket. */
  lemma HasABucket(sigs: Catalog, patterns: seq<seq<Byte>>, refs: seq<seq<Ref>>, r: Ref)
    requires Indexed(sigs, patterns, refs, |sigs|, 0) && r.sig < |sigs| && r.header < |sigs[r.sig]|
    ensures |patterns| == |refs|
    ensures |sigs[r.sig][r.header].anchor| >= 2 ==> sigs[r.sig][r.header].anchor in patterns
  {
    if |sigs[r.sig][r.header].anchor| >= 2 {
      assert Searchable(sigs, r) && Bucketed(sigs, patterns, refs, r);
    }
  }

  lemma BucketKeeps(sigs: Catalog, pattern: seq<Byte>, bucket: seq<Ref>, si: nat, hi: nat)
    requires BucketOk(sigs, pattern, bucket, si, hi)
    ensures BucketOk(sigs, pattern, bucket, si, hi + 1)
  {
  }

  lemma BucketMore(sigs: Catalog, pattern: seq<Byte>, bucket: seq<Ref>, si: nat, hi: nat)
    requires BucketOk(sigs, pattern, bucket, si, hi)
    requires Searchable(sigs, Ref(si, hi)) && sigs[si][hi].anchor == pattern
    ensures BucketOk(sigs, pattern, bucket + [Ref(si, hi)], si, hi + 1)
  {
    var all := bucket + [Ref(si, hi)];
    forall i, j | 0 <= i < j < |all| ensures all[i] != all[j] && Before(all[i], all[j].sig, all[j].header) {
      assert all[i] == bucket[i] && bucket[i] in bucket;
      if j < |bucket| {
        assert all[j] == bucket[j];
      }
    }
  }

  /** Adding one header to its bucket. */
  lemma BucketGrows(sigs: Catalog, patterns: seq<seq<Byte>>, refs: seq<seq<Ref>>, si: nat, hi: nat,
                    patterns': seq<seq<Byte>>, refs': seq<seq<Ref>>, id: nat)
    requires si < |sigs| && hi < |sigs[si]| && Indexed(sigs, patterns, refs, si, hi)
    requires patterns <= patterns' && |patterns'| == |refs'| && id < |refs'| && |refs| <= |refs'| <= |refs| + 1
    requires Distinct(patterns') && patterns'[id] == sigs[si][hi].anchor && Searchable(sigs, Ref(si, hi))
    requires |refs'| > |refs| ==> id == |refs|
    requires forall p | 0 <= p < |refs'| ::
      refs'[p] == (if p < |refs| then refs[p] else []) + (if p == id then [Ref(si, hi)] else [])
    ensures Indexed(sigs, patterns', refs', si, hi + 1)
  {
    var me := Ref(si, hi);
    forall p | 0 <= p < |refs'| ensures BucketOk(sigs, patterns'[p], refs'[p], si, hi + 1) {
      var bucket := if p < |refs| then refs[p] else [];
      assert BucketOk(sigs, patterns'[p], bucket, si, hi);
      BucketKeeps(sigs, patterns'[p], bucket, si, hi);
      if p == id {
        BucketMore(sigs, patterns'[p], bucket, si, hi);
      }
      assert refs'[p] == if p == id then bucket + [me] else bucket;
    }
    forall r | Searchable(sigs, r) && Before(r, si, hi + 1) ensures Bucketed(sigs, patterns', refs', r) {
      if r == me {
        assert me in refs'[id];
      } else {
        assert Before(r, si, hi) && Bucketed(sigs, patterns, refs, r);
        var p :| 0 <= p < |refs| && patterns[p] == HeaderOf(sigs, r).anchor && r in refs[p];
        assert patterns'[p] == patterns[p] && r in refs'[p];
      }
    }
  }

  method AddHeader(sigs: Catalog, patterns: seq<seq<Byte>>, refs: seq<seq<Ref>>, si: nat, hi: nat)
    returns (patterns': seq<seq<Byte>>, refs': seq<seq<Ref>>)
    requires si < |sigs| && hi < |sigs[si]| && Indexed(sigs, patterns, refs, si, hi)
    ensures Indexed(sigs, patterns', refs', si, hi + 1)
  {
    var anchor := sigs[si][hi].anchor;
    patterns', refs' := patterns, refs;
    if |anchor| < MIN_ANCHOR_LEN {
      MarkMoves(sigs, patterns, refs, si, hi, si, hi + 1);
      return;
    }
    var id := 0;
    while id < |patterns| && patterns[id] != anchor
      invariant 0 <= id <= |patterns| && anchor !in patterns[..id]
    {
      id := id + 1;
    }
    if id == |patterns| {
      assert patterns[..|patterns|] == patterns;
      patterns', refs' := patterns + [anchor], refs + [[]];
    }
    refs' := refs'[id := refs'[id] + [Ref(si, hi)]];
    BucketGrows(sigs, patterns, refs, si, hi, patterns', refs', id);
  }

  datatype Hit = Hit(pattern: nat, start: nat)

  predicate Occurs(p: seq<Byte>, buf: seq<Byte>, at: int) {
    0 <= at && at + |p| <= |buf| && buf[at..at + |p|] == p
  }

  /** All occurrences of all patterns, each once. */
  ghost predicate AllOccurrences(patterns: seq<seq<Byte>>, buf: seq<Byte>, hits: seq<Hit>) {
    && Distinct(hits)
    && forall p: nat, at: nat :: Hit(p, at) in hits <==> p < |patterns| && Occurs(patterns[p], buf, at)
  }

  datatype Candidate = Candidate(ref: Ref, fileStart: nat)

  /** A header is reported at `fileStart` when its anchor lies in the buffer
      and its whole pattern matches there or is cut by the buffer's edge. */
  predicate Reported(h: HeaderPat, base: nat, buf: seq<Byte>, fileStart: nat) {
    && |h.anchor| >= MIN_ANCHOR_LEN
    && Occurs(h.anchor, buf, fileStart + h.offset - base + h.anchorPos)
    && NotRefuted(h, buf, fileStart + h.offset - base)
  }

  /** The pattern at `pattern` matches, or sticks out of the buffer. */
  predicate NotRefuted(h: HeaderPat, buf: seq<Byte>, pattern: int) {
    0 <= pattern && pattern + |h.bytes| <= |buf| ==> Confirm(h, buf[pattern..pattern + |h.bytes|])
  }

  /** One header of one hit's bucket. */
  method Consider(h: HeaderPat, base: nat, buf: seq<Byte>, at: nat) returns (fileStart: Option<nat>)
    requires |h.anchor| >= MIN_ANCHOR_LEN && Occurs(h.anchor, buf, at)
    ensures fileStart.Some? ==>
      Reported(h, base, buf, fileStart.value) && fileStart.value + h.offset + h.anchorPos == base + at
    ensures fileStart.None? ==>
      forall f: nat | f + h.offset + h.anchorPos == base + at :: !Reported(h, base, buf, f)
  {
    var anchorAbs := base + at;
    if anchorAbs < h.anchorPos {
      return None;
    }
    var pattStart := anchorAbs - h.anchorPos;
    if pattStart < h.offset {
      return None;
    }
    if pattStart >= base && pattStart - base + |h.bytes| <= |buf| {
      var window := buf[pattStart - base..pattStart - base + |h.bytes|];
      if !Confirm(h, window) {
        return None;
      }
    }
    return Some(pattStart - h.offset);
  }

  /** Which hit a candidate comes from. */
  predicate ComesFrom(sigs: Catalog, patterns: seq<seq<Byte>>, base: nat, c: Candidate, hit: Hit) {
    && InCatalog(sigs, c.ref) && hit.pattern < |patterns|
    && HeaderOf(sigs, c.ref).anchor == patterns[hit.pattern]
    && c.fileStart + HeaderOf(sigs, c.ref).offset + HeaderOf(sigs, c.ref).anchorPos == base + hit.start
  }

  lemma OneHit(sigs: Catalog, patterns: seq<seq<Byte>>, base: nat, c: Candidate, x: Hit, y: Hit)
    requires Distinct(patterns) && ComesFrom(sigs, patterns, base, c, x) && ComesFrom(sigs, patterns, base, c, y)
    ensures x == y
  {
  }

  lemma DistinctConcat<T>(a: seq<T>, b: seq<T>)
    requires Distinct(a) && Distinct(b) && forall x | x in a :: x !in b
    ensures Distinct(a + b)
  {
    assert forall i | 0 <= i < |a| :: a[i] in a;
    assert forall i | 0 <= i < |b| :: b[i] in b;
  }

  /** `scan_buffer`: every reported (header, file start) is emitted once. */
  method ScanBuffer(sigs: Catalog, patterns: seq<seq<Byte>>, refs: seq<seq<Ref>>,
                    base: nat, buf: seq<Byte>, hits: seq<Hit>) returns (out: seq<Candidate>)
    requires Indexed(sigs, patterns, refs, |sigs|, 0) && AllOccurrences(patterns, buf, hits)
    ensures Distinct(out)
    ensures forall c :: c in out <==> InCatalog(sigs, c.ref) && Reported(HeaderOf(sigs, c.ref), base, buf, c.fileStart)
  {
    out := [];
    for i := 0 to |hits|
      invariant Distinct(out)
      invariant forall c | c in out ::
        && InCatalog(sigs, c.ref) && Reported(HeaderOf(sigs, c.ref), base, buf, c.fileStart)
        && exists j | 0 <= j < i :: ComesFrom(sigs, patterns, base, c, hits[j])
      invariant forall j, c | 0 <= j < i && ComesFrom(sigs, patterns, base, c, hits[j])
                              && Reported(HeaderOf(sigs, c.ref), base, buf, c.fileStart) :: c in out
    {
      assert hits[i] in hits;
      var more := ScanHit(sigs, patterns, refs, base, buf, hits[i]);
      forall c | c in out ensures c !in more {
        NotFromLater(sigs, patterns, base, c, hits, i);
      }
      DistinctConcat(out, more);
      out := out + more;
    }
    forall c: Candidate | InCatalog(sigs, c.ref) && Reported(HeaderOf(sigs, c.ref), base, buf, c.fileStart)
      ensures c in out
    {
      var j := HitOf(sigs, patterns, refs, base, buf, hits, c);
    }
  }

  /** A candidate of an earlier hit is none of a later one. */
  lemma NotFromLater(sigs: Catalog, patterns: seq<seq<Byte>>, base: nat, c: Candidate, hits: seq<Hit>, i: nat)
    requires Distinct(patterns) && Distinct(hits) && i < |hits|
    requires exists j | 0 <= j < i :: ComesFrom(sigs, patterns, base, c, hits[j])
    ensures !ComesFrom(sigs, patterns, base, c, hits[i])
  {
    var j :| 0 <= j < i && ComesFrom(sigs, patterns, base, c, hits[j]);
    if ComesFrom(sigs, patterns, base, c, hits[i]) {
      OneHit(sigs, patterns, base, c, hits[j], hits[i]);
    }
  }

  /** What is reported comes from some hit. */
  lemma HitOf(sigs: Catalog, patterns: seq<seq<Byte>>, refs: seq<seq<Ref>>, base: nat, buf: seq<Byte>,
              hits: seq<Hit>, c: Candidate) returns (j: nat)
    requires Indexed(sigs, patterns, refs, |sigs|, 0) && AllOccurrences(patterns, buf, hits)
    requires InCatalog(sigs, c.ref) && Reported(HeaderOf(sigs, c.ref), base, buf, c.fileStart)
    ensures j < |hits| && ComesFrom(sigs, patterns, base, c, hits[j])
  {
    var h := HeaderOf(sigs, c.ref);
    assert Before(c.ref, |sigs|, 0);
    assert Searchable(sigs, c.ref) && Bucketed(sigs, patterns, refs, c.ref);
    var p :| 0 <= p < |refs| && patterns[p] == h.anchor && c.ref in refs[p];
    var hit := Hit(p, c.fileStart + h.offset - base + h.anchorPos);
    assert hit in hits;
    j :| 0 <= j < |hits| && hits[j] == hit;
  }

  method ScanHit(sigs: Catalog, patterns: seq<seq<Byte>>, refs: seq<seq<Ref>>,
                 base: nat, buf: seq<Byte>, hit: Hit) returns (out: seq<Candidate>)
    requires Indexed(sigs, patterns, refs, |sigs|, 0)
    requires hit.pattern < |patterns| && Occurs(patterns[hit.pattern], buf, hit.start)
    ensures Distinct(out)
    ensures forall c :: c in out <==>
      ComesFrom(sigs, patterns, base, c, hit) && Reported(HeaderOf(sigs, c.ref), base, buf, c.fileStart)
  {
    out := [];
    var bucket := refs[hit.pattern];
    assert BucketOk(sigs, patterns[hit.pattern], bucket, |sigs|, 0);
    for k := 0 to |bucket|
      invariant Distinct(out)
      invariant forall c :: c in out <==>
        c.ref in bucket[..k] && ComesFrom(sigs, patterns, base, c, hit)
        && Reported(HeaderOf(sigs, c.ref), base, buf, c.fileStart)
    {
      var r := bucket[k];
      assert r in bucket && r !in bucket[..k];
      var fileStart := Consider(HeaderOf(sigs, r), base, buf, hit.start);
      assert bucket[..k + 1] == bucket[..k] + [r];
      if fileStart.Some? {
        out := out + [Candidate(r, fileStart.value)];
      }
    }
    assert bucket[..|bucket|] == bucket;
    forall c | ComesFrom(sigs, patterns, base, c, hit) && Reported(HeaderOf(sigs, c.ref), base, buf, c.fileStart)
      ensures c.ref in bucket
    {
      assert Before(c.ref, |sigs|, 0);
      assert Searchable(sigs, c.ref) && Bucketed(sigs, patterns, refs, c.ref);
      var p :| 0 <= p < |refs| && patterns[p] == HeaderOf(sigs, c.ref).anchor && c.ref in refs[p];
      assert p == hit.pattern;
    }
  }

  // ---------------------------------------------------- the overlapped chunks

  /** MAX_HEADER_SPAN and MAX_ANCHOR_LEN, as the catalog compiler computes them. */
  method Spans(sigs: Catalog) returns (span: nat, anchorLen: nat)
    ensures span == MaxSpan(AllHeaders(sigs)) && anchorLen == MaxAnchor(AllHeaders(sigs))
  {
    span, anchorLen := 0, 0;
    for si := 0 to |sigs|
      invariant span == MaxSpan(AllHeaders(sigs[..si])) && anchorLen == MaxAnchor(AllHeaders(sigs[..si]))
    {
      assert sigs[..si + 1][..si] == sigs[..si];
      span, anchorLen := SpansOf(sigs[si], AllHeaders(sigs[..si]), span, anchorLen);
    }
    assert sigs[..|sigs|] == sigs;
  }

  /** The inner loop, over one signature's headers. */
  method SpansOf(headers: seq<HeaderPat>, ghost done: seq<HeaderPat>, span0: nat, anchorLen0: nat)
    returns (span: nat, anchorLen: nat)
    requires span0 == MaxSpan(done) && anchorLen0 == MaxAnchor(done)
    ensures span == MaxSpan(done + headers) && anchorLen == MaxAnchor(done + headers)
  {
    span, anchorLen := span0, anchorLen0;
    ghost var so := done;
    for i := 0 to |headers|
      invariant so == done + headers[..i] && span == MaxSpan(so) && anchorLen == MaxAnchor(so)
    {
      var h := headers[i];
      assert (so + [h])[..|so|] == so;
      assert done + headers[..i + 1] == so + [h];
      so := so + [h];
      span := Max(span, h.offset + |h.bytes|);
      anchorLen := Max(anchorLen, |h.anchor|);
    }
    assert headers[..|headers|] == headers;
  }

  function AllHeaders(sigs: Catalog): seq<HeaderPat> {
    if sigs == [] then [] else AllHeaders(sigs[..|sigs| - 1]) + sigs[|sigs| - 1]
  }

  function MaxSpan(hs: seq<HeaderPat>): nat {
    if hs == [] then 0
    else Max(MaxSpan(hs[..|hs| - 1]), hs[|hs| - 1].offset + |hs[|hs| - 1].bytes|)
  }

  function MaxAnchor(hs: seq<HeaderPat>): nat {
    if hs == [] then 0 else Max(MaxAnchor(hs[..|hs| - 1]), |hs[|hs| - 1].anchor|)
  }

  lemma {:induction false} SpanCovers(hs: seq<HeaderPat>, h: HeaderPat)
    requires h in hs
    ensures h.offset + |h.bytes| <= MaxSpan(hs)
  {
    if h != hs[|hs| - 1] {
      SpanCovers(hs[..|hs| - 1], h);
    }
  }

  lemma {:induction false} HeaderListed(sigs: Catalog, r: Ref)
    requires InCatalog(sigs, r)
    ensures HeaderOf(sigs, r) in AllHeaders(sigs)
  {
    if r.sig < |sigs| - 1 {
      HeaderListed(sigs[..|sigs| - 1], r);
    }
  }

  function Overlap(sigs: Catalog): nat {
    var m := Max(MaxSpan(AllHeaders(sigs)), MaxAnchor(AllHeaders(sigs)));
    if m == 0 then 0 else m - 1
  }

  /** Neither maximum is larger than it need be. */
  lemma {:induction false} MaximaAreReached(hs: seq<HeaderPat>)
    ensures hs == [] ==> MaxSpan(hs) == 0 && MaxAnchor(hs) == 0
    ensures hs != [] ==> exists h :: h in hs && h.offset + |h.bytes| == MaxSpan(hs)
    ensures hs != [] ==> exists h :: h in hs && |h.anchor| == MaxAnchor(hs)
  {
    if hs != [] {
      var last := hs[|hs| - 1];
      MaximaAreReached(hs[..|hs| - 1]);
      assert last in hs;
      if last.offset + |last.bytes| < MaxSpan(hs) {
        var h :| h in hs[..|hs| - 1] && h.offset + |h.bytes| == MaxSpan(hs);
        assert h in hs;
      }
      if |last.anchor| < MaxAnchor(hs) {
        var h :| h in hs[..|hs| - 1] && |h.anchor| == MaxAnchor(hs);
        assert h in hs;
      }
    }
  }

  /** The overlap is one byte less than the longest reach of a header from its
      file start, or the longest anchor if that is longer. */
  lemma OverlapIsLeast(sigs: Catalog)
    ensures AllHeaders(sigs) == [] ==> Overlap(sigs) == 0
    ensures Overlap(sigs) > 0 ==>
              exists h :: h in AllHeaders(sigs)
                          && (h.offset + |h.bytes| == Overlap(sigs) + 1 || |h.anchor| == Overlap(sigs) + 1)
  {
    MaximaAreReached(AllHeaders(sigs));
  }

  lemma OverlapHolds(sigs: Catalog, r: Ref)
    requires InCatalog(sigs, r)
    ensures HeaderOf(sigs, r).offset + |HeaderOf(sigs, r).bytes| <= Overlap(sigs) + 1
  {
    HeaderListed(sigs, r);
    SpanCovers(AllHeaders(sigs), HeaderOf(sigs, r));
  }

  /** The buffer read for the chunk at `pos` of a scan over `[.., hi)`. */
  function Window(sigs: Catalog, data: seq<Byte>, hi: nat, pos: nat): seq<Byte>
    requires pos < hi <= |data|
  {
    data[pos..Min(pos + CHUNK + Overlap(sigs), hi)]
  }

  /** The engine's filter on the candidates of the chunk at `pos`. */
  predicate Kept(lo: nat, pos: nat, fileStart: nat) {
    (pos <= fileStart && fileStart - pos < CHUNK) || (fileStart < pos && pos == lo)
  }

  predicate KeptIn(sigs: Catalog, data: seq<Byte>, lo: nat, hi: nat, k: nat, c: Candidate)
    requires InCatalog(sigs, c.ref) && hi <= |data|
  {
    var pos := lo + k * CHUNK;
    && pos < hi && Kept(lo, pos, c.fileStart)
    && Reported(HeaderOf(sigs, c.ref), pos, Window(sigs, data, hi, pos), c.fileStart)
  }

  /** One chunk sees what the search of the whole range sees: the overlap
      always holds the whole pattern, unless the end of the range cuts it. */
  lemma ChunkSeesAll(sigs: Catalog, data: seq<Byte>, lo: nat, hi: nat, k: nat, c: Candidate)
    requires InCatalog(sigs, c.ref) && WellFormed(HeaderOf(sigs, c.ref)) && lo + k * CHUNK < hi <= |data|
    requires Kept(lo, lo + k * CHUNK, c.fileStart)
    ensures var pos := lo + k * CHUNK;
            Reported(HeaderOf(sigs, c.ref), pos, Window(sigs, data, hi, pos), c.fileStart)
            <==> Reported(HeaderOf(sigs, c.ref), lo, data[lo..hi], c.fileStart)
  {
    var pos, h := lo + k * CHUNK, HeaderOf(sigs, c.ref);
    OverlapHolds(sigs, c.ref);
    var end := Min(pos + CHUNK + Overlap(sigs), hi);
    assert Window(sigs, data, hi, pos) == data[pos..end];
    WindowSeesAll(h, data, lo, hi, pos, end, c.fileStart);
  }

  /** So what a chunk keeps is what the range shows at the chunk's own file starts. */
  lemma KeptInIff(sigs: Catalog, data: seq<Byte>, lo: nat, hi: nat, k: nat, c: Candidate)
    requires InCatalog(sigs, c.ref) && WellFormed(HeaderOf(sigs, c.ref)) && lo + k * CHUNK < hi <= |data|
    ensures KeptIn(sigs, data, lo, hi, k, c)
       <==> Kept(lo, lo + k * CHUNK, c.fileStart) && Reported(HeaderOf(sigs, c.ref), lo, data[lo..hi], c.fileStart)
  {
    if Kept(lo, lo + k * CHUNK, c.fileStart) {
      ChunkSeesAll(sigs, data, lo, hi, k, c);
    }
  }

  /** A window of the range, long enough for the whole pattern or cut where the
      range is, shows a header exactly when the range does. */
  lemma WindowSeesAll(h: HeaderPat, data: seq<Byte>, lo: nat, hi: nat, a: nat, b: nat, fileStart: nat)
    requires WellFormed(h) && lo <= a <= b <= hi <= |data|
    requires a <= fileStart || a == lo
    requires fileStart + h.offset + |h.bytes| <= b || b == hi
    ensures Reported(h, a, data[a..b], fileStart) <==> Reported(h, lo, data[lo..hi], fileStart)
  {
    var pattern := fileStart + h.offset;
    assert h.anchorPos + |h.anchor| <= |h.bytes|;
    SameOccurrence(data, a, b, lo, hi, h.anchor, pattern + h.anchorPos);
    SameVerdict(h, data, a, b, lo, hi, pattern);
    SameReport(h, data[a..b], a, data[lo..hi], lo, fileStart);
  }

  lemma SameReport(h: HeaderPat, x: seq<Byte>, a: nat, y: seq<Byte>, lo: nat, fileStart: nat)
    requires Occurs(h.anchor, x, fileStart + h.offset + h.anchorPos - a)
        <==> Occurs(h.anchor, y, fileStart + h.offset + h.anchorPos - lo)
    requires NotRefuted(h, x, fileStart + h.offset - a) <==> NotRefuted(h, y, fileStart + h.offset - lo)
    ensures Reported(h, a, x, fileStart) <==> Reported(h, lo, y, fileStart)
  {
  }

  lemma SameVerdict(h: HeaderPat, data: seq<Byte>, a: nat, b: nat, lo: nat, hi: nat, pattern: nat)
    requires lo <= a <= b <= hi <= |data|
    requires a <= pattern || a == lo
    requires pattern + |h.bytes| <= b || b == hi
    ensures NotRefuted(h, data[a..b], pattern - a) <==> NotRefuted(h, data[lo..hi], pattern - lo)
  {
    if a <= pattern && pattern + |h.bytes| <= b {
      SliceSlice(data, a, b, pattern - a, pattern - a + |h.bytes|);
      SliceSlice(data, lo, hi, pattern - lo, pattern - lo + |h.bytes|);
    }
  }

  /** A window into the range sees an occurrence the range has, if it reaches that far. */
  lemma SameOccurrence(data: seq<Byte>, a: nat, b: nat, lo: nat, hi: nat, anchor: seq<Byte>, at: nat)
    requires lo <= a <= b <= hi <= |data| && (a <= at || a == lo)
    requires at + |anchor| <= b || b == hi
    ensures Occurs(anchor, data[a..b], at - a) <==> Occurs(anchor, data[lo..hi], at - lo)
  {
    if a <= at && at + |anchor| <= b {
      SliceSlice(data, a, b, at - a, at - a + |anchor|);
      SliceSlice(data, lo, hi, at - lo, at - lo + |anchor|);
    }
  }

  /** Chunked search is one-shot search: a (header, file start) is reported by
      the search of the whole range exactly when some chunk reports and keeps
      it, and then only one does. */
  lemma ChunkedIsOneShot(sigs: Catalog, data: seq<Byte>, lo: nat, hi: nat, c: Candidate)
    requires InCatalog(sigs, c.ref) && WellFormed(HeaderOf(sigs, c.ref)) && lo < hi <= |data|
    ensures Reported(HeaderOf(sigs, c.ref), lo, data[lo..hi], c.fileStart) <==>
              exists k: nat :: KeptIn(sigs, data, lo, hi, k, c)
    ensures forall i: nat, j: nat | KeptIn(sigs, data, lo, hi, i, c) && KeptIn(sigs, data, lo, hi, j, c) :: i == j
  {
    var all := Reported(HeaderOf(sigs, c.ref), lo, data[lo..hi], c.fileStart);
    if all {
      var k := TheChunk(lo, c.fileStart);
      ChunkSeesAll(sigs, data, lo, hi, k, c);
      assert KeptIn(sigs, data, lo, hi, k, c);
    }
    forall k: nat | KeptIn(sigs, data, lo, hi, k, c) ensures all && k == TheChunk(lo, c.fileStart) {
      ChunkSeesAll(sigs, data, lo, hi, k, c);
    }
  }

  function TheChunk(lo: nat, fileStart: nat): nat {
    if fileStart < lo then 0 else (fileStart - lo) / CHUNK
  }

  /** Where the whole pattern is inside a buffer, a header is reported exactly if
      its tokens match the bytes there, if its anchor has two bytes or more. */
  lemma ReportedIsTokens(h: HeaderPat, tokens: seq<Token>, base: nat, buf: seq<Byte>, fileStart: nat)
    requires WellFormed(h) && MadeOf(h, tokens)
    requires base <= fileStart + h.offset && fileStart + h.offset - base + |tokens| <= |buf|
    ensures var p := fileStart + h.offset - base;
            Reported(h, base, buf, fileStart) <==> |h.anchor| >= 2 && TokensMatch(tokens, buf[p..p + |tokens|])
  {
    var p := fileStart + h.offset - base;
    var window := buf[p..p + |tokens|];
    ConfirmIsTokens(h, tokens, window);
    SliceSlice(buf, p, p + |tokens|, h.anchorPos, h.anchorPos + |h.anchor|);
    if Confirm(h, window) {
      ConfirmShowsAnchor(h, window);
    }
  }

  /** A pattern that the buffer's edge cuts is reported on its anchor alone. */
  lemma CutPatternIsReported(h: HeaderPat, base: nat, buf: seq<Byte>, fileStart: nat)
    requires fileStart + h.offset < base || fileStart + h.offset - base + |h.bytes| > |buf|
    ensures var at := fileStart + h.offset + h.anchorPos - base;
            Reported(h, base, buf, fileStart)
            <==> (|h.anchor| >= 2 && 0 <= at && at + |h.anchor| <= |buf|
                  && forall i | 0 <= i < |h.anchor| :: buf[at + i] == h.anchor[i])
  {
    var at := fileStart + h.offset + h.anchorPos - base;
    if 0 <= at && at + |h.anchor| <= |buf| {
      var there := buf[at..at + |h.anchor|];
      assert forall i | 0 <= i < |h.anchor| :: there[i] == buf[at + i];
      if forall i | 0 <= i < |h.anchor| :: buf[at + i] == h.anchor[i] {
        assert there == h.anchor;
      }
    }
  }

  /** In the range, for the tokens of the catalog: reported exactly where they match. */
  lemma OneShotIsTokens(h: HeaderPat, tokens: seq<Token>, data: seq<Byte>, lo: nat, hi: nat, fileStart: nat)
    requires WellFormed(h) && MadeOf(h, tokens) && |h.anchor| >= 2 && lo <= hi <= |data|
    requires lo <= fileStart + h.offset && fileStart + h.offset + |tokens| <= hi
    ensures Reported(h, lo, data[lo..hi], fileStart) <==>
              forall i | 0 <= i < |tokens| && tokens[i].Hex? :: data[fileStart + h.offset + i] == tokens[i].value
  {
    var p := fileStart + h.offset - lo;
    ReportedIsTokens(h, tokens, lo, data[lo..hi], fileStart);
    SliceSlice(data, lo, hi, p, p + |tokens|);
  }

  /** A pattern that matches has its anchor where it should be. */
  lemma ConfirmShowsAnchor(h: HeaderPat, window: seq<Byte>)
    requires WellFormed(h) && |window| == |h.bytes| && Confirm(h, window)
    ensures window[h.anchorPos..h.anchorPos + |h.anchor|] == h.anchor
  {
    var found := window[h.anchorPos..h.anchorPos + |h.anchor|];
    forall i | 0 <= i < |h.anchor| ensures found[i] == h.anchor[i] {
      var j := h.anchorPos + i;
      assert h.mask[j] == 0xFF && window[j] & 0xFF == h.bytes[j] & 0xFF;
      MaskedByte(window[j], h.bytes[j]);
    }
  }
}
