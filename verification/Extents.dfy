/** Byte extents and what they mean: the address of every byte of a file
    (crates/reclaim-fs-core/src/lib.rs:107-126), and the two trimming loops
    (crates/fs-ext/src/inode.rs:248-269, crates/fs-apfs/src/lib.rs:1063-1078). */
module Extents {
  import opened Arith

  datatype Extent = Extent(offset: nat, len: nat)

  /** The addresses `a, a + 1, .. a + n - 1`. */
  ghost function Range(a: nat, n: nat): (r: seq<nat>)
    ensures |r| == n && forall i | 0 <= i < n :: r[i] == a + i
  {
    seq(n, i => a + i)
  }

  /** The address of every byte, in file order. */
  ghost function Flatten(es: seq<Extent>): seq<nat> {
    if es == [] then [] else Flatten(es[..|es| - 1]) + Range(es[|es| - 1].offset, es[|es| - 1].len)
  }

  function Total(es: seq<Extent>): nat {
    if es == [] then 0 else Total(es[..|es| - 1]) + es[|es| - 1].len
  }

  lemma {:induction false} FlattenLength(es: seq<Extent>)
    ensures |Flatten(es)| == Total(es)
  {
    if es != [] {
      FlattenLength(es[..|es| - 1]);
    }
  }

  lemma {:induction false} FlattenConcat(a: seq<Extent>, b: seq<Extent>)
    ensures Flatten(a + b) == Flatten(a) + Flatten(b)
    decreases |b|
  {
    if b == [] {
      assert a + b == a;
    } else {
      assert (a + b)[..|a + b| - 1] == a + b[..|b| - 1];
      FlattenConcat(a, b[..|b| - 1]);
    }
  }

  lemma FlattenSnoc(es: seq<Extent>, e: Extent)
    ensures Flatten(es + [e]) == Flatten(es) + Range(e.offset, e.len)
  {
    assert (es + [e])[..|es|] == es;
  }

  lemma FlattenPrefix(es: seq<Extent>, k: nat)
    requires k <= |es|
    ensures Flatten(es[..k]) <= Flatten(es)
  {
    FlattenConcat(es[..k], es[k..]);
    assert es[..k] + es[k..] == es;
  }

  /** Growing the last extent by what follows it on disk. */
  lemma FlattenGrow(es: seq<Extent>, n: nat)
    requires es != []
    ensures Flatten(es[|es| - 1 := Extent(es[|es| - 1].offset, es[|es| - 1].len + n)])
         == Flatten(es) + Range(es[|es| - 1].offset + es[|es| - 1].len, n)
  {
    var last := es[|es| - 1];
    var grown := es[|es| - 1 := Extent(last.offset, last.len + n)];
    assert grown[..|es| - 1] == es[..|es| - 1];
    assert Range(last.offset, last.len + n) == Range(last.offset, last.len) + Range(last.offset + last.len, n);
  }

  /** Taking `n` bytes more of a file, by taking some of its next extent. */
  lemma TakeMore(extents: seq<Extent>, i: nat, acc: nat, n: nat)
    requires i < |extents| && acc == Total(extents[..i]) && n <= extents[i].len
    ensures acc + n <= |Flatten(extents)|
    ensures Flatten(extents)[..acc] + Range(extents[i].offset, n) == Flatten(extents)[..acc + n]
    ensures Total(extents[..i + 1]) == acc + extents[i].len
  {
    var before, upTo := extents[..i], extents[..i + 1];
    assert upTo[..i] == before && upTo[i] == extents[i];
    FlattenLength(before);
    FlattenLength(upTo);
    FlattenPrefix(extents, i + 1);
    FlattenPrefix(extents, i);
    assert Flatten(upTo) == Flatten(before) + Range(extents[i].offset, extents[i].len);
  }

  /** Where a trimming loop stands: the first `acc` bytes, from `i` extents. */
  ghost predicate Trimmed(extents: seq<Extent>, size: nat, r: seq<Extent>, i: nat, acc: nat) {
    && i <= |r| == |extents| && r[i..] == extents[i..]
    && acc <= size && acc <= |Flatten(extents)| && Flatten(r[..i]) == Flatten(extents)[..acc]
    && (acc < size ==> acc == Total(extents[..i]))
  }

  lemma TrimStep(extents: seq<Extent>, size: nat, r: seq<Extent>, i: nat, acc: nat)
    requires Trimmed(extents, size, r, i, acc) && acc < size && i < |r|
    ensures var e := extents[i];
            var take := Min(e.len, size - acc);
            r[i] == e && Trimmed(extents, size, r[i := Extent(e.offset, take)], i + 1, acc + take)
  {
    var e := extents[i];
    assert r[i] == r[i..][0] == e;
    var take := Min(e.len, size - acc);
    var r' := r[i := Extent(e.offset, take)];
    TakeMore(extents, i, acc, take);
    assert r'[..i + 1] == r[..i] + [Extent(e.offset, take)];
    FlattenSnoc(r[..i], Extent(e.offset, take));
    assert r'[i + 1..] == r[i..][1..] && extents[i + 1..] == extents[i..][1..];
  }

  lemma TrimDone(extents: seq<Extent>, size: nat, r: seq<Extent>, i: nat, acc: nat)
    requires Trimmed(extents, size, r, i, acc) && (acc >= size || i == |r|)
    ensures Flatten(r[..i]) == Flatten(extents)[..Min(size, |Flatten(extents)|)]
  {
    if acc < size {
      assert extents[..i] == extents;
      FlattenLength(extents);
    }
  }

  /** `trim_to_size`: exactly the first `size` bytes stay. */
  method TrimToSize(extents: seq<Extent>, size: nat) returns (r: seq<Extent>)
    ensures Flatten(r) == Flatten(extents)[..Min(size, |Flatten(extents)|)]
  {
    if size == 0 {
      return [];
    }
    r := extents;
    var acc: nat, keep: nat := 0, 0;
    for i := 0 to |extents|
      invariant keep == i && Trimmed(extents, size, r, i, acc)
    {
      if acc >= size {
        keep := i;
        break;
      }
      TrimStep(extents, size, r, i, acc);
      var remaining := size - acc;
      var e := r[i];
      if e.len > remaining {
        r := r[i := Extent(e.offset, remaining)];
      }
      assert r[i := r[i]] == r;
      acc := acc + r[i].len;
      keep := i + 1;
    }
    TrimDone(extents, size, r, keep, acc);
    r := r[..keep];
  }

  /** `trim_extents_to`: the same for APFS, which has no early return. */
  method TrimExtentsTo(extents: seq<Extent>, size: nat) returns (r: seq<Extent>)
    ensures Flatten(r) == Flatten(extents)[..Min(size, |Flatten(extents)|)]
  {
    r := extents;
    var acc: nat, keep: nat := 0, 0;
    for i := 0 to |extents|
      invariant keep == i && Trimmed(extents, size, r, i, acc)
    {
      if acc >= size {
        break;
      }
      TrimStep(extents, size, r, i, acc);
      var remaining := size - acc;
      var e := r[i];
      if e.len > remaining {
        r := r[i := Extent(e.offset, remaining)];
      }
      assert r[i := r[i]] == r;
      acc := acc + r[i].len;
      keep := keep + 1;
    }
    TrimDone(extents, size, r, keep, acc);
    r := r[..keep];
  }
}
