/**
 A byte array written in 4096-byte chunks, each once and in any order. While it is under way the array is as
 long as its furthest chunk and zero where nothing was written yet.
 */
module Chunks {
  import opened Bytes
  import opened Providers
  import opened CacheModel
  import opened RunTheory

  /** Number of chunks of n bytes. */
  function Count(n: nat): nat {
    (n + 4095) / 4096
  }

  /** Where chunk k of n bytes ends. */
  function End(n: nat, k: nat): nat {
    Min(4096 * k + 4096, n)
  }

  function Chunk(p: seq<byte>, k: nat): (r: seq<byte>)
    requires k < Count(|p|)
    ensures 0 < |r| <= 4096 && 4096 * k + |r| == End(|p|, k)
  {
    p[4096 * k..End(|p|, k)]
  }

  /** What stands in the array when the chunks in `done` have been written. */
  ghost predicate Built(p: seq<byte>, done: set<nat>, content: seq<byte>) {
    && (forall k :: k in done ==> k < Count(|p|) && End(|p|, k) <= |content|)
    && (content != [] ==> exists k :: k in done && |content| == End(|p|, k))
    && |content| <= |p|
    && forall i :: 0 <= i < |content| ==> content[i] == if i / 4096 in done then p[i] else 0
  }

  /** Writing one more chunk keeps the picture: a gap is zero-filled, a filled gap is overwritten. */
  lemma BuildStep(p: seq<byte>, done: set<nat>, content: seq<byte>, k: nat)
    requires Built(p, done, content) && k < Count(|p|)
    ensures Built(p, done + {k}, ArrayWrite(content, 4096 * k, Chunk(p, k)))
  {
    var off, d := 4096 * k, Chunk(p, k);
    var r := ArrayWrite(content, off, d);
    forall i | 0 <= i < |r| ensures r[i] == if i / 4096 in done + {k} then p[i] else 0 {
      SpliceAt(ZeroExtend(content, off), off, d, i);
      ChunkOf(p, done, content, k, i);
    }
    BuildLength(p, done, content, k);
  }

  lemma ChunkOf(p: seq<byte>, done: set<nat>, content: seq<byte>, k: nat, i: nat)
    requires Built(p, done, content) && k < Count(|p|)
    requires i < Max(|content|, End(|p|, k))
    ensures 4096 * k <= i < End(|p|, k) ==> i / 4096 == k
    ensures !(4096 * k <= i < End(|p|, k)) ==> i / 4096 != k
    ensures |content| <= i ==> i / 4096 !in done
  {
    assert i / 4096 in done ==> End(|p|, i / 4096) <= |content|;
  }

  lemma BuildLength(p: seq<byte>, done: set<nat>, content: seq<byte>, k: nat)
    requires Built(p, done, content) && k < Count(|p|)
    ensures var r := ArrayWrite(content, 4096 * k, Chunk(p, k));
            && |r| == Max(|content|, End(|p|, k)) <= |p|
            && (forall j :: j in done + {k} ==> End(|p|, j) <= |r|)
            && exists j :: j in done + {k} && |r| == End(|p|, j)
  {
    var r := ArrayWrite(content, 4096 * k, Chunk(p, k));
    if |r| == End(|p|, k) {
      assert k in done + {k};
    } else {
      var j :| j in done && |content| == End(|p|, j);
      assert j in done + {k} && |r| == End(|p|, j);
    }
  }

  /** Once every chunk is there the array is the whole. */
  lemma BuiltAll(p: seq<byte>, done: set<nat>, content: seq<byte>)
    requires Built(p, done, content)
    requires forall k :: 0 <= k < Count(|p|) ==> k in done
    ensures content == p
  {
    if p != [] {
      var last := (|p| - 1) / 4096;
      assert last in done && End(|p|, last) == |p|;
      forall i | 0 <= i < |p| ensures content[i] == p[i] {
        assert i / 4096 < Count(|p|);
      }
    }
  }

  /** A chunk that was not written yet never needs the last block back, so even the padded mode takes it. */
  lemma ChunkWritable(c: Cache, p: seq<byte>, done: set<nat>, content: seq<byte>, k: nat)
    requires Built(p, done, content) && k < Count(|p|) && k !in done
    requires c.simple.provider.Legal(|p|)
    ensures CanWriteAt(c, |content|, 4096 * k, |Chunk(p, k)|)
    ensures c.simple.provider.Legal(|content|)
  {
    var size := |content|;
    if size > 0 {
      var m :| m in done && size == End(|p|, m);
      LegalEnd(c.simple.provider, |p|, m);
      if c.simple.provider.Padded() {
        assert (size - 1) / 4096 == m;
        if 4096 * k < size {
          assert 4096 * k / 4096 == k;
        } else {
          assert size == 4096 * m + 4096;
        }
      }
    }
  }

  lemma LegalEnd(p: Provider, n: nat, m: nat)
    requires p.Legal(n)
    ensures p.Legal(End(n, m))
  {
    if End(n, m) != n {
      AddMultiple16(256 * m + 256, 0);
    }
  }

  // ---------------------------------------------------------------- any order

  /** Every chunk number of n bytes once. */
  ghost predicate IsOrder(n: nat, order: seq<nat>) {
    && (forall i :: 0 <= i < |order| ==> order[i] < Count(n))
    && (forall i, j :: 0 <= i < j < |order| ==> order[i] != order[j])
    && (forall k :: 0 <= k < Count(n) ==> k in order)
  }

  function NumbersIn(order: seq<nat>): set<nat> {
    set k | k in order
  }

  function WriteInOrder(content: seq<byte>, p: seq<byte>, order: seq<nat>): seq<byte>
    requires forall i :: 0 <= i < |order| ==> order[i] < Count(|p|)
    decreases order
  {
    if order == [] then content
    else WriteInOrder(ArrayWrite(content, 4096 * order[0], Chunk(p, order[0])), p, order[1..])
  }

  lemma {:induction false} WriteInOrderBuilds(content: seq<byte>, p: seq<byte>, order: seq<nat>, done: set<nat>)
    requires Built(p, done, content)
    requires forall i :: 0 <= i < |order| ==> order[i] < Count(|p|)
    ensures Built(p, done + NumbersIn(order), WriteInOrder(content, p, order))
    decreases order
  {
    hide Built, ArrayWrite, Chunk, Count;
    if order == [] {
      assert done + NumbersIn(order) == done;
    } else {
      BuildStep(p, done, content, order[0]);
      WriteInOrderBuilds(ArrayWrite(content, 4096 * order[0], Chunk(p, order[0])), p, order[1..], done + {order[0]});
      assert done + {order[0]} + NumbersIn(order[1..]) == done + NumbersIn(order) by {
        assert order == [order[0]] + order[1..];
      }
    }
  }

  /** Writing every chunk of p into an empty array gives p, whatever the order. */
  lemma OrderDoesNotMatter(p: seq<byte>, order: seq<nat>)
    requires IsOrder(|p|, order)
    ensures WriteInOrder([], p, order) == p
  {
    WriteInOrderBuilds([], p, order, {});
    BuiltAll(p, {} + NumbersIn(order), WriteInOrder([], p, order));
  }
}
