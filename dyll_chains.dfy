/**
 * The slot table of the Dynamic Linked-List Array, seen as a sequence of slots.
 *
 * Two chains are threaded through the table by slot index:
 *   - the in-use chain, doubly linked through `next` and `pre`, ends in LL_NULL at both ends;
 *   - the free chain, singly linked through `next`, ends in the value of the table's length
 *     (the first index past the table), which is how exhaustion is detected.
 * A chain is described by the ghost sequence of slot indices it visits, in order.
 */
module DyllChains {
  import opened Common

  /** `(size_t) -1` in the source: a link value no slot index takes. */
  const LL_NULL: int := -1

  /** One entry of the table: an owned buffer, its length, and the two links. */
  datatype Slot = Slot(data: seq<byte>, len: int, next: int, pre: int)

  /** The link that follows position k of a chain, `term` after its last position. */
  function Succ(order: seq<int>, k: int, term: int): int
    requires 0 <= k < |order|
  {
    if k + 1 < |order| then order[k + 1] else term
  }

  /** The link that precedes position k of the in-use chain. */
  function Pred(order: seq<int>, k: int): int
    requires 0 <= k < |order|
  {
    if k > 0 then order[k - 1] else LL_NULL
  }

  /** The chain visits distinct indices of a table of n slots. */
  ghost predicate Indices(order: seq<int>, n: int)
  {
    && (forall k :: 0 <= k < |order| ==> 0 <= order[k] < n)
    && (forall j, k :: 0 <= j < k < |order| ==> order[j] != order[k])
  }

  /** `order` is the in-use chain of `s`, and its slots hold `contents`, in order. */
  ghost predicate InUse(s: seq<Slot>, order: seq<int>, contents: seq<seq<byte>>)
  {
    && Indices(order, |s|)
    && |contents| == |order|
    && (forall k {:trigger s[order[k]]} :: 0 <= k < |order| ==>
          && s[order[k]].next == Succ(order, k, LL_NULL)
          && s[order[k]].pre == Pred(order, k)
          && s[order[k]].data == contents[k]
          && s[order[k]].len == |contents[k]|)
  }

  /** `free` is the free chain of `s`; its last slot links to |s|. */
  ghost predicate FreeChain(s: seq<Slot>, free: seq<int>)
  {
    && Indices(free, |s|)
    && (forall k {:trigger s[free[k]]} :: 0 <= k < |free| ==> s[free[k]].next == Succ(free, k, |s|))
  }

  /** Every slot index below n is on exactly one of the two chains. */
  ghost predicate Partition(order: seq<int>, free: seq<int>, n: int)
  {
    forall i :: 0 <= i < n ==> (i in order <==> i !in free)
  }

  /** Total payload bytes of a sequence of buffers. */
  function TotalBytes(contents: seq<seq<byte>>): nat
  {
    if contents == [] then 0 else TotalBytes(contents[..|contents| - 1]) + |contents[|contents| - 1]|
  }

  /** The buffers laid end to end. */
  function Concat(contents: seq<seq<byte>>): seq<byte>
  {
    if contents == [] then [] else Concat(contents[..|contents| - 1]) + contents[|contents| - 1]
  }

  lemma {:induction false} TotalBytesAppend(a: seq<seq<byte>>, b: seq<seq<byte>>)
    ensures TotalBytes(a + b) == TotalBytes(a) + TotalBytes(b)
    decreases |b|
  {
    if b == [] {
      assert a + b == a;
    } else {
      assert (a + b)[..|a + b| - 1] == a + b[..|b| - 1];
      TotalBytesAppend(a, b[..|b| - 1]);
    }
  }

  /** Inserting a buffer anywhere adds its length to the byte total. */
  lemma TotalBytesInsert(c: seq<seq<byte>>, p: int, x: seq<byte>)
    requires 0 <= p <= |c|
    ensures TotalBytes(c[..p] + [x] + c[p..]) == TotalBytes(c) + |x|
  {
    TotalBytesAppend(c[..p] + [x], c[p..]);
    TotalBytesAppend(c[..p], [x]);
    TotalBytesAppend(c[..p], c[p..]);
    assert c[..p] + c[p..] == c;
    assert TotalBytes([x]) == TotalBytes([x][..0]) + |x|;
  }

  /** Removing the buffer at position p subtracts its length from the byte total. */
  lemma TotalBytesRemove(c: seq<seq<byte>>, p: int)
    requires 0 <= p < |c|
    ensures TotalBytes(c[..p] + c[p + 1..]) == TotalBytes(c) - |c[p]|
  {
    var r := c[..p] + c[p + 1..];
    assert c == r[..p] + [c[p]] + r[p..];
    TotalBytesInsert(r, p, c[p]);
  }

  /** The concatenation of the buffers is exactly as long as their byte total. */
  lemma {:induction false} ConcatLength(c: seq<seq<byte>>)
    ensures |Concat(c)| == TotalBytes(c)
    decreases |c|
  {
    if c != [] {
      ConcatLength(c[..|c| - 1]);
    }
  }

  /** Growing a prefix by one buffer adds that buffer to both the total and the concatenation. */
  lemma PrefixStep(c: seq<seq<byte>>, k: int)
    requires 0 <= k < |c|
    ensures TotalBytes(c[..k + 1]) == TotalBytes(c[..k]) + |c[k]|
    ensures Concat(c[..k + 1]) == Concat(c[..k]) + c[k]
  {
    assert c[..k + 1][..k] == c[..k];
  }

  /** The byte total of a prefix and that of the rest add up to the whole total. */
  lemma TotalBytesPrefix(c: seq<seq<byte>>, j: int)
    requires 0 <= j <= |c|
    ensures TotalBytes(c[..j]) + TotalBytes(c[j..]) == TotalBytes(c)
  {
    assert c[..j] + c[j..] == c;
    TotalBytesAppend(c[..j], c[j..]);
  }

  lemma RangeMembers(lo: int, hi: int)
    requires lo <= hi
    ensures forall i :: i in Range(lo, hi) <==> lo <= i < hi
  {
    forall i | lo <= i < hi
      ensures i in Range(lo, hi)
    {
      assert Range(lo, hi)[i - lo] == i;
    }
  }

  /** A chain only holds indices that lie in the table. */
  lemma IndicesMembers(order: seq<int>, n: int)
    requires Indices(order, n)
    ensures forall i :: i in order ==> 0 <= i < n
  {
  }

  /** A fresh chunk [n, m) belongs to the free chain only. */
  lemma PartitionGrow(order: seq<int>, free: seq<int>, n: int, m: int)
    requires Partition(order, free, n) && Indices(order, n) && Indices(free, n) && n <= m
    ensures Partition(order, free + Range(n, m), m)
  {
    RangeMembers(n, m);
    IndicesMembers(order, n);
    IndicesMembers(free, n);
  }

  /** The popped free-list head belongs to neither chain any more; it is held aside. */
  lemma PartitionPop(order: seq<int>, free: seq<int>, n: int)
    requires Partition(order, free, n) && Indices(free, n) && free != []
    ensures free[0] !in order && free[0] !in free[1..]
    ensures Partition(order + [free[0]], free[1..], n)
  {
    assert free == [free[0]] + free[1..];
    forall k | 0 <= k < |free[1..]|
      ensures free[1..][k] != free[0]
    {
      assert free[1..][k] == free[k + 1];
    }
  }

  /** A slot held aside and pushed onto the free list belongs to the free chain. */
  lemma PartitionPush(order: seq<int>, free: seq<int>, n: int, e: int)
    requires Partition(order + [e], free, n) && e !in order
    ensures Partition(order, [e] + free, n)
  {
  }

  /** A slot held aside and spliced into the in-use chain belongs to the in-use chain. */
  lemma PartitionSplice(order: seq<int>, free: seq<int>, n: int, p: int, e: int)
    requires Partition(order + [e], free, n) && 0 <= p <= |order|
    ensures Partition(Inserted(order, p, e), free, n)
  {
    InsertMembers(order, p, e);
  }

  /** A slot unspliced from the in-use chain is held aside. */
  lemma PartitionUnsplice(order: seq<int>, free: seq<int>, n: int, p: int)
    requires Partition(order, free, n) && Indices(order, n) && 0 <= p < |order|
    ensures order[p] !in Removed(order, p)
    ensures Partition(Removed(order, p) + [order[p]], free, n)
  {
    RemoveMembers(order, p);
  }

  /** Membership in a chain after inserting n at position p. */
  lemma InsertMembers(order: seq<int>, p: int, n: int)
    requires 0 <= p <= |order|
    ensures forall i :: i in Inserted(order, p, n) <==> i in order || i == n
  {
    assert order == order[..p] + order[p..];
  }

  /** Membership in a chain after removing position p. */
  lemma RemoveMembers(order: seq<int>, p: int)
    requires 0 <= p < |order|
    requires forall j, k :: 0 <= j < k < |order| ==> order[j] != order[k]
    ensures forall i :: i in Removed(order, p) <==> i in order && i != order[p]
  {
    var r := order[..p] + order[p + 1..];
    assert order == order[..p] + [order[p]] + order[p + 1..];
    forall k | 0 <= k < |r|
      ensures r[k] != order[p]
    {
      if k < p {
        assert r[k] == order[k];
      } else {
        assert r[k] == order[k + 1];
      }
    }
  }

  /** The chain after inserting n at position p. */
  function Inserted(order: seq<int>, p: int, n: int): seq<int>
    requires 0 <= p <= |order|
  {
    order[..p] + [n] + order[p..]
  }

  /** Position by position, inserting shifts the tail of the chain up by one. */
  lemma InsertedAt(order: seq<int>, p: int, n: int)
    requires 0 <= p <= |order|
    ensures |Inserted(order, p, n)| == |order| + 1
    ensures forall k :: 0 <= k < |order| + 1 ==>
      Inserted(order, p, n)[k] == (if k < p then order[k] else if k == p then n else order[k - 1])
  {
  }

  /** The chain after removing position p. */
  function Removed<T>(order: seq<T>, p: int): seq<T>
    requires 0 <= p < |order|
  {
    order[..p] + order[p + 1..]
  }

  /** Position by position, removing shifts the tail of the chain down by one. */
  lemma RemovedAt<T>(order: seq<T>, p: int)
    requires 0 <= p < |order|
    ensures |Removed(order, p)| == |order| - 1
    ensures forall k :: 0 <= k < |order| - 1 ==>
      Removed(order, p)[k] == (if k < p then order[k] else order[k + 1])
  {
  }

  /**
   * s' is s after slot n was spliced in at position p of the in-use chain: only the
   * predecessor's next, the successor's pre and slot n itself were rewritten.
   */
  ghost predicate SplicedIn(s: seq<Slot>, s': seq<Slot>, order: seq<int>, p: int, n: int, x: seq<byte>)
    requires 0 <= p <= |order|
  {
    var a := if p > 0 then order[p - 1] else LL_NULL;
    var b := if p < |order| then order[p] else LL_NULL;
    && |s'| == |s| && 0 <= n < |s|
    && (forall i :: 0 <= i < |s| && i != n && i != a && i != b ==> s'[i] == s[i])
    && (a != LL_NULL ==> 0 <= a < |s| && s'[a] == s[a].(next := n))
    && (b != LL_NULL ==> 0 <= b < |s| && s'[b] == s[b].(pre := n))
    && s'[n].next == b && s'[n].pre == a && s'[n].data == x && s'[n].len == |x|
  }

  lemma InsertIndices(order: seq<int>, p: int, n: int, size: int)
    requires Indices(order, size) && 0 <= p <= |order| && 0 <= n < size && n !in order
    ensures Indices(Inserted(order, p, n), size)
  {
    var o' := Inserted(order, p, n);
    forall j, k | 0 <= j < k < |o'|
      ensures o'[j] != o'[k]
    {
      if j != p && k != p {
        var j0 := if j < p then j else j - 1;
        var k0 := if k < p then k else k - 1;
        assert o'[j] == order[j0] && o'[k] == order[k0] && j0 < k0;
      }
    }
  }

  /** The links and payload of position k after a splice, for a position before the new slot. */
  lemma InsertLinkBefore(s: seq<Slot>, s': seq<Slot>, order: seq<int>, contents: seq<seq<byte>>,
                         p: int, n: int, x: seq<byte>, k: int)
    requires InUse(s, order, contents)
    requires 0 <= p <= |order| && n !in order && SplicedIn(s, s', order, p, n, x)
    requires 0 <= k < p
    ensures var o' := Inserted(order, p, n);
            && s'[o'[k]].next == Succ(o', k, LL_NULL)
            && s'[o'[k]].pre == Pred(o', k)
            && s'[o'[k]].data == contents[k]
            && s'[o'[k]].len == |contents[k]|
  {
    var o' := Inserted(order, p, n);
    assert o'[k] == order[k];
    if k == p - 1 {
      assert s'[o'[k]] == s[order[k]].(next := n);
    } else {
      assert order[k] != order[p - 1];
      assert p < |order| ==> order[k] != order[p];
      assert s'[o'[k]] == s[order[k]];
      assert o'[k + 1] == order[k + 1];
    }
    if k > 0 {
      assert o'[k - 1] == order[k - 1];
    }
  }

  /** The links and payload of position k after a splice, for a position after the new slot. */
  lemma InsertLinkAfter(s: seq<Slot>, s': seq<Slot>, order: seq<int>, contents: seq<seq<byte>>,
                        p: int, n: int, x: seq<byte>, k: int)
    requires InUse(s, order, contents)
    requires 0 <= p <= |order| && n !in order && SplicedIn(s, s', order, p, n, x)
    requires p < k <= |order|
    ensures var o' := Inserted(order, p, n);
            && s'[o'[k]].next == Succ(o', k, LL_NULL)
            && s'[o'[k]].pre == Pred(o', k)
            && s'[o'[k]].data == contents[k - 1]
            && s'[o'[k]].len == |contents[k - 1]|
  {
    var o' := Inserted(order, p, n);
    assert o'[k] == order[k - 1];
    if k == p + 1 {
      assert s'[o'[k]] == s[order[p]].(pre := n);
    } else {
      assert order[k - 1] != order[p];
      assert p > 0 ==> order[k - 1] != order[p - 1];
      assert s'[o'[k]] == s[order[k - 1]];
      assert o'[k - 1] == order[k - 2];
    }
    if k + 1 < |o'| {
      assert o'[k + 1] == order[k];
    }
  }

  /**
   * Splicing slot n into the in-use chain at position p yields the chain with n at position p
   * and x at position p of the contents.
   */
  lemma InsertLinks(s: seq<Slot>, s': seq<Slot>, order: seq<int>, contents: seq<seq<byte>>,
                    p: int, n: int, x: seq<byte>)
    requires InUse(s, order, contents)
    requires 0 <= p <= |order| && n !in order && SplicedIn(s, s', order, p, n, x)
    ensures InUse(s', Inserted(order, p, n), contents[..p] + [x] + contents[p..])
  {
    var o' := Inserted(order, p, n);
    var c' := contents[..p] + [x] + contents[p..];
    InsertIndices(order, p, n, |s|);
    forall k | 0 <= k < |o'|
      ensures s'[o'[k]].next == Succ(o', k, LL_NULL)
      ensures s'[o'[k]].pre == Pred(o', k)
      ensures s'[o'[k]].data == c'[k]
      ensures s'[o'[k]].len == |c'[k]|
    {
      if k < p {
        InsertLinkBefore(s, s', order, contents, p, n, x, k);
        assert c'[k] == contents[k];
      } else if k > p {
        InsertLinkAfter(s, s', order, contents, p, n, x, k);
        assert c'[k] == contents[k - 1];
      } else {
        assert c'[k] == x;
        if k + 1 < |o'| {
          assert o'[k + 1] == order[p];
        }
        if k > 0 {
          assert o'[k - 1] == order[p - 1];
        }
      }
    }
  }

  /**
   * s' is s after the slot at position p was unspliced: only the predecessor's next and the
   * successor's pre were rewritten (the removed slot itself may be rewritten too).
   */
  ghost predicate SplicedOut(s: seq<Slot>, s': seq<Slot>, order: seq<int>, p: int)
    requires 0 <= p < |order|
  {
    var a := Pred(order, p);
    var b := Succ(order, p, LL_NULL);
    && |s'| == |s|
    && (forall i :: 0 <= i < |s| && i != order[p] && i != a && i != b ==> s'[i] == s[i])
    && (a != LL_NULL ==> 0 <= a < |s| && s'[a] == s[a].(next := b))
    && (b != LL_NULL ==> 0 <= b < |s| && s'[b] == s[b].(pre := a))
  }

  lemma RemoveLinkAt(s: seq<Slot>, s': seq<Slot>, order: seq<int>, contents: seq<seq<byte>>, p: int, k: int)
    requires InUse(s, order, contents)
    requires 0 <= p < |order| && SplicedOut(s, s', order, p)
    requires 0 <= k < |order| - 1
    ensures var o', c' := Removed(order, p), Removed(contents, p);
            && s'[o'[k]].next == Succ(o', k, LL_NULL)
            && s'[o'[k]].pre == Pred(o', k)
            && s'[o'[k]].data == c'[k]
            && s'[o'[k]].len == |c'[k]|
  {
    var o' := Removed(order, p);
    var k0 := if k < p then k else k + 1;
    assert o'[k] == order[k0];
    assert order[k0] != order[p];
    if k0 == p - 1 {
      assert s'[o'[k]] == s[order[k0]].(next := Succ(order, p, LL_NULL));
    } else if k0 == p + 1 {
      assert s'[o'[k]] == s[order[k0]].(pre := Pred(order, p));
    } else {
      assert p > 0 ==> order[k0] != order[p - 1];
      assert p + 1 < |order| ==> order[k0] != order[p + 1];
      assert s'[o'[k]] == s[order[k0]];
    }
    if k + 1 < |o'| {
      assert o'[k + 1] == order[if k + 1 < p then k + 1 else k + 2];
    }
    if k > 0 {
      assert o'[k - 1] == order[if k - 1 < p then k - 1 else k];
    }
  }

  /** Unsplicing position p yields the chain without position p. */
  lemma RemoveLinks(s: seq<Slot>, s': seq<Slot>, order: seq<int>, contents: seq<seq<byte>>, p: int)
    requires InUse(s, order, contents)
    requires 0 <= p < |order| && SplicedOut(s, s', order, p)
    ensures InUse(s', Removed(order, p), Removed(contents, p))
  {
    var o' := Removed(order, p);
    var c' := Removed(contents, p);
    forall j, k | 0 <= j < k < |o'|
      ensures o'[j] != o'[k]
    {
      var j0 := if j < p then j else j + 1;
      var k0 := if k < p then k else k + 1;
      assert o'[j] == order[j0] && o'[k] == order[k0] && j0 < k0;
    }
    forall k | 0 <= k < |o'|
      ensures s'[o'[k]].next == Succ(o', k, LL_NULL)
      ensures s'[o'[k]].pre == Pred(o', k)
      ensures s'[o'[k]].data == c'[k]
      ensures s'[o'[k]].len == |c'[k]|
    {
      RemoveLinkAt(s, s', order, contents, p, k);
    }
  }

  /** Pushing slot e onto the head of the free chain, linking it to the old head. */
  lemma FreePush(s: seq<Slot>, free: seq<int>, e: int)
    requires FreeChain(s, free)
    requires 0 <= e < |s| && e !in free
    ensures FreeChain(s[e := s[e].(next := if free == [] then |s| else free[0])], [e] + free)
  {
    var s' := s[e := s[e].(next := if free == [] then |s| else free[0])];
    var f' := [e] + free;
    forall k | 0 <= k < |f'|
      ensures s'[f'[k]].next == Succ(f', k, |s'|)
    {
      if k > 0 {
        assert f'[k] == free[k - 1] && free[k - 1] != e;
      }
    }
  }

  /** Popping the head leaves a free chain. */
  lemma FreePop(s: seq<Slot>, free: seq<int>)
    requires FreeChain(s, free) && free != []
    ensures FreeChain(s, free[1..])
  {
    var f' := free[1..];
    forall k | 0 <= k < |f'|
      ensures s[f'[k]].next == Succ(f', k, |s|)
    {
      assert f'[k] == free[k + 1];
    }
  }

  /** Rewriting slots off the free chain leaves the free chain intact. */
  lemma FreeFrame(s: seq<Slot>, s': seq<Slot>, free: seq<int>)
    requires FreeChain(s, free) && |s'| == |s|
    requires forall k :: 0 <= k < |free| ==> s'[free[k]].next == s[free[k]].next
    ensures FreeChain(s', free)
  {
  }

  /**
   * Appending a chunk whose slots link to their successors extends the free chain: its old
   * terminator |s| is the first new slot, and the new terminator is |s + t|.
   */
  lemma FreeGrow(s: seq<Slot>, t: seq<Slot>, free: seq<int>)
    requires FreeChain(s, free)
    requires forall j :: 0 <= j < |t| ==> t[j].next == |s| + j + 1
    ensures FreeChain(s + t, free + Range(|s|, |s| + |t|))
  {
    var s' := s + t;
    var f' := free + Range(|s|, |s| + |t|);
    forall k | 0 <= k < |f'|
      ensures 0 <= f'[k] < |s'|
      ensures s'[f'[k]].next == Succ(f', k, |s'|)
    {
      if k < |free| {
        assert f'[k] == free[k];
        if k + 1 < |free| {
          assert f'[k + 1] == free[k + 1];
        } else if k + 1 < |f'| {
          assert f'[k + 1] == |s|;
        }
      } else {
        assert f'[k] == |s| + (k - |free|);
        assert s'[f'[k]] == t[k - |free|];
        if k + 1 < |f'| {
          assert f'[k + 1] == |s| + (k + 1 - |free|);
        }
      }
    }
    forall j, k | 0 <= j < k < |f'|
      ensures f'[j] != f'[k]
    {
      if k < |free| {
        assert f'[j] == free[j] && f'[k] == free[k];
      } else if j < |free| {
        assert f'[j] == free[j] && f'[k] >= |s|;
      }
    }
  }

  /** Appending slots leaves the in-use chain and its contents as they were. */
  lemma InUseGrow(s: seq<Slot>, t: seq<Slot>, order: seq<int>, contents: seq<seq<byte>>)
    requires InUse(s, order, contents)
    ensures InUse(s + t, order, contents)
  {
    forall k | 0 <= k < |order|
      ensures (s + t)[order[k]] == s[order[k]]
    {
    }
  }

  /** Rewriting a slot that is on neither chain leaves both chains intact. */
  lemma DetachedFrame(s: seq<Slot>, order: seq<int>, contents: seq<seq<byte>>, free: seq<int>,
                      i: int, v: Slot)
    requires InUse(s, order, contents) && FreeChain(s, free)
    requires 0 <= i < |s| && i !in order && i !in free
    ensures InUse(s[i := v], order, contents) && FreeChain(s[i := v], free)
  {
    forall k | 0 <= k < |order|
      ensures s[i := v][order[k]] == s[order[k]]
    {
      assert order[k] in order;
    }
    forall k | 0 <= k < |free|
      ensures s[i := v][free[k]] == s[free[k]]
    {
      assert free[k] in free;
    }
  }

  /** Splicing a slot off the free chain into the in-use chain leaves the free chain intact. */
  lemma SpliceInFree(s: seq<Slot>, s': seq<Slot>, order: seq<int>, free: seq<int>,
                     p: int, n: int, x: seq<byte>)
    requires FreeChain(s, free) && Partition(order + [n], free, |s|)
    requires 0 <= p <= |order| && SplicedIn(s, s', order, p, n, x)
    requires forall k :: 0 <= k < |order| ==> order[k] >= 0
    ensures FreeChain(s', free)
  {
    forall k | 0 <= k < |free|
      ensures s'[free[k]] == s[free[k]]
    {
      var i := free[k];
      assert i in free;
      assert i !in order + [n];
      if p > 0 {
        assert order[p - 1] in order + [n];
      }
      if p < |order| {
        assert order[p] in order + [n];
      }
    }
  }

  /** Splicing a slot out of the in-use chain leaves the free chain intact. */
  lemma SpliceOutFree(s: seq<Slot>, s': seq<Slot>, order: seq<int>, free: seq<int>, p: int)
    requires FreeChain(s, free) && Partition(order, free, |s|)
    requires 0 <= p < |order| && SplicedOut(s, s', order, p)
    requires forall k :: 0 <= k < |order| ==> order[k] >= 0
    ensures FreeChain(s', free)
  {
    forall k | 0 <= k < |free|
      ensures s'[free[k]] == s[free[k]]
    {
      var i := free[k];
      assert i in free;
      assert i !in order;
      assert order[p] in order;
      if p > 0 {
        assert order[p - 1] in order;
      }
      if p + 1 < |order| {
        assert order[p + 1] in order;
      }
    }
  }
}
