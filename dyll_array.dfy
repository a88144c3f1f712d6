/**
 * The Dynamic Linked-List Array: a growable slot table in which the live elements form a
 * doubly-linked in-use list (startItem .. endItem) and the unused slots form a singly-linked
 * free list (headed by nextItem). Positions are resolved by walking the in-use list; slots are
 * handed out from, and given back to, the head of the free list; the table grows by a chunk of
 * ITEMS_INC slots only when the free list is exhausted.
 *
 * The ghost fields give the abstract view: Contents is the sequence of payloads in list order,
 * Order the slot indices of the in-use list in the same order, Free the free list in order.
 */
module DyllArray {
  import opened Common
  import opened DyllChains

  /** Slots in a new table. */
  const INIT_ITEMS: int := 10
  /** Slots added by every growth. */
  const ITEMS_INC: int := 10

  /** A payload handed back to the caller, with the length reported beside it. */
  datatype Element = Element(data: seq<byte>, len: nat)

  class DyllArray {
    var startItem: int
    var endItem: int
    var nextItem: int
    var itemsInUse: int
    var bytes: int
    var itemsAlloc: int
    var ll: array<Slot>

    ghost var Contents: seq<seq<byte>>
    ghost var Order: seq<int>
    ghost var Free: seq<int>

    /** The table, both chains and the list ends agree with the abstract view. */
    ghost predicate Links()
      reads this, ll
    {
      && ll.Length == itemsAlloc
      && itemsAlloc >= INIT_ITEMS
      && InUse(ll[..], Order, Contents)
      && FreeChain(ll[..], Free)
      && startItem == (if Order == [] then LL_NULL else Order[0])
      && endItem == (if Order == [] then LL_NULL else Order[|Order| - 1])
      && nextItem == (if Free == [] then itemsAlloc else Free[0])
    }

    /** Links, every slot on exactly one chain, and the element count. */
    ghost predicate Linked()
      reads this, ll
    {
      && Links()
      && Partition(Order, Free, itemsAlloc)
      && itemsInUse == |Order|
    }

    /** The invariant of the container between public operations. */
    ghost predicate Valid()
      reads this, ll
    {
      && Linked()
      && bytes == TotalBytes(Contents)
    }

    /** Slot d has been popped off the free list but not yet spliced in: it is on neither chain. */
    ghost predicate Detached(d: int)
      reads this, ll
    {
      && Links()
      && 0 <= d < itemsAlloc && d !in Order && d !in Free
      && Partition(Order + [d], Free, itemsAlloc)
      && itemsInUse == |Order| + 1
    }

    /** new_dyll_array, once both allocations have succeeded. */
    constructor ()
      ensures Valid() && fresh(ll)
      ensures Contents == [] && Free == Range(0, INIT_ITEMS) && itemsAlloc == INIT_ITEMS
    {
      // calloc: the counters and the free-list head start at 0
      bytes, itemsInUse, nextItem := 0, 0, 0;
      ll := new Slot[INIT_ITEMS];
      itemsAlloc := INIT_ITEMS;
      startItem, endItem := LL_NULL, LL_NULL;
      Order, Free, Contents := [], Range(0, INIT_ITEMS), [];
      new;
      var i := 0;
      while i < itemsAlloc
        modifies ll
        invariant 0 <= i <= itemsAlloc == ll.Length == INIT_ITEMS
        invariant forall j :: 0 <= j < i ==> ll[j].next == j + 1
      {
        ll[i] := ll[i].(next := i + 1);
        i := i + 1;
      }
      RangeMembers(0, INIT_ITEMS);
    }

    /** dyll_add_chunk: grow the table by ITEMS_INC slots that extend the free list. */
    method AddChunk(growOk: bool) returns (ok: bool)
      requires Valid()
      modifies this
      ensures Valid() && ok == growOk
      ensures Order == old(Order) && Contents == old(Contents)
      ensures bytes == old(bytes) && itemsInUse == old(itemsInUse) && nextItem == old(nextItem)
      ensures ok ==> fresh(ll) && itemsAlloc == old(itemsAlloc) + ITEMS_INC
      ensures ok ==> Free == old(Free) + Range(old(itemsAlloc), itemsAlloc)
      ensures !ok ==> ll == old(ll) && itemsAlloc == old(itemsAlloc) && Free == old(Free)
    {
      if !growOk {
        return false;  // realloc failed: nothing has changed
      }
      ghost var s := ll[..];
      var n := itemsAlloc;
      var grown := Realloc(ll);
      ghost var t := grown[n..];
      assert grown[..] == s + t;
      FreeGrow(s, t, Free);
      InUseGrow(s, t, Order, Contents);
      PartitionGrow(Order, Free, n, n + ITEMS_INC);
      ll := grown;
      Free := Free + Range(n, n + ITEMS_INC);
      itemsAlloc := n + ITEMS_INC;
      ok := true;
    }

    /**
     * dyll_next_entry: pop the head of the free list, growing the table first when the free
     * list is exhausted (its head is the index one past the table). LL_NULL when growth fails.
     */
    method NextEntry(growOk: bool) returns (next: int)
      requires Valid()
      modifies this
      ensures ll == old(ll) || fresh(ll)
      ensures Order == old(Order) && Contents == old(Contents) && bytes == old(bytes)
      ensures itemsAlloc == old(itemsAlloc) + (if old(Free) == [] && growOk then ITEMS_INC else 0)
      ensures next == LL_NULL <==> old(Free) == [] && !growOk
      ensures next == LL_NULL ==> Valid() && ll == old(ll) && Free == old(Free)
      ensures next != LL_NULL ==> next == old(nextItem) && Detached(next)
      ensures next != LL_NULL ==> [next] + Free == old(Free) + Range(old(itemsAlloc), itemsAlloc)
    {
      next := nextItem;
      if next >= itemsAlloc {
        var grown := AddChunk(growOk);
        if !grown {
          return LL_NULL;
        }
      }
      PartitionPop(Order, Free, itemsAlloc);
      FreePop(ll[..], Free);
      assert ll[..][Free[0]] == ll[next];
      nextItem := ll[next].next;
      itemsInUse := itemsInUse + 1;
      Free := Free[1..];
    }

    /** dyll_free_entry: push a slot that is on neither chain onto the head of the free list. */
    method FreeEntry(entry: int)
      requires Detached(entry)
      modifies this, ll
      ensures Linked()
      ensures Free == [entry] + old(Free) && nextItem == entry
      ensures ll == old(ll) && ll[..] == old(ll[..])[entry := old(ll[entry]).(next := old(nextItem))]
      ensures Order == old(Order) && Contents == old(Contents)
      ensures bytes == old(bytes) && itemsAlloc == old(itemsAlloc)
    {
      FreePush(ll[..], Free, entry);
      PartitionPush(Order, Free, itemsAlloc, entry);
      ll[entry] := ll[entry].(next := nextItem);
      nextItem := entry;
      itemsInUse := itemsInUse - 1;
      Free := [entry] + Free;
    }

    /** The slot at position k of the in-use list, as the table holds it. */
    lemma LinkAt(k: int)
      requires InUse(ll[..], Order, Contents) && 0 <= k < |Order|
      ensures 0 <= Order[k] < ll.Length
      ensures ll[Order[k]] == Slot(Contents[k], |Contents[k]|, Succ(Order, k, LL_NULL), Pred(Order, k))
    {
      assert ll[..][Order[k]] == ll[Order[k]];
    }

    /** dyll_get_index: walk `index` links from the head; LL_NULL past the end. */
    method GetIndex(index: nat) returns (idx: int)
      requires Valid()
      ensures idx == if index < |Order| then Order[index] else LL_NULL
    {
      idx := startItem;
      var remaining := index;
      while idx != LL_NULL && remaining > 0
        invariant 0 <= remaining <= index
        invariant idx == if index - remaining < |Order| then Order[index - remaining] else LL_NULL
        decreases remaining
      {
        LinkAt(index - remaining);
        idx := ll[idx].next;
        remaining := remaining - 1;
      }
    }

    /**
     * dyll_copy_data: give a detached slot its own copy of the payload and count its bytes.
     * When the allocation fails the source stores NULL in the slot, whose data is then unused.
     */
    method CopyData(index: int, data: seq<byte>, allocOk: bool) returns (ok: bool)
      requires Detached(index)
      modifies ll, this`bytes
      ensures Detached(index) && ok == allocOk
      ensures ok ==> ll[..] == old(ll[..])[index := old(ll[index]).(data := data, len := |data|)]
      ensures ok ==> bytes == old(bytes) + |data|
      ensures !ok ==> ll[..] == old(ll[..]) && bytes == old(bytes)
    {
      if !allocOk {
        return false;
      }
      ghost var s := ll[..];
      var slot := ll[index].(data := data, len := |data|);
      DetachedFrame(s, Order, Contents, Free, index, slot);
      ll[index] := slot;
      assert ll[..] == s[index := slot];
      bytes := bytes + |data|;
      ok := true;
    }

    /** dyll_free_data: release a slot's buffer and stop counting its bytes. */
    method FreeData(idx: int)
      requires 0 <= idx < ll.Length
      modifies this`bytes
      ensures bytes == old(bytes) - ll[idx].len
    {
      bytes := bytes - ll[idx].len;
    }

    /**
     * dyll_add_element: pop a slot, copy the payload into it and link it after the tail.
     * On failure the container holds the same elements; a chunk grown on the way is kept and
     * a popped slot is pushed back, so it is the next one handed out.
     */
    method Add(x: seq<byte>, growOk: bool, copyOk: bool) returns (ok: bool)
      requires Valid()
      modifies this, ll
      ensures Valid() && (ll == old(ll) || fresh(ll))
      ensures ok == ((old(Free) != [] || growOk) && copyOk)
      ensures itemsAlloc == old(itemsAlloc) + (if old(Free) == [] && growOk then ITEMS_INC else 0)
      ensures ok ==> Contents == old(Contents) + [x] && Order == old(Order) + [old(nextItem)]
      ensures ok ==> [Order[|Order| - 1]] + Free == old(Free) + Range(old(itemsAlloc), itemsAlloc)
      ensures !ok ==> Contents == old(Contents) && Order == old(Order)
      ensures !ok ==> Free == old(Free) + Range(old(itemsAlloc), itemsAlloc)
    {
      var next := Claim(x, growOk, copyOk);
      if next == LL_NULL {
        return false;
      }
      AttachLast(next, x);
      ok := true;
    }

    /** The linking half of dyll_add_element with its bookkeeping: slot n holding x becomes the tail. */
    method AttachLast(n: int, ghost x: seq<byte>)
      requires Detached(n) && ll[n].data == x && ll[n].len == |x| && bytes == TotalBytes(Contents) + |x|
      modifies ll, this`startItem, this`endItem, this`Order, this`Contents
      ensures Valid() && Free == old(Free)
      ensures Contents == old(Contents) + [x] && Order == old(Order) + [n]
    {
      ghost var s := ll[..];
      LinkLast(n, x);
      Commit(s, |Order|, n, x);
      assert old(Order)[..|old(Order)|] == old(Order) && old(Order)[|old(Order)|..] == [];
      assert old(Contents)[..|old(Order)|] == old(Contents) && old(Contents)[|old(Order)|..] == [];
    }

    /**
     * The steps the three add operations share: dyll_next_entry, then dyll_copy_data, and
     * dyll_free_entry to push the slot back when the copy fails. LL_NULL on failure.
     */
    method Claim(x: seq<byte>, growOk: bool, copyOk: bool) returns (next: int)
      requires Valid()
      modifies this, ll
      ensures ll == old(ll) || fresh(ll)
      ensures Order == old(Order) && Contents == old(Contents)
      ensures itemsAlloc == old(itemsAlloc) + (if old(Free) == [] && growOk then ITEMS_INC else 0)
      ensures next != LL_NULL <==> (old(Free) != [] || growOk) && copyOk
      ensures next == LL_NULL ==> Valid() && Free == old(Free) + Range(old(itemsAlloc), itemsAlloc)
      ensures next != LL_NULL ==> next == old(nextItem) && Detached(next)
      ensures next != LL_NULL ==> ll[next].data == x && ll[next].len == |x|
      ensures next != LL_NULL ==> bytes == TotalBytes(Contents) + |x|
      ensures next != LL_NULL ==> [next] + Free == old(Free) + Range(old(itemsAlloc), itemsAlloc)
    {
      next := NextEntry(growOk);
      if next == LL_NULL {
        return;
      }
      var copied := CopyData(next, x, copyOk);
      if !copied {
        FreeEntry(next);
        return LL_NULL;
      }
      assert ll[..][next] == ll[next];
    }

    /** The linking half of dyll_add_element: slot n becomes the new tail. */
    method LinkLast(n: int, ghost x: seq<byte>)
      requires InUse(ll[..], Order, Contents) && 0 <= n < ll.Length && n !in Order
      requires ll[n].data == x && ll[n].len == |x|
      requires endItem == if Order == [] then LL_NULL else Order[|Order| - 1]
      modifies ll, this`startItem, this`endItem
      ensures SplicedIn(old(ll[..]), ll[..], Order, |Order|, n, x)
      ensures startItem == (if Order == [] then n else old(startItem)) && endItem == n
    {
      var last := endItem;
      if last == LL_NULL {
        // the list was empty: the new slot is also the head
        startItem := n;
        ll[n] := ll[n].(pre := LL_NULL);
      } else {
        LinkAt(|Order| - 1);
        ll[last] := ll[last].(next := n);
        ll[n] := ll[n].(pre := last);
      }
      ll[n] := ll[n].(next := LL_NULL);
      endItem := n;
    }

    /**
     * dyll_add_element_before: the new element takes position `index` and the elements from
     * there on move up by one. Fails, changing nothing, when there is no element `index`.
     */
    method AddBefore(index: nat, x: seq<byte>, growOk: bool, copyOk: bool) returns (ok: bool)
      requires Valid()
      modifies this, ll
      ensures Valid() && (ll == old(ll) || fresh(ll))
      ensures index >= |old(Contents)| ==> !ok && unchanged(this) && unchanged(ll)
      ensures index < |old(Contents)| ==> ok == ((old(Free) != [] || growOk) && copyOk)
      ensures index < |old(Contents)| ==>
        itemsAlloc == old(itemsAlloc) + (if old(Free) == [] && growOk then ITEMS_INC else 0)
      ensures ok ==> Contents == old(Contents)[..index] + [x] + old(Contents)[index..]
      ensures ok ==> Order == Inserted(old(Order), index, old(nextItem))
      ensures ok ==> [Order[index]] + Free == old(Free) + Range(old(itemsAlloc), itemsAlloc)
      ensures !ok ==> Contents == old(Contents) && Order == old(Order)
      ensures !ok ==> Free == old(Free) + Range(old(itemsAlloc), itemsAlloc)
    {
      var idx := GetIndex(index);
      if idx == LL_NULL {
        return false;
      }
      var next := Claim(x, growOk, copyOk);
      if next == LL_NULL {
        return false;
      }
      AttachBefore(idx, next, index, x);
      ok := true;
    }

    /** The linking half of dyll_add_element_before with its bookkeeping: n goes in front of idx. */
    method AttachBefore(idx: int, n: int, ghost p: int, ghost x: seq<byte>)
      requires Detached(n) && ll[n].data == x && ll[n].len == |x| && bytes == TotalBytes(Contents) + |x|
      requires 0 <= p < |Order| && idx == Order[p]
      modifies ll, this`startItem, this`Order, this`Contents
      ensures Valid() && Free == old(Free)
      ensures Contents == old(Contents)[..p] + [x] + old(Contents)[p..]
      ensures Order == Inserted(old(Order), p, n)
    {
      ghost var s := ll[..];
      LinkBefore(idx, n, p, x);
      Commit(s, p, n, x);
    }

    /** The linking half of dyll_add_element_before: slot n goes in front of slot idx. */
    method LinkBefore(idx: int, n: int, ghost p: int, ghost x: seq<byte>)
      requires InUse(ll[..], Order, Contents) && 0 <= n < ll.Length && n !in Order
      requires ll[n].data == x && ll[n].len == |x|
      requires 0 <= p < |Order| && idx == Order[p]
      modifies ll, this`startItem
      ensures SplicedIn(old(ll[..]), ll[..], Order, p, n, x)
      ensures startItem == if p == 0 then n else old(startItem)
    {
      LinkAt(p);
      if p > 0 {
        LinkAt(p - 1);
      }
      var pre := ll[idx].pre;
      if pre != LL_NULL {
        ll[pre] := ll[pre].(next := n);
      } else {
        startItem := n;
      }
      ll[n] := ll[n].(pre := pre, next := idx);
      ll[idx] := ll[idx].(pre := n);
    }

    /**
     * dyll_add_element_after: the new element takes position `index + 1`. Fails, changing
     * nothing, when there is no element `index`.
     */
    method AddAfter(index: nat, x: seq<byte>, growOk: bool, copyOk: bool) returns (ok: bool)
      requires Valid()
      modifies this, ll
      ensures Valid() && (ll == old(ll) || fresh(ll))
      ensures index >= |old(Contents)| ==> !ok && unchanged(this) && unchanged(ll)
      ensures index < |old(Contents)| ==> ok == ((old(Free) != [] || growOk) && copyOk)
      ensures index < |old(Contents)| ==>
        itemsAlloc == old(itemsAlloc) + (if old(Free) == [] && growOk then ITEMS_INC else 0)
      ensures ok ==> Contents == old(Contents)[..index + 1] + [x] + old(Contents)[index + 1..]
      ensures ok ==> Order == Inserted(old(Order), index + 1, old(nextItem))
      ensures ok ==> [Order[index + 1]] + Free == old(Free) + Range(old(itemsAlloc), itemsAlloc)
      ensures !ok ==> Contents == old(Contents) && Order == old(Order)
      ensures !ok ==> Free == old(Free) + Range(old(itemsAlloc), itemsAlloc)
    {
      var idx := GetIndex(index);
      if idx == LL_NULL {
        return false;
      }
      var next := Claim(x, growOk, copyOk);
      if next == LL_NULL {
        return false;
      }
      AttachAfter(idx, next, index, x);
      ok := true;
    }

    /** The linking half of dyll_add_element_after with its bookkeeping: n goes behind idx. */
    method AttachAfter(idx: int, n: int, ghost p: int, ghost x: seq<byte>)
      requires Detached(n) && ll[n].data == x && ll[n].len == |x| && bytes == TotalBytes(Contents) + |x|
      requires 0 <= p < |Order| && idx == Order[p]
      modifies ll, this`endItem, this`Order, this`Contents
      ensures Valid() && Free == old(Free)
      ensures Contents == old(Contents)[..p + 1] + [x] + old(Contents)[p + 1..]
      ensures Order == Inserted(old(Order), p + 1, n)
    {
      ghost var s := ll[..];
      LinkAfter(idx, n, p, x);
      Commit(s, p + 1, n, x);
    }

    /** The linking half of dyll_add_element_after: slot n goes behind slot idx. */
    method LinkAfter(idx: int, n: int, ghost p: int, ghost x: seq<byte>)
      requires InUse(ll[..], Order, Contents) && 0 <= n < ll.Length && n !in Order
      requires ll[n].data == x && ll[n].len == |x|
      requires 0 <= p < |Order| && idx == Order[p]
      modifies ll, this`endItem
      ensures SplicedIn(old(ll[..]), ll[..], Order, p + 1, n, x)
      ensures endItem == if p + 1 == |Order| then n else old(endItem)
    {
      LinkAt(p);
      if p + 1 < |Order| {
        LinkAt(p + 1);
      }
      ll[n] := ll[n].(next := ll[idx].next);
      ll[n] := ll[n].(pre := idx);
      ll[idx] := ll[idx].(next := n);
      if ll[n].next != LL_NULL {
        ll[ll[n].next] := ll[ll[n].next].(pre := n);
      } else {
        endItem := n;
      }
    }

    /**
     * dyll_delete_element: unlink element `index`, stop counting its bytes and push its slot
     * on the free list. Fails, changing nothing, when there is no element `index`.
     */
    method Delete(index: nat) returns (ok: bool)
      requires Valid()
      modifies this, ll
      ensures Valid() && ll == old(ll) && itemsAlloc == old(itemsAlloc)
      ensures ok == (index < |old(Contents)|)
      ensures !ok ==> unchanged(this) && unchanged(ll)
      ensures ok ==> Contents == Removed(old(Contents), index) && Order == Removed(old(Order), index)
      ensures ok ==> Free == [old(Order)[index]] + old(Free)
    {
      var idx := GetIndex(index);
      if idx == LL_NULL {
        return false;
      }
      LinkAt(index);
      FreeData(idx);
      ghost var s := ll[..];
      Unlink(idx, index);
      Uncommit(s, index, idx);
      FreeEntry(idx);
      ok := true;
    }

    /** The linking half of dyll_delete_element: slot idx leaves the in-use list. */
    method Unlink(idx: int, ghost p: int)
      requires InUse(ll[..], Order, Contents) && 0 <= p < |Order| && idx == Order[p]
      modifies ll, this`startItem, this`endItem
      ensures SplicedOut(old(ll[..]), ll[..], Order, p)
      ensures startItem == if p == 0 then Succ(Order, 0, LL_NULL) else old(startItem)
      ensures endItem == if p == |Order| - 1 then Pred(Order, p) else old(endItem)
    {
      LinkAt(p);
      if p > 0 {
        LinkAt(p - 1);
      }
      if p + 1 < |Order| {
        LinkAt(p + 1);
      }
      var next, pre := ll[idx].next, ll[idx].pre;
      if next != LL_NULL {
        ll[next] := ll[next].(pre := pre);
      } else {
        endItem := pre;
      }
      if pre != LL_NULL {
        ll[pre] := ll[pre].(next := next);
      } else {
        startItem := next;
      }
    }

    /** The bookkeeping after slot Order[p] has been unlinked from the in-use list. */
    ghost method Uncommit(s: seq<Slot>, p: int, d: int)
      requires 0 <= p < |Order| && d == Order[p]
      requires InUse(s, Order, Contents) && FreeChain(s, Free) && |s| == ll.Length
      requires Partition(Order, Free, itemsAlloc) && itemsInUse == |Order|
      requires SplicedOut(s, ll[..], Order, p)
      requires ll.Length == itemsAlloc && itemsAlloc >= INIT_ITEMS
      requires startItem == (if p == 0 then Succ(Order, 0, LL_NULL) else Order[0])
      requires endItem == (if p == |Order| - 1 then Pred(Order, p) else Order[|Order| - 1])
      requires nextItem == (if Free == [] then itemsAlloc else Free[0])
      requires bytes == TotalBytes(Contents) - |Contents[p]|
      modifies this`Order, this`Contents
      ensures Detached(d) && bytes == TotalBytes(Contents)
      ensures Order == Removed(old(Order), p) && Contents == Removed(old(Contents), p)
    {
      RemoveLinks(s, ll[..], Order, Contents, p);
      IndicesMembers(Order, ll.Length);
      SpliceOutFree(s, ll[..], Order, Free, p);
      PartitionUnsplice(Order, Free, itemsAlloc, p);
      TotalBytesRemove(Contents, p);
      assert d in Order;
      Order, Contents := Removed(Order, p), Removed(Contents, p);
    }

    /** dyll_get_element: element `index` and its length, None past the end. */
    method Get(index: nat) returns (r: Option<Element>)
      requires Valid()
      ensures r == if index < |Contents| then Some(Element(Contents[index], |Contents[index]|)) else None
    {
      var idx := GetIndex(index);
      if idx == LL_NULL {
        return None;
      }
      LinkAt(index);
      r := Some(Element(ll[idx].data, ll[idx].len));
    }

    /** dyll_copy_element: a copy of element `index`; None past the end or when malloc fails. */
    method Copy(index: nat, allocOk: bool) returns (r: Option<Element>)
      requires Valid()
      ensures r == if index < |Contents| && allocOk then Some(Element(Contents[index], |Contents[index]|)) else None
    {
      var e := Get(index);
      if e.None? {
        return None;
      }
      if !allocOk {
        return None;
      }
      r := Some(Element(e.value.data, e.value.len));
    }

    /**
     * dyll_flush_element: hand element `index` over to the caller and remove it like a delete.
     * None, changing nothing, past the end.
     */
    method FlushElement(index: nat) returns (r: Option<Element>)
      requires Valid()
      modifies this, ll
      ensures Valid() && ll == old(ll) && itemsAlloc == old(itemsAlloc)
      ensures r == if index < |old(Contents)| then Some(Element(old(Contents)[index], |old(Contents)[index]|)) else None
      ensures r.None? ==> unchanged(this) && unchanged(ll)
      ensures r.Some? ==> Contents == Removed(old(Contents), index) && Free == [old(Order)[index]] + old(Free)
    {
      var idx := GetIndex(index);
      if idx == LL_NULL {
        return None;
      }
      LinkAt(index);
      r := Some(Element(ll[idx].data, ll[idx].len));
      var _ := Delete(index);
    }

    /**
     * dyll_flush_array: drain the container from the front into one new buffer of `bytes`
     * bytes. The result is every element laid end to end, in order; the table keeps its size.
     */
    method FlushArray(allocOk: bool) returns (r: array?<byte>, total: nat)
      requires Valid()
      modifies this, ll
      ensures Valid() && ll == old(ll) && itemsAlloc == old(itemsAlloc)
      ensures r == null <==> !allocOk
      ensures r == null ==> unchanged(this) && unchanged(ll) && total == 0
      ensures r != null ==> fresh(r) && r[..] == Concat(old(Contents)) && total == old(bytes)
      ensures r != null ==> Contents == [] && itemsInUse == 0 && bytes == 0
    {
      if !allocOk {
        return null, 0;
      }
      var buf := new byte[bytes];
      ghost var c := Contents;
      ghost var k := 0;
      total := 0;
      while true
        invariant Valid() && ll == old(ll) && itemsAlloc == old(itemsAlloc)
        invariant 0 <= k <= |c| && Contents == c[k..]
        invariant buf.Length == TotalBytes(c) && total == TotalBytes(c[..k])
        invariant total <= buf.Length && buf[..total] == Concat(c[..k])
        decreases |Contents|
      {
        var more;
        more, total := DrainFront(buf, total, c, k);
        if !more {
          break;
        }
        k := k + 1;
      }
      assert c[..k] == c;
      assert buf[..] == buf[..total];
      r := buf;
    }

    /**
     * One turn of the drain loop of dyll_flush_array: flush element 0 and append it to `buf`
     * at `total`. `c` is the contents when draining began and `k` the elements drained so far.
     */
    method DrainFront(buf: array<byte>, total: nat, ghost c: seq<seq<byte>>, ghost k: nat)
      returns (more: bool, total': nat)
      requires Valid() && k <= |c| && Contents == c[k..]
      requires buf.Length == TotalBytes(c) && total == TotalBytes(c[..k])
      requires total <= buf.Length && buf[..total] == Concat(c[..k])
      modifies this, ll, buf
      ensures Valid() && ll == old(ll) && itemsAlloc == old(itemsAlloc)
      ensures more == (k < |c|)
      ensures more ==> Contents == c[k + 1..] && total' == TotalBytes(c[..k + 1])
      ensures more ==> total' <= buf.Length && buf[..total'] == Concat(c[..k + 1])
      ensures !more ==> Contents == [] && total' == total && buf[..total'] == Concat(c)
    {
      var e := FlushElement(0);
      if e.None? {
        assert c[..k] == c;
        return false, total;
      }
      ghost var d := c[k];
      assert e.value == Element(d, |d|);
      assert Contents == c[k + 1..];
      PrefixStep(c, k);
      TotalBytesPrefix(c, k + 1);
      CopyBytes(buf, total, e.value.data);
      assert buf[..total + |d|] == Concat(c[..k]) + d;
      more, total' := true, total + e.value.len;
    }

    /** dyll_get_count: the number of elements. */
    method Count() returns (n: int)
      requires Valid()
      ensures n == |Contents|
    {
      n := itemsInUse;
    }

    /** dyll_get_size: the number of payload bytes held. */
    method Size() returns (n: int)
      requires Valid()
      ensures n == TotalBytes(Contents)
    {
      n := bytes;
    }

    /**
     * The bookkeeping after a detached slot n holding x has been linked in at position p:
     * the abstract view gains the element there, and the invariant is restored.
     */
    ghost method Commit(s: seq<Slot>, p: int, n: int, x: seq<byte>)
      requires 0 <= p <= |Order|
      requires InUse(s, Order, Contents) && FreeChain(s, Free) && |s| == ll.Length
      requires Partition(Order + [n], Free, itemsAlloc) && n !in Order && itemsInUse == |Order| + 1
      requires SplicedIn(s, ll[..], Order, p, n, x)
      requires ll.Length == itemsAlloc && itemsAlloc >= INIT_ITEMS
      requires startItem == (if p == 0 then n else Order[0])
      requires endItem == (if p == |Order| then n else Order[|Order| - 1])
      requires nextItem == (if Free == [] then itemsAlloc else Free[0])
      requires bytes == TotalBytes(Contents) + |x|
      modifies this`Order, this`Contents
      ensures Valid()
      ensures Order == Inserted(old(Order), p, n)
      ensures Contents == old(Contents)[..p] + [x] + old(Contents)[p..]
    {
      InsertLinks(s, ll[..], Order, Contents, p, n, x);
      IndicesMembers(Order, ll.Length);
      SpliceInFree(s, ll[..], Order, Free, p, n, x);
      PartitionSplice(Order, Free, itemsAlloc, p, n);
      TotalBytesInsert(Contents, p, x);
      Order, Contents := Inserted(Order, p, n), Contents[..p] + [x] + Contents[p..];
    }
  }

  /**
   * The reallocation in dyll_add_chunk and the loop after it: a table ITEMS_INC slots longer
   * whose old slots are kept and whose new slots each link to the slot after them; the first
   * new slot has no predecessor.
   */
  method Realloc(table: array<Slot>) returns (grown: array<Slot>)
    ensures fresh(grown) && grown.Length == table.Length + ITEMS_INC
    ensures grown[..table.Length] == table[..]
    ensures forall j :: table.Length <= j < grown.Length ==> grown[j].next == j + 1
    ensures grown[table.Length].pre == LL_NULL
  {
    var n := table.Length;
    grown := new Slot[n + ITEMS_INC];
    forall j | 0 <= j < n {
      grown[j] := table[j];
    }
    var i := n;
    while i < n + ITEMS_INC
      invariant n <= i <= n + ITEMS_INC
      invariant grown[..n] == table[..]
      invariant forall j :: n <= j < i ==> grown[j].next == j + 1
    {
      grown[i] := grown[i].(next := i + 1);
      i := i + 1;
    }
    grown[n] := grown[n].(pre := LL_NULL);
  }

  /** memcpy of `data` into `buf` at offset `at`. */
  method CopyBytes(buf: array<byte>, at: nat, data: seq<byte>)
    requires at + |data| <= buf.Length
    modifies buf
    ensures buf[..at + |data|] == old(buf[..at]) + data
  {
    forall i | 0 <= i < |data| {
      buf[at + i] := data[i];
    }
  }

  /**
   * Two dyll_add_element calls, then dyll_get_element: when slots and copies are available,
   * the two payloads become the last two elements, and getting the first position past the
   * old elements yields the first payload and its length.
   */
  method AddTwoThenGet(d: DyllArray, p: seq<byte>, q: seq<byte>) returns (r: Option<Element>)
    requires d.Valid()
    modifies d, d.ll
    ensures d.Valid() && d.Contents == old(d.Contents) + [p, q]
    ensures r == Some(Element(p, |p|))
  {
    var n := d.Count();
    var _ := d.Add(p, true, true);
    var _ := d.Add(q, true, true);
    r := d.Get(n);
  }

  /** new_dyll_array: NULL when either of its two allocations fails. */
  method NewDyllArray(allocOk: bool) returns (d: DyllArray?)
    ensures (d != null) == allocOk
    ensures d != null ==> fresh(d) && d.Valid() && d.Contents == [] && d.itemsAlloc == INIT_ITEMS
  {
    if !allocOk {
      return null;
    }
    d := new DyllArray();
  }
}
