/**
 * The growable vector of fixed-size elements. The buffer is allocated lazily with INIT_LEN
 * slots and grown by LEN_INC slots; `index` is the insertion cursor, `len` the capacity and
 * `max` the high-water mark of the cursor, which is what the count reports.
 *
 * The buffer is modelled slot by slot: a slot of the `el_size`-byte element layout is a Cell,
 * either never written since it was allocated or holding one element's bytes.
 */
module DynamicArray {
  import opened Common

  /** Slots in the first buffer. */
  const INIT_LEN: int := 16
  /** Slots added by every growth. */
  const LEN_INC: int := 16

  /** One slot of the buffer. */
  datatype Cell = Unwritten | Held(bytes: seq<byte>)

  /**
   * The fields of the vector as values. `cells` is the buffer, empty while there is none;
   * `ready` records whether `len` and `max` have been given values (by the first add or by a
   * flush): before that they are uninitialised memory.
   */
  datatype State = State(cells: seq<Cell>, hasBuf: bool, index: int, len: int, max: int, ready: bool)

  /** `n` slots fresh from malloc or realloc. */
  function Blank(n: nat): (r: seq<Cell>)
    ensures |r| == n && forall j :: 0 <= j < n ==> r[j] == Unwritten
  {
    seq(n, _ => Unwritten)
  }

  /** The relations between the fields that every operation keeps. */
  ghost predicate Shape(st: State)
  {
    && 0 <= st.index
    && (st.hasBuf ==>
          && st.ready && |st.cells| == st.len && INIT_LEN <= st.len
          && st.index <= st.len && 0 <= st.max <= st.len)
    && (!st.hasBuf ==>
          && st.cells == []
          && (st.ready ==> st.max == 0 && st.index <= st.len && (st.len == 0 || st.len == INIT_LEN)))
    && (!st.ready ==> !st.hasBuf && st.index == 0)
  }

  /**
   * The part of Shape the add steps rely on: the buffer has as many slots as the capacity
   * says and the cursor is within it; without a buffer there are no slots.
   */
  ghost predicate Fits(st: State)
  {
    if st.hasBuf then 0 <= st.index <= st.len == |st.cells| else st.cells == []
  }

  /** Shape, and every written slot holds exactly one element of `w` bytes. */
  ghost predicate Inv(st: State, w: nat)
  {
    && Shape(st)
    && forall j :: 0 <= j < |st.cells| && st.cells[j].Held? ==> |st.cells[j].bytes| == w
  }

  /** Where the next add writes: a missing buffer is allocated with the cursor at 0. */
  function Cursor(st: State): int
  {
    if st.hasBuf then st.index else 0
  }

  /** get_array_count: the high-water mark, and 0 while there is no buffer. */
  function CountOf(st: State): int
  {
    if st.hasBuf then st.max else 0
  }

  /**
   * add_array_element on the state `st`, copying element `x` (None for a NULL pointer).
   * `allocOk` is the outcome of the one allocation the call may make: the first malloc of the
   * buffer or its realloc when the cursor has reached the capacity.
   */
  function AddSpec(st: State, x: Option<seq<byte>>, allocOk: bool): (r: (bool, State))
    requires Fits(st)
    ensures Fits(r.1)
  {
    if x.None? then (false, st)
    else if !st.hasBuf && !allocOk then
      // the fields are reset before the malloc is checked
      (false, st.(index := 0, max := 0, len := INIT_LEN, ready := true))
    else
      var base := if st.hasBuf then st else State(Blank(INIT_LEN), true, 0, INIT_LEN, 0, true);
      if base.index >= base.len && !allocOk then (false, base)
      else
        var room :=
          if base.index >= base.len then base.(cells := base.cells + Blank(LEN_INC), len := base.len + LEN_INC)
          else base;
        (true, room.(cells := room.cells[room.index := Held(x.value)],
                     index := room.index + 1,
                     max := Max(room.max, room.index + 1)))
  }

  /**
   * The loops of add_array_elements(_p): add xs[0], ..., xs[n-1] in order, the i-th add with
   * allocation outcome oks[i], and stop at the first failure.
   */
  function AddAll(st: State, xs: seq<Option<seq<byte>>>, oks: seq<bool>, n: nat): (r: (bool, State))
    requires Fits(st) && n <= |xs| && n <= |oks|
    ensures Fits(r.1)
  {
    if n == 0 then (true, st)
    else
      var prev := AddAll(st, xs, oks, n - 1);
      if !prev.0 then prev else AddSpec(prev.1, xs[n - 1], oks[n - 1])
  }

  /** The fields after a flush has dropped the buffer. */
  const Reset: State := State([], false, 0, 0, 0, true)

  /**
   * flush_dynamic_array: the first `max` slots, or None when `max` is 0 or the shrinking
   * realloc fails; the fields are reset except after a failed realloc.
   */
  function FlushSpec(st: State, allocOk: bool): (r: (Option<seq<Cell>>, State))
    requires Shape(st) && st.ready
    ensures Shape(r.1)
  {
    if st.max == 0 then (None, Reset)
    else if !allocOk then (None, st)
    else (Some(st.cells[..st.max]), Reset)
  }

  /**
   * delete_array_element's guard and count update, corrected so that it only removes an
   * element that is counted: an index at or past `max` is rejected as well.
   */
  function DeleteSpec(st: State, i: nat): (r: (bool, State))
    requires Shape(st) && st.ready
    ensures Shape(r.1)
  {
    if i >= st.len || i >= st.max then (false, st) else (true, st.(max := st.max - 1))
  }

  /** delete_array_element's guard and count update as written: `max` is a size_t and wraps. */
  function DeleteAsWritten(st: State, i: nat): (r: (bool, State))
    ensures r.0 <==> i < st.len
    ensures r.0 && 0 <= st.max <= SIZE_MAX ==> r.1.max == if st.max == 0 then SIZE_MAX else st.max - 1
    ensures r.1.(max := st.max) == st
  {
    if i >= st.len then (false, st) else (true, st.(max := (st.max - 1) % (SIZE_MAX + 1)))
  }

  /** `src[i*w .. i*w + w]`: element i of a contiguous array of `w`-byte elements. */
  function Chunk(src: seq<byte>, i: nat, w: nat): (r: seq<byte>)
    requires (i + 1) * w <= |src|
    ensures |r| == w
  {
    src[i * w..i * w + w]
  }

  /** The first `count` elements of a contiguous array of `w`-byte elements. */
  function Chunks(src: seq<byte>, count: nat, w: nat): (r: seq<Option<seq<byte>>>)
    requires count * w <= |src|
    ensures |r| == count
    ensures forall j :: 0 <= j < count ==> r[j].Some? && |r[j].value| == w
  {
    if count == 0 then []
    else Chunks(src, count - 1, w) + [Some(Chunk(src, count - 1, w))]
  }

  class DynamicArray {
    const elSize: nat
    var ptr: array?<Cell>
    var index: int
    var len: int
    var max: int
    ghost var Ready: bool

    /** The fields as a State. */
    ghost function Abs(): State
      reads this, ptr
    {
      State(if ptr == null then [] else ptr[..], ptr != null, index, len, max, Ready)
    }

    ghost predicate Valid()
      reads this, ptr
    {
      elSize > 0 && Inv(Abs(), elSize)
    }

    /** new_dynamic_array once its allocation has succeeded: `len` and `max` are left unset. */
    constructor (w: nat)
      requires w > 0
      ensures Valid() && elSize == w && !Ready && ptr == null && index == 0
    {
      elSize := w;
      ptr := null;
      index := 0;
      Ready := false;
    }

    /** add_array_element: copy `x` into the slot at the cursor, growing the buffer if full. */
    method AddElement(x: Option<seq<byte>>, allocOk: bool) returns (ok: bool)
      requires Valid() && (x.Some? ==> |x.value| == elSize)
      modifies this, ptr
      ensures Valid() && (ptr == old(ptr) || fresh(ptr))
      ensures (ok, Abs()) == AddSpec(old(Abs()), x, allocOk)
    {
      AddKeepsInv(Abs(), x, allocOk, elSize);
      if x.None? {
        return false;
      }
      if ptr == null {
        index, max, len := 0, 0, INIT_LEN;
        Ready := true;
        if allocOk {
          ptr := new Cell[INIT_LEN](_ => Unwritten);
          assert ptr[..] == Blank(INIT_LEN);
        }
      }
      if ptr == null {
        return false;
      }
      if index >= len {
        if !allocOk {
          return false;
        }
        var grown := Grow(ptr);
        len := len + LEN_INC;
        ptr := grown;
      }
      ghost var cells := ptr[..];
      ptr[index] := Held(x.value);
      assert ptr[..] == cells[index := Held(x.value)];
      index := index + 1;
      if index > max {
        max := index;
      }
      ok := true;
    }

    /**
     * add_array_elements: add the `count` elements of the contiguous array `src` (None for
     * NULL) one by one, stopping at the first failure.
     */
    method AddElements(src: Option<seq<byte>>, count: nat, allocOks: seq<bool>) returns (ok: bool)
      requires Valid() && count <= |allocOks|
      requires src.Some? ==> count * elSize <= |src.value|
      modifies this, ptr
      ensures Valid() && (ptr == old(ptr) || fresh(ptr))
      ensures src.None? ==> !ok && Abs() == old(Abs())
      ensures src.Some? ==> (ok, Abs()) == AddAll(old(Abs()), Chunks(src.value, count, elSize), allocOks, count)
    {
      if src.None? {
        return false;
      }
      ghost var st := Abs();
      ghost var xs := Chunks(src.value, count, elSize);
      var i := 0;
      while i < count
        invariant 0 <= i <= count && Valid() && (ptr == old(ptr) || fresh(ptr))
        invariant AddAll(st, xs, allocOks, i) == (true, Abs())
      {
        var added := AddChunkAt(src.value, count, i, allocOks[i], st, xs, allocOks);
        if !added {
          AddAllFailed(st, xs, allocOks, i + 1, count);
          return false;
        }
        i := i + 1;
      }
      ok := true;
    }

    /**
     * add_array_elements_p: add the elements the first `count` pointers of `ptrs` point to
     * (None for a NULL pointer), stopping at the first failure.
     */
    method AddElementsP(ptrs: Option<seq<Option<seq<byte>>>>, count: nat, allocOks: seq<bool>)
      returns (ok: bool)
      requires Valid() && count <= |allocOks|
      requires ptrs.Some? ==> count <= |ptrs.value|
      requires ptrs.Some? ==> forall j :: 0 <= j < count && ptrs.value[j].Some? ==> |ptrs.value[j].value| == elSize
      modifies this, ptr
      ensures Valid() && (ptr == old(ptr) || fresh(ptr))
      ensures ptrs.None? ==> !ok && Abs() == old(Abs())
      ensures ptrs.Some? ==> (ok, Abs()) == AddAll(old(Abs()), ptrs.value, allocOks, count)
    {
      if ptrs.None? {
        return false;
      }
      ghost var st := Abs();
      ghost var xs := ptrs.value;
      var i := 0;
      while i < count
        invariant 0 <= i <= count && Valid() && (ptr == old(ptr) || fresh(ptr))
        invariant AddAll(st, xs, allocOks, i) == (true, Abs())
      {
        var added := AddNext(ptrs.value[i], allocOks[i], st, xs, allocOks, i);
        if !added {
          AddAllFailed(st, xs, allocOks, i + 1, count);
          return false;
        }
        i := i + 1;
      }
      ok := true;
    }

    /**
     * One turn of the loops of add_array_elements(_p): add xs[i] to the state that adding
     * xs[..i] to `st` has reached.
     */
    method AddNext(x: Option<seq<byte>>, allocOk: bool,
                   ghost st: State, ghost xs: seq<Option<seq<byte>>>, ghost oks: seq<bool>, ghost i: nat)
      returns (ok: bool)
      requires Valid() && (x.Some? ==> |x.value| == elSize)
      requires Fits(st) && i < |xs| && i < |oks| && xs[i] == x && oks[i] == allocOk
      requires AddAll(st, xs, oks, i) == (true, Abs())
      modifies this, ptr
      ensures Valid() && (ptr == old(ptr) || fresh(ptr))
      ensures AddAll(st, xs, oks, i + 1) == (ok, Abs())
    {
      ok := AddElement(x, allocOk);
    }

    /** One turn of the loop of add_array_elements: add element i of `src`. */
    method AddChunkAt(src: seq<byte>, count: nat, i: nat, allocOk: bool,
                      ghost st: State, ghost xs: seq<Option<seq<byte>>>, ghost oks: seq<bool>)
      returns (ok: bool)
      requires Valid() && i < count && count * elSize <= |src| && xs == Chunks(src, count, elSize)
      requires Fits(st) && count <= |oks| && oks[i] == allocOk
      requires AddAll(st, xs, oks, i) == (true, Abs())
      modifies this, ptr
      ensures Valid() && (ptr == old(ptr) || fresh(ptr))
      ensures AddAll(st, xs, oks, i + 1) == (ok, Abs())
    {
      ChunkAt(src, count, elSize, i);
      var next := Chunk(src, i, elSize);
      ok := AddNext(Some(next), allocOk, st, xs, oks, i);
    }

    /** delete_array_element with the corrected guard; the data movement is not modelled. */
    method Delete(i: nat) returns (ok: bool)
      requires Valid() && Ready
      modifies this
      ensures Valid() && ptr == old(ptr)
      ensures (ok, Abs()) == DeleteSpec(old(Abs()), i)
    {
      if i >= len {
        return false;
      }
      if i >= max {
        return false;  // the correction: nothing is counted at or past `max`
      }
      max := max - 1;
      ok := true;
    }

    /** set_array_index: move the cursor to slot i of the buffer; nothing else changes. */
    method SetIndex(i: nat) returns (ok: bool)
      requires Valid() && Ready
      modifies this`index
      ensures Valid()
      ensures ok == (i < old(len))
      ensures Abs() == if ok then old(Abs()).(index := i) else old(Abs())
    {
      if i >= len {
        return false;
      }
      index := i;
      ok := true;
    }

    /**
     * get_array_element: slot i of the buffer, None past the capacity. A buffer must exist
     * when i is below the capacity: the source otherwise offsets a NULL pointer.
     */
    method GetElement(i: nat) returns (r: Option<Cell>)
      requires Valid() && Ready && (ptr != null || i >= len)
      ensures r == if i < len then Some(Abs().cells[i]) else None
    {
      if i >= len {
        return None;
      }
      r := Some(ptr[i]);
    }

    /** flush_dynamic_array: hand the counted slots to the caller and drop the buffer. */
    method Flush(allocOk: bool) returns (r: Option<seq<Cell>>)
      requires Valid() && Ready
      modifies this
      ensures Valid()
      ensures (r, Abs()) == FlushSpec(old(Abs()), allocOk)
    {
      var ret := None;
      if max == 0 {
        ret := None;  // the buffer, if any, is freed
      } else {
        if !allocOk {
          return None;
        }
        ret := Some(ptr[..max]);
      }
      index, max, len := 0, 0, 0;
      ptr := null;
      r := ret;
    }

    /** get_array_count. */
    method Count() returns (n: int)
      requires Valid()
      ensures n == CountOf(Abs())
    {
      if ptr == null {
        return 0;
      }
      n := max;
    }
  }

  /** new_dynamic_array: NULL for a zero element size or when malloc fails. */
  method NewDynamicArray(w: nat, allocOk: bool) returns (d: DynamicArray?)
    ensures d == null <==> w == 0 || !allocOk
    ensures d != null ==> fresh(d) && d.Valid() && d.elSize == w && CountOf(d.Abs()) == 0 && !d.Ready
  {
    if w == 0 || !allocOk {
      return null;
    }
    d := new DynamicArray(w);
  }

  /** The realloc in add_array_element: LEN_INC more slots after the old ones. */
  method Grow(a: array<Cell>) returns (b: array<Cell>)
    ensures fresh(b) && b[..] == a[..] + Blank(LEN_INC)
  {
    b := new Cell[a.Length + LEN_INC](_ => Unwritten);
    forall j | 0 <= j < a.Length {
      b[j] := a[j];
    }
  }

  /** Element i ends within the first `count` elements. */
  lemma MulStep(i: nat, count: nat, w: nat)
    requires i < count
    ensures (i + 1) * w <= count * w
  {
    var d := count - (i + 1);
    assert count * w == (i + 1) * w + d * w;
  }

  /** Element i of Chunks is the slice the source's pointer arithmetic addresses. */
  lemma {:induction false} ChunkAt(src: seq<byte>, count: nat, w: nat, i: nat)
    requires i < count && count * w <= |src|
    ensures (i + 1) * w <= |src| && Chunks(src, count, w)[i] == Some(Chunk(src, i, w))
  {
    MulStep(i, count, w);
    if i < count - 1 {
      MulStep(count - 1, count, w);
      ChunkAt(src, count - 1, w, i);
    }
  }

  /** Adding keeps the relations between the fields. */
  lemma AddKeepsShape(st: State, x: Option<seq<byte>>, allocOk: bool)
    requires Shape(st)
    ensures Shape(AddSpec(st, x, allocOk).1)
  {
  }

  /** Adding keeps every slot one element wide. */
  lemma AddKeepsInv(st: State, x: Option<seq<byte>>, allocOk: bool, w: nat)
    requires Inv(st, w) && (x.Some? ==> |x.value| == w)
    ensures Inv(AddSpec(st, x, allocOk).1, w)
  {
  }

  /** Once the loop of add_array_elements has failed, the later elements are not looked at. */
  lemma {:induction false} AddAllFailed(st: State, xs: seq<Option<seq<byte>>>, oks: seq<bool>, j: nat, n: nat)
    requires Fits(st) && j <= n <= |xs| && n <= |oks| && !AddAll(st, xs, oks, j).0
    ensures AddAll(st, xs, oks, n) == AddAll(st, xs, oks, j)
    decreases n - j
  {
    if j < n {
      AddAllFailed(st, xs, oks, j, n - 1);
    }
  }

  /**
   * An add succeeds exactly when there is an element to copy and a slot to copy it into:
   * the buffer exists with the cursor below the capacity, or the allocation succeeds.
   */
  lemma AddOutcome(st: State, x: Option<seq<byte>>, allocOk: bool)
    requires Shape(st)
    ensures AddSpec(st, x, allocOk).0 <==> x.Some? && (allocOk || (st.hasBuf && st.index < st.len))
  {
  }

  /**
   * A successful add writes x into the slot at the cursor, leaves every other slot as it
   * was (slots new to the buffer unwritten), moves the cursor one past the write and raises
   * the count to at least the new cursor.
   */
  lemma AddWrites(st: State, x: Option<seq<byte>>, allocOk: bool)
    requires Fits(st) && AddSpec(st, x, allocOk).0
    ensures var r := AddSpec(st, x, allocOk).1; var at := Cursor(st);
      && r.hasBuf && 0 <= at < |r.cells| && |st.cells| <= |r.cells|
      && r.cells[at] == Held(x.value)
      && (forall j :: 0 <= j < |r.cells| && j != at ==>
            r.cells[j] == if j < |st.cells| then st.cells[j] else Unwritten)
      && r.index == at + 1
      && CountOf(r) == Max(CountOf(st), at + 1)
  {
  }

  /** A successful add writes its element at the cursor and moves the cursor past it. */
  lemma AddWritesAt(st: State, x: Option<seq<byte>>, allocOk: bool)
    requires Fits(st) && AddSpec(st, x, allocOk).0
    ensures var r := AddSpec(st, x, allocOk).1; var at := Cursor(st);
      && 0 <= at < |r.cells| && |st.cells| <= |r.cells|
      && r.cells[at] == Held(x.value) && r.index == at + 1
  {
  }

  /** An add leaves every slot other than the cursor's as it was. */
  lemma AddKeepsSlot(st: State, x: Option<seq<byte>>, allocOk: bool, j: int)
    requires Fits(st) && 0 <= j < |st.cells| && j != Cursor(st)
    ensures j < |AddSpec(st, x, allocOk).1.cells|
    ensures AddSpec(st, x, allocOk).1.cells[j] == st.cells[j]
  {
  }

  /**
   * The capacity starts at INIT_LEN, grows by exactly LEN_INC when the cursor has reached it,
   * and never shrinks; a failed add never changes the count.
   */
  lemma AddCapacity(st: State, x: Option<seq<byte>>, allocOk: bool)
    requires Shape(st)
    ensures var r := AddSpec(st, x, allocOk);
      && (r.0 ==> r.1.len == if !st.hasBuf then INIT_LEN
                             else if st.index >= st.len then st.len + LEN_INC
                             else st.len)
      && (st.hasBuf ==> r.1.hasBuf && r.1.len >= st.len)
      && (!r.0 ==> CountOf(r.1) == CountOf(st))
  {
  }

  /**
   * After set_array_index(i) an add overwrites slot i, without growing the buffer or lowering
   * the count.
   */
  lemma OverwriteAfterSetIndex(st: State, i: nat, x: seq<byte>, allocOk: bool)
    requires Shape(st) && st.hasBuf && i < st.len
    ensures var r := AddSpec(st.(index := i), Some(x), allocOk);
      && r.0 && r.1.cells == st.cells[i := Held(x)] && r.1.len == st.len
      && r.1.index == i + 1 && CountOf(r.1) >= CountOf(st)
  {
  }

  /**
   * The add loops, when every add succeeds, leave the cursor after the last element written
   * and the count raised to at least that cursor.
   */
  lemma {:induction false} AddAllCursor(st: State, xs: seq<Option<seq<byte>>>, oks: seq<bool>, n: nat)
    requires Fits(st) && 0 < n <= |xs| && n <= |oks| && AddAll(st, xs, oks, n).0
    ensures var r := AddAll(st, xs, oks, n).1; var at := Cursor(st);
      && r.hasBuf && at + n <= |r.cells| && |st.cells| <= |r.cells|
      && r.index == at + n
      && CountOf(r) == Max(CountOf(st), at + n)
  {
    AddWrites(AddAll(st, xs, oks, n - 1).1, xs[n - 1], oks[n - 1]);
    if n > 1 {
      AddAllCursor(st, xs, oks, n - 1);
    }
  }

  /** The slots from `at` on hold the first `n` elements of `xs`, all of them present. */
  ghost predicate Appended(cells: seq<Cell>, at: int, xs: seq<Option<seq<byte>>>, n: nat)
  {
    && 0 <= at && at + n <= |cells| && n <= |xs|
    && forall j :: 0 <= j < n ==> xs[j].Some? && cells[at + j] == Held(xs[j].value)
  }

  /** An add at the slot after the ones already appended extends them by its element. */
  lemma AppendedStep(m: State, xs: seq<Option<seq<byte>>>, ok: bool, at: int, n: nat)
    requires Fits(m) && 0 < n <= |xs| && Cursor(m) == at + n - 1 && AddSpec(m, xs[n - 1], ok).0
    requires Appended(m.cells, at, xs, n - 1)
    ensures Appended(AddSpec(m, xs[n - 1], ok).1.cells, at, xs, n)
  {
    var r := AddSpec(m, xs[n - 1], ok).1;
    AddWritesAt(m, xs[n - 1], ok);
    forall k | at <= k < at + n - 1
      ensures r.cells[k] == m.cells[k]
    {
      AddKeepsSlot(m, xs[n - 1], ok, k);
    }
  }

  /**
   * The add loops, when every add succeeds, write the elements into consecutive slots from
   * the cursor on.
   */
  lemma {:induction false} AddAllAppends(st: State, xs: seq<Option<seq<byte>>>, oks: seq<bool>, n: nat)
    requires Fits(st) && n <= |xs| && n <= |oks| && AddAll(st, xs, oks, n).0
    ensures Appended(AddAll(st, xs, oks, n).1.cells, Cursor(st), xs, n)
  {
    if n > 0 {
      var m := AddAll(st, xs, oks, n - 1).1;
      if n > 1 {
        AddAllCursor(st, xs, oks, n - 1);
      }
      AddAllAppends(st, xs, oks, n - 1);
      AppendedStep(m, xs, oks[n - 1], Cursor(st), n);
    }
  }

  /** The add loops leave the slots outside the ones they write as they were. */
  lemma {:induction false} AddAllKeeps(st: State, xs: seq<Option<seq<byte>>>, oks: seq<bool>, n: nat)
    requires Fits(st) && 0 < n <= |xs| && n <= |oks| && AddAll(st, xs, oks, n).0
    ensures var r := AddAll(st, xs, oks, n).1; var at := Cursor(st);
      && |st.cells| <= |r.cells|
      && forall j :: 0 <= j < |st.cells| && !(at <= j < at + n) ==> r.cells[j] == st.cells[j]
  {
    var m := AddAll(st, xs, oks, n - 1).1;
    AddWrites(m, xs[n - 1], oks[n - 1]);
    if n > 1 {
      AddAllCursor(st, xs, oks, n - 1);
      AddAllKeeps(st, xs, oks, n - 1);
    }
  }

  /**
   * The add loops stop at the first failure: the result is that of the failing add on the
   * state the elements before it reached, all of which were added.
   */
  lemma {:induction false} AddAllStops(st: State, xs: seq<Option<seq<byte>>>, oks: seq<bool>, n: nat)
    requires Fits(st) && n <= |xs| && n <= |oks| && !AddAll(st, xs, oks, n).0
    ensures exists j :: (0 <= j < n && AddAll(st, xs, oks, j).0
      && AddAll(st, xs, oks, n) == AddSpec(AddAll(st, xs, oks, j).1, xs[j], oks[j]))
  {
    if !AddAll(st, xs, oks, n - 1).0 {
      AddAllStops(st, xs, oks, n - 1);
    }
  }

  /** Adding elements that are all present, with every allocation succeeding, succeeds. */
  lemma {:induction false} AddAllSucceeds(st: State, xs: seq<Option<seq<byte>>>, oks: seq<bool>, n: nat)
    requires Fits(st) && n <= |xs| && n <= |oks|
    requires forall j :: 0 <= j < n ==> xs[j].Some? && oks[j]
    ensures AddAll(st, xs, oks, n).0
  {
    if n > 0 {
      AddAllSucceeds(st, xs, oks, n - 1);
    }
  }

  /**
   * A flush returns exactly the counted slots, or None when nothing is counted or the
   * realloc fails; except after a failed realloc the vector is empty again afterwards.
   */
  lemma FlushResult(st: State, allocOk: bool)
    requires Shape(st) && st.ready
    ensures var r := FlushSpec(st, allocOk);
      && (r.0.Some? <==> CountOf(st) > 0 && allocOk)
      && (r.0.Some? ==> |r.0.value| == CountOf(st) && r.0.value == st.cells[..CountOf(st)])
      && (r.0.None? && CountOf(st) > 0 ==> r.1 == st)
      && (r.0.Some? || CountOf(st) == 0 ==>
            && !r.1.hasBuf && r.1.cells == [] && r.1.ready
            && CountOf(r.1) == 0 && r.1.index == 0 && r.1.len == 0)
  {
  }

  /**
   * Adding n > 0 elements to a vector without a buffer (new, or flushed) and then flushing
   * gives back exactly those n elements, in order.
   */
  lemma AddAllThenFlush(st: State, xs: seq<Option<seq<byte>>>, oks: seq<bool>)
    requires Shape(st) && !st.hasBuf && 0 < |xs| <= |oks|
    requires forall j :: 0 <= j < |xs| ==> xs[j].Some? && oks[j]
    ensures AddAll(st, xs, oks, |xs|).0 && Shape(AddAll(st, xs, oks, |xs|).1)
    ensures var out := FlushSpec(AddAll(st, xs, oks, |xs|).1, true).0;
      && out.Some? && |out.value| == |xs|
      && forall j :: 0 <= j < |xs| ==> out.value[j] == Held(xs[j].value)
  {
    AddAllSucceeds(st, xs, oks, |xs|);
    AddAllShape(st, xs, oks, |xs|);
    AddAllCursor(st, xs, oks, |xs|);
    AddAllAppends(st, xs, oks, |xs|);
  }

  /** The add loops keep the relations between the fields. */
  lemma {:induction false} AddAllShape(st: State, xs: seq<Option<seq<byte>>>, oks: seq<bool>, n: nat)
    requires Shape(st) && n <= |xs| && n <= |oks|
    ensures Shape(AddAll(st, xs, oks, n).1)
  {
    if n > 0 {
      AddAllShape(st, xs, oks, n - 1);
      AddKeepsShape(AddAll(st, xs, oks, n - 1).1, xs[n - 1], oks[n - 1]);
    }
  }

  /**
   * With the corrected guard a delete succeeds exactly for a counted index and then lowers
   * the count by one; the slots, the cursor and the capacity are untouched.
   */
  lemma DeleteCount(st: State, i: nat)
    requires Shape(st) && st.ready
    ensures var r := DeleteSpec(st, i);
      && (r.0 <==> i < CountOf(st))
      && CountOf(r.1) == CountOf(st) - (if r.0 then 1 else 0)
      && r.1.cells == st.cells && r.1.index == st.index && r.1.len == st.len
      && r.1.hasBuf == st.hasBuf && r.1.ready == st.ready
  {
  }

  /**
   * As written, a delete on a vector whose buffer exists but counts nothing passes the guard
   * (which only looks at the capacity) and wraps the count to SIZE_MAX: add one element,
   * delete it, delete slot 0 again.
   */
  lemma DeleteAsWrittenWraps(x: seq<byte>)
    ensures var start := State([], false, 0, 0, 0, false);
      var added := AddSpec(start, Some(x), true).1;
      var once := DeleteAsWritten(added, 0);
      var twice := DeleteAsWritten(once.1, 0);
      && once.0 && CountOf(once.1) == 0
      && twice.0 && CountOf(twice.1) == SIZE_MAX && !Shape(twice.1)
  {
  }

  /** The same calls with the corrected guard: the second delete is refused. */
  lemma DeleteCorrectedRefuses(x: seq<byte>)
    ensures var start := State([], false, 0, 0, 0, false);
      var added := AddSpec(start, Some(x), true).1;
      var once := DeleteSpec(added, 0);
      var twice := DeleteSpec(once.1, 0);
      && once.0 && CountOf(once.1) == 0
      && !twice.0 && twice.1 == once.1
  {
  }
}
