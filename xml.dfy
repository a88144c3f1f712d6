/**
 * XML nodes and attributes (xml.c): the owned name/value strings set through dupstr and
 * set_string, the growable pointer vectors of attributes and children filled by
 * insert_buffer, and the recursive copy duplicate_xml_node.
 *
 * A name or value is the text of a C string, None for NULL. The pointer vectors of a node
 * (num_xxx, allocated_xxx and the array itself, which insert_buffer reaches by viewing them
 * as one BUFFER_t) are a Buffer value.
 */
module Xml {
  import opened Common
  import opened XmlStrings

  /** dupstr: a copy of the text, or NULL for NULL or when the malloc fails. */
  function Dupstr(input: Option<seq<byte>>, allocOk: bool): (r: Option<seq<byte>>)
    ensures r.Some? <==> input.Some? && allocOk
    ensures r.Some? ==> r == input
  {
    if input.None? then None
    else if !allocOk then None
    else input
  }

  /**
   * set_string: the new value of a name or value field, a copy of `s` when `copy` is set and
   * `s` itself otherwise (the old value is freed).
   */
  function SetString(s: Option<seq<byte>>, copy: bool, allocOk: bool): (r: Option<seq<byte>>)
    ensures r.None? <==> s.None? || (copy && !allocOk)
    ensures r.Some? ==> r == s
    ensures !copy ==> r == s
  {
    if copy then Dupstr(s, allocOk) else s
  }

  /**
   * BUFFER_t: the pointers in use, the number of slots allocated, and whether the array has
   * been allocated at all.
   */
  datatype Buffer<T> = Buffer(items: seq<T>, alloc: int, hasArr: bool)

  /** The vector of a node fresh from calloc: no array, nothing in use, nothing allocated. */
  function NoBuffer<T>(): (r: Buffer<T>)
    ensures BufferOk(r) && r.items == []
  {
    Buffer([], 0, false)
  }

  /**
   * The relation insert_buffer keeps: an allocated array has a multiple of INCREASE_SIZE
   * slots, at least INITIAL_SIZE, and always a free one; without an array nothing is used.
   */
  ghost predicate BufferOk<T>(b: Buffer<T>)
  {
    if b.hasArr then
      && INITIAL_SIZE <= b.alloc && b.alloc % INCREASE_SIZE == 0
      && |b.items| < b.alloc
    else b.items == [] && b.alloc == 0
  }

  /** The number of slots insert_buffer stores into: INITIAL_SIZE for a new array. */
  function Slots<T>(b: Buffer<T>): int
  {
    if b.hasArr then b.alloc else INITIAL_SIZE
  }

  /**
   * insert_buffer: allocate the array on first use, store `p` in the next slot, and grow the
   * array by INCREASE_SIZE once that leaves no free slot.
   */
  function InsertBuffer<T>(b: Buffer<T>, p: T): (r: Buffer<T>)
    ensures r.items == b.items + [p] && r.hasArr
    ensures BufferOk(b) ==> BufferOk(r)
  {
    var base := if !b.hasArr then b.(alloc := INITIAL_SIZE, hasArr := true) else b;
    var stored := base.(items := base.items + [p]);
    if |stored.items| >= stored.alloc then stored.(alloc := stored.alloc + INCREASE_SIZE)
    else stored
  }

  /**
   * The store of insert_buffer is in bounds, and the array grows by exactly INCREASE_SIZE
   * exactly when the store fills it; it never shrinks.
   */
  lemma InsertBufferCapacity<T>(b: Buffer<T>, p: T)
    requires BufferOk(b)
    ensures |b.items| < Slots(b)
    ensures var r := InsertBuffer(b, p);
      && (r.alloc == Slots(b) + INCREASE_SIZE <==> |r.items| == Slots(b))
      && (r.alloc == Slots(b) <==> |r.items| < Slots(b))
      && b.alloc <= r.alloc
  {
  }

  /** Storing into a fresh vector allocates INITIAL_SIZE slots. */
  lemma InsertBufferFirst<T>(p: T)
    ensures InsertBuffer(NoBuffer<T>(), p) == Buffer([p], INITIAL_SIZE, true)
  {
  }

  /** XML_ATTRIB_t: a name and a value, each owned or NULL. */
  class XmlAttrib {
    var name: Option<seq<byte>>
    var value: Option<seq<byte>>

    /** new_xml_attrib: both strings NULL. */
    constructor ()
      ensures name == None && value == None
    {
      name := None;
      value := None;
    }

    /** xml_attrib_set_name. */
    method SetName(s: Option<seq<byte>>, copy: bool, allocOk: bool)
      modifies this
      ensures name == SetString(s, copy, allocOk) && value == old(value)
    {
      name := SetString(s, copy, allocOk);
    }

    /** xml_attrib_set_value. */
    method SetValue(s: Option<seq<byte>>, copy: bool, allocOk: bool)
      modifies this
      ensures value == SetString(s, copy, allocOk) && name == old(name)
    {
      value := SetString(s, copy, allocOk);
    }
  }

  /** new_xml_attrib: the calloc'd attribute, or NULL when that calloc fails. */
  method NewXmlAttrib(allocOk: bool) returns (r: XmlAttrib?)
    ensures r == null <==> !allocOk
    ensures r != null ==> fresh(r) && r.name == None && r.value == None
  {
    if !allocOk {
      return null;
    }
    r := new XmlAttrib();
  }

  /**
   * duplicate_xml_attrib: it builds a copy of the strings in a new attribute but returns
   * the attribute it was given, so the copy is unreachable.
   */
  method DuplicateAttrib(attr: XmlAttrib) returns (r: XmlAttrib)
    ensures r == attr && unchanged(attr)
  {
    var copy := new XmlAttrib();
    if attr.name.Some? {
      copy.name := Dupstr(attr.name, true);
    }
    if attr.value.Some? {
      copy.value := Dupstr(attr.value, true);
    }
    r := attr;
  }

  /** XML_NODE_t. */
  class XmlNode {
    var name: Option<seq<byte>>
    var value: Option<seq<byte>>
    var attrib: Buffer<XmlAttrib>
    var children: Buffer<XmlNode>
    var parent: XmlNode?
    var a: ConcatString
    var e: ConcatString
    ghost var Repr: set<object>

    /**
     * The node, its two strings and, recursively, the children it owns; no node is its own
     * descendant.
     */
    ghost predicate Valid()
      reads this, Repr
      decreases Repr
    {
      && this in Repr && a in Repr && e in Repr
      && (a.buf != null ==> a.buf in Repr) && (e.buf != null ==> e.buf in Repr)
      && a.Valid() && e.Valid()
      && BufferOk(attrib) && BufferOk(children)
      && forall i :: 0 <= i < |children.items| ==>
           && children.items[i] in Repr && children.items[i].Repr <= Repr
           && this !in children.items[i].Repr && children.items[i].Valid()
    }

    /** new_xml_node: everything NULL or zero. */
    constructor ()
      ensures Valid() && fresh(Repr)
      ensures name == None && value == None && parent == null
      ensures attrib == NoBuffer() && children == NoBuffer()
      ensures a.Text() == [] && e.Text() == [] && a.len == 0 && e.len == 0
    {
      name := None;
      value := None;
      attrib := NoBuffer();
      children := NoBuffer();
      parent := null;
      a := new ConcatString();
      e := new ConcatString();
      Repr := {this, a, e};
    }

    /**
     * The new node of duplicate_xml_node once its parts are copied: the fields of `src`, with
     * copies of its text accumulators, the attributes duplicate_xml_attrib returned and
     * copies of its children.
     */
    constructor Copy(src: XmlNode, a: ConcatString, e: ConcatString, attribs: seq<XmlAttrib>,
                     kids: seq<XmlNode>, ghost kidsRepr: set<object>)
      requires src.Valid() && a.Valid() && e.Valid()
      requires a.len == src.a.len && a.Text() == src.a.Text()
      requires e.len == src.e.len && e.Text() == src.e.Text()
      requires attribs == src.attrib.items
      requires |kids| == |src.children.items| && CopiesOf(kids, src, kidsRepr)
      ensures Valid() && Copied(this, src)
      ensures Repr == {this} + a.Footprint() + e.Footprint() + kidsRepr
    {
      name := src.name;
      value := src.value;
      parent := src.parent;
      attrib := src.attrib.(items := attribs);
      children := src.children.(items := kids);
      this.a := a;
      this.e := e;
      Repr := {this} + a.Footprint() + e.Footprint() + kidsRepr;
    }

    /** xml_set_name. */
    method SetName(s: Option<seq<byte>>, copy: bool, allocOk: bool)
      requires Valid()
      modifies this
      ensures Valid() && Repr == old(Repr)
      ensures name == SetString(s, copy, allocOk)
      ensures value == old(value) && attrib == old(attrib) && children == old(children)
      ensures parent == old(parent) && a == old(a) && e == old(e)
    {
      name := SetString(s, copy, allocOk);
    }

    /** xml_set_value. */
    method SetValue(s: Option<seq<byte>>, copy: bool, allocOk: bool)
      requires Valid()
      modifies this
      ensures Valid() && Repr == old(Repr)
      ensures value == SetString(s, copy, allocOk)
      ensures name == old(name) && attrib == old(attrib) && children == old(children)
      ensures parent == old(parent) && a == old(a) && e == old(e)
    {
      value := SetString(s, copy, allocOk);
    }

    /**
     * xml_add_attribute: append the attribute; with `copy` set it appends what
     * duplicate_xml_attrib returns, which is the same attribute.
     */
    method AddAttribute(attr: XmlAttrib, copy: bool)
      requires Valid()
      modifies this
      ensures Valid() && Repr == old(Repr)
      ensures attrib == InsertBuffer(old(attrib), attr)
      ensures name == old(name) && value == old(value) && children == old(children)
      ensures parent == old(parent) && a == old(a) && e == old(e)
    {
      var x := attr;
      if copy {
        x := DuplicateAttrib(attr);
      }
      attrib := InsertBuffer(attrib, x);
    }

    /**
     * xml_add_child_node: make this node the parent of `n`, then append `n` itself or, with
     * `copy` set, a copy of it (made after the parent was set). The child must not already
     * belong to this node's tree.
     */
    method AddChild(n: XmlNode, copy: bool) returns (ghost c: XmlNode)
      requires Valid() && n.Valid() && Repr !! n.Repr
      modifies this, n
      ensures Valid() && n.Valid() && n.parent == this
      ensures children == InsertBuffer(old(children), c) && Repr == old(Repr) + c.Repr
      ensures !copy ==> c == n
      ensures copy ==> fresh(c.Repr) && c.Valid() && Copied(c, n)
      ensures name == old(name) && value == old(value) && attrib == old(attrib)
      ensures parent == old(parent) && a == old(a) && e == old(e)
      ensures unchanged(n`name, n`value, n`attrib, n`children, n`a, n`e, n`Repr)
    {
      n.parent := this;
      n.ParentChanged();
      if copy {
        c := AdoptCopy(n);
      } else {
        Adopt(n);
        c := n;
      }
    }

    /** The copying branch of xml_add_child_node: append a copy of `n`. */
    method AdoptCopy(n: XmlNode) returns (ghost c: XmlNode)
      requires Valid() && n.Valid() && this !in n.Repr
      modifies this
      ensures Valid() && children == InsertBuffer(old(children), c) && Repr == old(Repr) + c.Repr
      ensures fresh(c.Repr) && c.Valid() && Copied(c, n)
      ensures name == old(name) && value == old(value) && attrib == old(attrib)
      ensures parent == old(parent) && a == old(a) && e == old(e)
    {
      var k := Duplicate(n);
      Adopt(k);
      c := k;
    }

    /** The insert_buffer step of xml_add_child_node: `c` and its tree join this node's. */
    method Adopt(c: XmlNode)
      requires Valid() && c.Valid() && this !in c.Repr
      modifies this
      ensures Valid() && children == InsertBuffer(old(children), c) && Repr == old(Repr) + c.Repr
      ensures name == old(name) && value == old(value) && attrib == old(attrib)
      ensures parent == old(parent) && a == old(a) && e == old(e)
    {
      children, Repr := InsertBuffer(children, c), Repr + c.Repr;
    }

    /** Setting the parent of a node leaves its tree as it was. */
    twostate lemma ParentChanged()
      requires old(Valid()) && unchanged(this`name, this`value, this`attrib, this`children)
      requires unchanged(this`a, this`e, this`Repr) && unchanged(Repr - {this})
      ensures Valid()
    {
      forall i | 0 <= i < |children.items|
        ensures children.items[i].Valid()
      {
        var c := children.items[i];
        assert old(c.Valid());
        assert unchanged(c.Repr);
      }
    }
  }

  /** new_xml_node: the calloc'd node, or NULL when that calloc fails. */
  method NewXmlNode(allocOk: bool) returns (r: XmlNode?)
    ensures r == null <==> !allocOk
    ensures r != null ==> fresh(r.Repr) && r.Valid()
    ensures r != null ==> r.name == None && r.value == None && r.parent == null
    ensures r != null ==> r.attrib == NoBuffer() && r.children == NoBuffer()
    ensures r != null ==> r.a.Text() == [] && r.e.Text() == [] && r.a.len == 0 && r.e.len == 0
  {
    if !allocOk {
      return null;
    }
    r := new XmlNode();
  }

  /**
   * `d` is a copy of `n` as duplicate_xml_node makes it: the same strings, the same attribute
   * objects, the same parent, vectors of the same sizes, equal text accumulators, and each
   * child a copy of the corresponding child.
   */
  ghost predicate Copied(d: XmlNode, n: XmlNode)
    requires d.Valid() && n.Valid()
    reads d.Repr, n.Repr
    decreases n.Repr
  {
    && d.name == n.name && d.value == n.value && d.parent == n.parent
    && d.attrib == n.attrib
    && d.children.alloc == n.children.alloc && d.children.hasArr == n.children.hasArr
    && |d.children.items| == |n.children.items|
    && d.a.len == n.a.len && d.a.Text() == n.a.Text()
    && d.e.len == n.e.len && d.e.Text() == n.e.Text()
    && forall i :: 0 <= i < |n.children.items| ==> Copied(d.children.items[i], n.children.items[i])
  }

  /**
   * duplicate_xml_node: a new node with copies of the name, value and text accumulators,
   * new vectors holding the attributes (as duplicate_xml_attrib returns them) and copies of
   * the children, made recursively.
   */
  method Duplicate(node: XmlNode) returns (d: XmlNode)
    requires node.Valid()
    ensures fresh(d.Repr) && d.Valid() && Copied(d, node)
    decreases node.Repr, 1
  {
    var kids, kidsRepr := DuplicateChildren(node);
    var a, e, attribs := DuplicateParts(node);
    d := new XmlNode.Copy(node, a, e, attribs, kids, kidsRepr);
  }

  /** The duplicate_string calls and the attribute loop of duplicate_xml_node. */
  method DuplicateParts(node: XmlNode) returns (a: ConcatString, e: ConcatString, attribs: seq<XmlAttrib>)
    requires node.Valid()
    ensures fresh(a.Footprint()) && a.Valid() && a.len == node.a.len && a.Text() == node.a.Text()
    ensures fresh(e.Footprint()) && e.Valid() && e.len == node.e.len && e.Text() == node.e.Text()
    ensures attribs == node.attrib.items
  {
    a := node.a.Duplicate();
    e := node.e.Duplicate();
    attribs := DuplicateAttribs(node.attrib.items);
  }

  /** The attribute loop of duplicate_xml_node. */
  method DuplicateAttribs(items: seq<XmlAttrib>) returns (r: seq<XmlAttrib>)
    ensures r == items
  {
    r := [];
    var i := 0;
    while i < |items|
      invariant 0 <= i <= |items| && r == items[..i]
    {
      var x := DuplicateAttrib(items[i]);
      r := r + [x];
      i := i + 1;
    }
  }

  /** The first |kids| children of `src` are copied, in order, into `kids`, whose trees lie in `R`. */
  ghost predicate CopiesOf(kids: seq<XmlNode>, src: XmlNode, R: set<object>)
    requires src.Valid()
    reads kids, R, src.Repr
  {
    && |kids| <= |src.children.items|
    && forall j :: 0 <= j < |kids| ==>
         && kids[j] in kids[j].Repr && kids[j].Repr <= R && kids[j].Valid()
         && Copied(kids[j], src.children.items[j])
  }

  /** One more copied child extends the copies. */
  lemma CopiesExtend(kids: seq<XmlNode>, k: XmlNode, src: XmlNode, R: set<object>)
    requires src.Valid() && CopiesOf(kids, src, R) && |kids| < |src.children.items|
    requires k in k.Repr && k.Valid() && Copied(k, src.children.items[|kids|])
    ensures CopiesOf(kids + [k], src, R + k.Repr)
  {
    var ks := kids + [k];
    assert forall j :: 0 <= j < |kids| ==> ks[j] == kids[j];
    assert ks[|kids|] == k;
  }

  /** The child loop of duplicate_xml_node: a copy of each child, in order. */
  method DuplicateChildren(node: XmlNode) returns (kids: seq<XmlNode>, ghost kidsRepr: set<object>)
    requires node.Valid()
    ensures fresh(kidsRepr) && |kids| == |node.children.items| && CopiesOf(kids, node, kidsRepr)
    decreases node.Repr, 0
  {
    kids := [];
    kidsRepr := {};
    var i := 0;
    while i < |node.children.items|
      invariant 0 <= i <= |node.children.items| && |kids| == i
      invariant fresh(kidsRepr) && CopiesOf(kids, node, kidsRepr)
    {
      var k := Duplicate(node.children.items[i]);
      CopiesExtend(kids, k, node, kidsRepr);
      kids := kids + [k];
      kidsRepr := kidsRepr + k.Repr;
      i := i + 1;
    }
  }
}
