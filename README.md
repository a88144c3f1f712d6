# C Data Structures — a verified Dafny model

This project models three containers from the C Data Structures library (ComprosoftCEO).
Each operation is proved against a specification.

- **The Dynamic Linked-List Array (DyLL, `dyll_array.c`).** A growable table of slots.
  - The live elements form a doubly-linked in-use list, threaded by slot index.
  - The unused slots form a singly-linked free list. Its last slot points one past the end of the table.
  - Positions are resolved by walking the in-use list.
  - Slots are handed out from, and given back to, the head of the free list (last in, first out).
  - The table grows by 10 slots only when the free list is exhausted.

  Modules: `DyllChains` holds the sequence-level theory of the two chains; `DyllArray` holds the class with its slot `array`.
  The abstract view is three ghost sequences:
  - `Contents`: the payloads in list order;
  - `Order`: the slot indices of the in-use list;
  - `Free`: the free list.

  The invariant `Valid` ties them to the table:
  - the two chains partition the slots;
  - the list ends and the free head are right;
  - `itemsInUse` is the length of the list;
  - `bytes` is the total payload length.
- **The dynamic array (`dynamic_array.c`).** A vector of fixed-size elements.
  - Its buffer is allocated lazily with 16 slots and grown by 16.
  - It keeps an insertion cursor `index`, a capacity `len` and a high-water mark `max`, which is what the count reports.

  Module `DynamicArray`. The class keeps the buffer in an `array` of slots. Each method is proved equal to a function on a `State` value: `AddSpec`, `AddAll`, `FlushSpec` and `DeleteSpec`. Lemmas state what those functions mean.
- **The XML helpers (`xml.c`).**
  - Module `XmlStrings` covers:
    - `filter`, as an in-place two-pointer loop over a byte `array`;
    - the text accumulator `CONCAT_STR_t`, as the class `ConcatString` with `concat_string`, `flush_con_string` and `duplicate_string`.
  - Module `Xml` covers:
    - `dupstr` and `set_string`;
    - `insert_buffer`, over a `Buffer` value;
    - the attribute and node classes with their setters, `xml_add_attribute` and `xml_add_child_node`;
    - the recursive copy `duplicate_xml_node`.

  A node owns its children through a ghost `Repr` set. `Copied` states the shape a duplicate has.

The source's inputs become explicit parameters:
- an allocation outcome (`malloc`, `calloc`, `realloc`) that the source checks or returns is a boolean parameter (`allocOk`, `growOk`, `copyOk`); the allocations the source never checks are assumed to succeed (listed under "Left out");
- a NULL pointer is `None`, or `null` for objects;
- byte strings are `seq<byte>`;
- C strings are byte arrays ending in a NUL.

## Model

| member | source | states |
|---|---|---|
| DyllChains.TotalBytesAppend | dyll_array.c:31 | the byte count of two runs of elements is the sum of their byte counts |
| DyllChains.TotalBytesInsert | dyll_array.c:111-112 | inserting a payload at any position adds exactly its length to the byte count |
| DyllChains.TotalBytesRemove | dyll_array.c:117-120 | removing the element at p subtracts exactly that element's length |
| DyllChains.ConcatLength | dyll_array.c:369-386 | the elements laid end to end are exactly `bytes` long, so the flush buffer is filled |
| DyllChains.PrefixStep | dyll_array.c:377-383 | draining element k appends its bytes to those of the first k |
| DyllChains.TotalBytesPrefix | dyll_array.c:382 | the bytes drained so far plus those remaining make up the total |
| DyllChains.PartitionGrow | dyll_array.c:59-63 | the new chunk's slots join the end of the free list and every slot stays on exactly one chain |
| DyllChains.PartitionPop | dyll_array.c:77-79 | popping the free head moves exactly that slot off the free list, and it was on neither chain otherwise |
| DyllChains.PartitionPush | dyll_array.c:84-87 | pushing a detached slot on the free list restores the partition |
| DyllChains.PartitionSplice | dyll_array.c:230-239 | splicing a popped slot in at any position keeps every slot on exactly one chain |
| DyllChains.PartitionUnsplice | dyll_array.c:290-301 | unlinking position p leaves that slot on neither chain and the rest partitioned |
| DyllChains.InsertMembers | dyll_array.c:237-239 | after an insertion the list holds exactly the old slots and the new one |
| DyllChains.RemoveMembers | dyll_array.c:291-301 | after a removal the list holds exactly the other slots |
| DyllChains.InsertedAt | dyll_array.c:213-242 | inserting at p keeps positions below p, puts the new slot at p and shifts the rest up by one |
| DyllChains.RemovedAt | dyll_array.c:279-306 | removing p keeps positions below p and shifts the rest down by one |
| DyllChains.InsertIndices | dyll_array.c:237-239 | an inserted list still holds distinct slot indices within the table |
| DyllChains.InsertLinks | dyll_array.c:196-207 | rewriting only the predecessor's next, the successor's pre and the new slot threads the list with the new element at p, with correct `next`/`pre` links, data and lengths everywhere |
| DyllChains.RemoveLinks | dyll_array.c:290-301 | patching the neighbours of position p threads the list without that element, every other link, datum and length correct |
| DyllChains.FreePush | dyll_array.c:84-86 | a slot whose next is set to the old head, and which becomes the head, extends the free chain at the front |
| DyllChains.FreePop | dyll_array.c:77-78 | the rest of the free chain is still linked after its head is taken |
| DyllChains.FreeGrow | dyll_array.c:58-61 | new slots that each point at the next index continue the free chain, which still ends one past the table |
| DyllChains.InUseGrow | dyll_array.c:53-55 | appending slots to the table leaves the in-use list intact |
| DyllChains.DetachedFrame | dyll_array.c:107-111 | writing a slot that is on neither chain disturbs neither chain |
| DyllChains.SpliceInFree | dyll_array.c:230-239 | linking a slot into the in-use list leaves the free chain intact |
| DyllChains.SpliceOutFree | dyll_array.c:290-301 | unlinking an element leaves the free chain intact |
| DyllArray.DyllArray.constructor | dyll_array.c:131-149 | a new array is empty, with 10 slots all on the free list in index order, head 0 |
| DyllArray.AddTwoThenGet | dyll_array.c:182-210 | two successful adds in a row leave the valid array holding both payloads after the old ones, and the first of them is then read back with its length |
| DyllArray.NewDyllArray | dyll_array.c:131-137 | NULL exactly when an allocation fails, otherwise an empty valid array of 10 slots |
| DyllArray.Realloc | dyll_array.c:53-62 | the table grows by 10 slots, keeps the old ones, and each new slot links to the next index; the first new slot has no predecessor |
| DyllArray.DyllArray.AddChunk | dyll_array.c:52-65 | on success the capacity grows by exactly 10, the new slots are appended to the free list and the elements are untouched; on failure nothing changes |
| DyllArray.DyllArray.NextEntry | dyll_array.c:69-81 | hands out the old free-list head, growing first exactly when the free list is empty; LL_NULL exactly when that growth fails; the slot is then on neither chain |
| DyllArray.DyllArray.FreeEntry | dyll_array.c:84-88 | the slot becomes the free-list head, linked to the old head, and the count drops by one |
| DyllArray.DyllArray.GetIndex | dyll_array.c:92-102 | the walk yields the slot of position `index`, or LL_NULL when there is no such element |
| DyllArray.DyllArray.CopyData | dyll_array.c:105-115 | on success the slot holds the payload and its length and `bytes` grows by that length; on a failed malloc nothing visible changes |
| DyllArray.DyllArray.FreeData | dyll_array.c:117-120 | `bytes` drops by the slot's length |
| DyllArray.DyllArray.Add | dyll_array.c:182-210 | succeeds exactly when a slot is available (free or grown) and the copy succeeds; then the payload is the new last element in the old free head's slot; on failure the elements are unchanged and a popped slot is back at the free head; the slot table afterwards is the old array or a fresh one |
| DyllArray.DyllArray.Claim | dyll_array.c:187-194 | the shared add prologue: the free head carrying the payload and its bytes, or LL_NULL with the slot pushed back after a failed copy |
| DyllArray.DyllArray.LinkLast | dyll_array.c:196-207 | the slot becomes the tail; it is also the head when the list was empty |
| DyllArray.DyllArray.AttachLast | dyll_array.c:196-207 | linking a popped slot as the tail appends its payload to the elements and its index to the list order, restores the invariant and leaves the free list alone |
| DyllArray.DyllArray.AddBefore | dyll_array.c:213-242 | fails without any change when `index` >= count; otherwise the payload becomes element `index` and later elements shift up, with the same failure cases as Add; the slot table is the old array or a fresh one |
| DyllArray.DyllArray.LinkBefore | dyll_array.c:230-239 | the slot is spliced in front of position p, becoming the head when p is 0 |
| DyllArray.DyllArray.AttachBefore | dyll_array.c:230-239 | linking a popped slot in front of position p inserts its payload as element p, restores the invariant and leaves the free list alone |
| DyllArray.DyllArray.AddAfter | dyll_array.c:245-274 | fails without any change when `index` >= count; otherwise the payload becomes element `index`+1, with the same failure cases as Add; the slot table is the old array or a fresh one |
| DyllArray.DyllArray.LinkAfter | dyll_array.c:262-271 | the slot is spliced in behind position p, becoming the tail when p was last |
| DyllArray.DyllArray.AttachAfter | dyll_array.c:262-271 | linking a popped slot behind position p inserts its payload as element p+1, restores the invariant and leaves the free list alone |
| DyllArray.DyllArray.Delete | dyll_array.c:279-306 | fails without any change when `index` >= count; otherwise exactly element `index` is removed, the others keep their order, and its slot becomes the free-list head |
| DyllArray.DyllArray.Unlink | dyll_array.c:290-301 | the neighbours of position p are joined, and the head or tail moves when p is an end |
| DyllArray.DyllArray.Get | dyll_array.c:310-321 | element `index` and its length, or NULL past the end |
| DyllArray.DyllArray.Copy | dyll_array.c:324-337 | a copy of element `index` and its length; NULL past the end or when malloc fails |
| DyllArray.DyllArray.FlushElement | dyll_array.c:340-356 | returns element `index` and its length and removes it as Delete does; NULL and no change past the end |
| DyllArray.DyllArray.FlushArray | dyll_array.c:363-388 | returns all elements laid end to end in order, with total length equal to the old `bytes`; afterwards count and size are 0 and the capacity is kept; NULL and no change when malloc fails |
| DyllArray.DyllArray.DrainFront | dyll_array.c:376-383 | one turn of the drain loop appends the current first element to the buffer, or reports the array empty |
| DyllArray.CopyBytes | dyll_array.c:380 | the memcpy places the payload right after the bytes already written |
| DyllArray.DyllArray.Count | dyll_array.c:395-398 | the number of elements |
| DyllArray.DyllArray.Size | dyll_array.c:401-404 | the total payload length of the elements |
| DynamicArray.DynamicArray.constructor | dynamic_array.c:24-34 | a new array: element size set, cursor 0, no buffer, capacity and count not yet initialised |
| DynamicArray.NewDynamicArray | dynamic_array.c:24-35 | NULL exactly when the element size is 0 or malloc fails; otherwise the count is 0 |
| DynamicArray.AddOutcome | dynamic_array.c:58-85 | an add succeeds exactly when the element pointer is non-NULL and either an allocation succeeds or there is a buffer with room at the cursor |
| DynamicArray.AddWrites | dynamic_array.c:63-84 | a successful add writes the element at the cursor, keeps every other slot (new slots unwritten), advances the cursor by one and raises the count to at least the new cursor |
| DynamicArray.AddWritesAt | dynamic_array.c:81-83 | a successful add stores the element at the old cursor and advances the cursor |
| DynamicArray.AddKeepsSlot | dynamic_array.c:81 | an add leaves every slot other than the cursor's as it was |
| DynamicArray.AddCapacity | dynamic_array.c:63-78 | the capacity starts at 16 and grows by exactly 16 exactly when the cursor has reached it; it never shrinks; a failed add leaves the count as it was |
| DynamicArray.AddKeepsShape | dynamic_array.c:58-86 | an add keeps the relations between cursor, capacity, count and buffer |
| DynamicArray.AddSpec | dynamic_array.c:58-86 | an add keeps the slot layout (the cursor within the capacity, one slot per unit of capacity, no slots without a buffer); what it adds is stated by the lemmas below |
| DynamicArray.AddAll | dynamic_array.c:89-113 | a bulk add keeps the same slot layout; its meaning is stated by the AddAll lemmas |
| DynamicArray.FlushSpec | dynamic_array.c:157-176 | a flush keeps the consistency of cursor, capacity, count and buffer |
| DynamicArray.DeleteSpec | dynamic_array.c:117-123 | the corrected delete keeps the consistency of cursor, capacity, count and buffer |
| DynamicArray.DeleteAsWritten | dynamic_array.c:117-123 | as written, the delete succeeds exactly when the index is below `len`; the count, a size_t, drops by one and wraps from 0 to SIZE_MAX; no other field changes |
| DynamicArray.Chunks | dynamic_array.c:95-97 | the bulk source cut into `count` elements, each present and `el_size` bytes long |
| DynamicArray.AddKeepsInv | dynamic_array.c:81 | every written slot still holds exactly one element of the element size |
| DynamicArray.OverwriteAfterSetIndex | dynamic_array.c:137-145 | after moving the cursor to i < len, an add overwrites slot i and nothing else, and the count does not decrease |
| DynamicArray.AddAllFailed | dynamic_array.c:97 | once an add in the loop fails, the later elements are not added |
| DynamicArray.AddAllStops | dynamic_array.c:95-98 | a failed bulk add failed at some element j after all earlier ones succeeded |
| DynamicArray.AddAllSucceeds | dynamic_array.c:95-100 | the bulk add succeeds when every element is non-NULL and every allocation succeeds |
| DynamicArray.AddAllCursor | dynamic_array.c:95-98 | a successful bulk add of n elements advances the cursor by n and raises the count to at least the new cursor |
| DynamicArray.AddAllAppends | dynamic_array.c:95-98 | a successful bulk add puts the elements, in order, at the consecutive slots from the cursor |
| DynamicArray.AddAllKeeps | dynamic_array.c:95-98 | a successful bulk add leaves every slot outside the written run as it was |
| DynamicArray.AddAllShape | dynamic_array.c:89-113 | a bulk add keeps the relations between cursor, capacity, count and buffer |
| DynamicArray.ChunkAt | dynamic_array.c:96 | element i of the bulk source is the bytes at i*el_size, el_size long |
| DynamicArray.FlushResult | dynamic_array.c:157-176 | the flush returns the first `max` slots exactly when `max` > 0 and the realloc succeeds; otherwise NULL; unless the realloc failed, the buffer is dropped and the fields are reset to 0 |
| DynamicArray.AddAllThenFlush | dynamic_array.c:89-176 | adding elements to an array without a buffer and then flushing returns exactly those elements, in order |
| DynamicArray.DeleteCount | dynamic_array.c:121-123 | the corrected delete succeeds exactly when the index is below the count; it lowers the count by one and touches nothing else: the buffer, its slots, cursor and capacity are kept |
| DynamicArray.DeleteAsWrittenWraps | dynamic_array.c:121-123 | as written, a second delete after one add succeeds and wraps the count to SIZE_MAX |
| DynamicArray.DeleteCorrectedRefuses | dynamic_array.c:121-123 | with the corrected guard the same second delete is refused and changes nothing |
| DynamicArray.DynamicArray.AddElement | dynamic_array.c:58-86 | the add is AddSpec on the abstract state |
| DynamicArray.DynamicArray.AddElements | dynamic_array.c:89-101 | fails without change for a NULL source; otherwise the loop is AddAll over the el_size-byte chunks of the source |
| DynamicArray.DynamicArray.AddElementsP | dynamic_array.c:103-113 | fails without change for a NULL pointer array; otherwise the loop is AddAll over the pointed-to elements |
| DynamicArray.DynamicArray.AddNext | dynamic_array.c:109 | one turn of the `_p` loop extends the AddAll prefix by one element |
| DynamicArray.DynamicArray.AddChunkAt | dynamic_array.c:96-97 | one turn of the bulk loop extends the AddAll prefix by chunk i |
| DynamicArray.DynamicArray.Delete | dynamic_array.c:117-134 | the delete is the corrected DeleteSpec on the abstract state |
| DynamicArray.DynamicArray.SetIndex | dynamic_array.c:137-145 | succeeds exactly when i < len and then moves only the cursor |
| DynamicArray.DynamicArray.GetElement | dynamic_array.c:147-154 | slot i when i < len, NULL otherwise |
| DynamicArray.DynamicArray.Flush | dynamic_array.c:157-176 | the flush is FlushSpec on the abstract state |
| DynamicArray.DynamicArray.Count | dynamic_array.c:179-185 | the high-water mark `max`, or 0 without a buffer |
| DynamicArray.Grow | dynamic_array.c:73-77 | the realloc keeps every slot and adds 16 unwritten ones |
| XmlStrings.StrLen | xml.c:225 | strlen: the index of the first NUL |
| XmlStrings.CStr | xml.c:225 | the text of a C string holds no NUL and is shorter than its buffer |
| XmlStrings.Filtered | xml.c:207-215 | the filtered text is never longer than the input; what it keeps is stated by the lemmas below |
| XmlStrings.FilteredAppend | xml.c:209-213 | filtering works element by element: the filter of a concatenation is the concatenation of the filters |
| XmlStrings.FilteredCount | xml.c:210-211 | every printable byte (31 < c < 127) is kept as often as it occurs, and every other byte is dropped |
| XmlStrings.FilteredUnchanged | xml.c:210 | a string is left unchanged exactly when all its bytes are printable |
| XmlStrings.FilteredPrintable | xml.c:210-211 | the filtered text holds only printable bytes, so no NUL |
| XmlStrings.FilteredIdempotent | xml.c:207-215 | filtering twice is filtering once |
| XmlStrings.FilterOutcomeText | xml.c:214 | after the filter the C string reads as the filtered text |
| XmlStrings.Filter | xml.c:207-215 | the buffer becomes the filtered text, a NUL, and the old bytes after it; read as a C string it is the filtered old text |
| XmlStrings.Incoming | xml.c:224-231 | the text concat_string appends (filtered when asked) holds no NUL |
| XmlStrings.Realloc | xml.c:227 | the new buffer keeps the old bytes as far as both reach |
| XmlStrings.StrNCat | xml.c:231 | at most n bytes of the source text are appended to the destination text and terminated; the bytes after the new NUL are untouched |
| XmlStrings.ConcatString.constructor | xml.h:15-18 | a zeroed accumulator: no buffer, no text |
| XmlStrings.ConcatString.Concat | xml.c:218-233 | the text becomes the old text followed by the incoming text (filtered in the caller's buffer first when asked); a new accumulator gets capacity 16; the capacity grows by exactly 16 exactly when the combined text exceeds it |
| XmlStrings.ConcatString.Allocate | xml.c:219-222 | the first buffer: capacity 16 and empty text |
| XmlStrings.ConcatString.Grow | xml.c:225-229 | the capacity grows by 16, the text is kept and the buffer is NUL-terminated at its end |
| XmlStrings.ConcatString.GrowAndAppend | xml.c:225-232 | growth exactly when needed, then the append |
| XmlStrings.ConcatString.Append | xml.c:231-232 | the text is extended by the incoming text |
| XmlStrings.ConcatString.Flush | xml.c:236-244 | NULL exactly when the calloc or realloc fails; otherwise a new buffer holding the accumulated text (empty without a buffer) as a C string; either way the accumulator is left with no buffer and capacity 0 |
| XmlStrings.ConcatString.Duplicate | xml.c:247-256 | a new accumulator with the same capacity, a new buffer with the same bytes, and therefore the same text |
| Xml.Dupstr | xml.c:16-23 | NULL exactly for NULL input or a failed malloc, otherwise the same text |
| Xml.SetString | xml.c:26-30 | the field becomes NULL exactly when the string is NULL or, with `copy`, the malloc of the copy fails; otherwise it holds the same text; without `copy` it is the given string |
| Xml.NoBuffer | xml.c:86-88 | the zeroed vector of a new node is empty and consistent |
| Xml.InsertBuffer | xml.c:33-45 | the pointer is appended, the array exists afterwards, and the vector's consistency is kept |
| Xml.InsertBufferCapacity | xml.c:33-45 | the store is in bounds; the array grows by exactly 16 exactly when the store fills it; it never shrinks; a free slot always remains |
| Xml.InsertBufferFirst | xml.c:34-39 | the first store allocates 16 slots and holds the one pointer |
| Xml.XmlAttrib.constructor | xml.c:52-54 | both strings NULL |
| Xml.NewXmlAttrib | xml.c:52-54 | NULL exactly when the calloc fails; otherwise a new attribute with both strings NULL |
| Xml.XmlAttrib.SetName | xml.c:71-73 | set_string on the name; the value is untouched |
| Xml.XmlAttrib.SetValue | xml.c:75-77 | set_string on the value; the name is untouched |
| Xml.DuplicateAttrib | xml.c:56-63 | returns the attribute it was given, unchanged |
| Xml.XmlNode.constructor | xml.c:86-88 | everything NULL or zero: no strings, no parent, empty vectors, empty accumulators |
| Xml.NewXmlNode | xml.c:86-88 | NULL exactly when the calloc fails; otherwise a new, well-formed node with everything NULL or zero |
| Xml.XmlNode.Copy | xml.c:94-103 | the copy's fields equal the original's, with the new accumulators, attribute list and children, so it is Copied from the original |
| Xml.XmlNode.SetName | xml.c:145-147 | set_string on the name; all other fields are kept |
| Xml.XmlNode.SetValue | xml.c:149-151 | set_string on the value; all other fields are kept |
| Xml.XmlNode.AddAttribute | xml.c:154-160 | the attribute (or what duplicate_xml_attrib returns for it) is appended to the attribute vector; nothing else changes |
| Xml.XmlNode.AddChild | xml.c:162-169 | the child's parent becomes this node; the child itself or a new copy of it is appended to the children; the tree stays well formed; the child's other fields are unchanged |
| Xml.XmlNode.AdoptCopy | xml.c:165 | a new copy of the child, made after its parent was set, is appended |
| Xml.XmlNode.Adopt | xml.c:167 | the child is appended and its tree joins this node's |
| Xml.Duplicate | xml.c:90-115 | a new tree, disjoint from everything existing, with the same name, value, parent, attributes, vector sizes and accumulator texts, and a copy of each child in order |
| Xml.DuplicateParts | xml.c:96-108 | new accumulators equal in capacity and text to the node's, and the attribute list as duplicate_xml_attrib returns it |
| Xml.DuplicateAttribs | xml.c:106-108 | the new attribute list is the node's own |
| Xml.DuplicateChildren | xml.c:110-112 | a new copy of every child, in order, in new storage |
| Xml.CopiesExtend | xml.c:110-112 | one more copied child extends the copies made so far |

## Left out

- Printing (`xml_print_recurse`, `xml_print_node`) is I/O.
- The deallocation-only functions are not modelled: `free_dyll_array`, `free_dynamic_array` (its callback is a foreign function pointer), `free_xml_node`, `free_xml_attrib` and `free_string`. Memory is never freed in the model.
- Pointer identity of byte buffers and byte-level struct layout are not modelled.
  - Payloads are values, so a returned element is "equal to" the stored one rather than the same block.
  - The `BUFFER_t` cast over `num_xxx`/`allocated_xxx` is a `Buffer` value field.
- Integer widths are not modelled: counters are unbounded.
  - The one wrap-around that matters, the `max` decrement of `delete_array_element`, is written out (see Findings).
  - Every NULL-handle check on the container argument is omitted: the objects are never null.
- DyllArray.DyllArray.AddChunk: models growth by 10 slots. The realloc at dyll_array.c:53 passes a slot count as a byte count, which is far too small; that is not modelled.
- DyllArray.DyllArray.FlushElement: the `data = NULL` that stops the delete from freeing the handed-over buffer is not modelled, since payloads are values.
- DyllArray.DyllArray.CopyData: a failed malloc stores NULL in a slot that is on neither chain. Only the outcome is modelled: the slot's visible contents are unchanged.
- DynamicArray.DynamicArray.Delete: the data movement (the memmove and memcpy of dynamic_array.c:124-131) is not modelled. Only the guard and the count update are, with the corrected guard (see Findings). The memmove length underflows and the memcpy copies in the wrong direction.
- DynamicArray.DynamicArray.SetIndex: requires `len` and `max` to have been given values by an add or a flush (the ghost `Ready`). Before that they are uninitialised memory. The same holds for Delete, GetElement and Flush.
- DynamicArray.DynamicArray.GetElement: requires a buffer or an index at or past `len`. Otherwise the source computes an address from a NULL buffer.
- XmlStrings.ConcatString.Concat: requires the combined text to fit in the capacity after one growth of 16. Otherwise strncat in the source writes past the buffer. It also requires the incoming string to be a different buffer from the accumulator's own.
- XmlStrings.Realloc: the bytes past the old end are zero in the model, where C leaves them indeterminate. No contract depends on them.
- Xml.XmlNode.AddChild: requires the child's tree to be disjoint from this node's, the ownership that xml.h:31 describes. Adding a node to its own subtree is not modelled.
- XmlStrings.ConcatString.Allocate: the calloc at xml.c:221 is never checked; the model assumes it succeeds.
- XmlStrings.ConcatString.Grow: the realloc at xml.c:227 is never checked; the model assumes it succeeds.
- XmlStrings.ConcatString.Duplicate: the calloc at xml.c:252 is never checked; the model assumes it succeeds.
- XmlStrings.ConcatString.Concat: its allocations are those of Allocate and Grow, assumed to succeed.
- Xml.InsertBuffer: the calloc at xml.c:36 and the realloc at xml.c:43 are never checked; the model assumes they succeed.
- Xml.XmlAttrib.constructor: the calloc of new_xml_attrib succeeding; Xml.NewXmlAttrib models the NULL outcome.
- Xml.XmlNode.constructor: the calloc of new_xml_node succeeding; Xml.NewXmlNode models the NULL outcome.
- Xml.Duplicate: assumes every allocation inside duplicate_xml_node succeeds, as the source does without checking. Its calls to dupstr are therefore copies.
- Xml.Duplicate: each copied child keeps the parent pointer of the child it was copied from, as in the source. `Copied` states the parent is equal, not the new node.
- Xml.DuplicateAttrib: the copy it builds is unreachable (xml.c:62 returns the argument), so the model keeps only the returned original.

## Findings

| source | as written | input that shows it | evidently intended | confidence | as-written member | corrected member |
|---|---|---|---|---|---|---|
| dynamic_array.c:121-123 | `delete_array_element` rejects only `index >= len`, then does `max -= 1` on a `size_t` | add one element (count 1), then `delete(0)` twice: the second call succeeds and the count wraps to SIZE_MAX | only a counted element can be deleted (`index >= max` is rejected as well), so the count never underflows | not executed | DynamicArray.DeleteAsWrittenWraps | DynamicArray.DeleteCount |
