// The intrusive doubly linked list: nodes on the heap, payloads inline or in blocks of their own.
module IntrusiveList {
  import opened Bytes

  const LIST_SUCCESS: int := 0
  const LIST_CANNOT_ALLOCATE_MEMORY: int := -2
  const LIST_INVALID_POINTER: int := -4
  const LIST_INVALID_STRING_LEN: int := -6
  const LIST_INVALID_ARGUMENT: int := -8

  const POINTER_SIZE: int := 8  // also the size of the payload union

  datatype ItemType =
    | Unknown
    | Byte
    | Integer
    | UserPointer
    | ShortString
    | AllocatedString
    | EmplacedOptimized
    | EmplacedAllocated
    | CopiedOptimized
    | CopiedAllocated

  /** The types whose payload lies in a heap block of its own. */
  predicate IsAllocated(t: ItemType) {
    t.AllocatedString? || t.EmplacedAllocated? || t.CopiedAllocated?
  }

  class Block {
    var bytes: seq<byte>

    constructor ()
      ensures bytes == []
    {
      bytes := [];
    }
  }

  datatype ItemData = Inline(bytes: seq<byte>) | InBlock(block: Block)

  /** What a constructor callback does: its status, and the bytes it leaves in the memory it is given. */
  datatype Construction = Construction(status: int, image: seq<byte>)

  class Item {
    var next: Item?
    var prev: Item?
    var itemType: ItemType
    var data: ItemData

    constructor ()
      ensures next == null && prev == null && itemType == Unknown && data == Inline([])
    {
      next, prev, itemType, data := null, null, Unknown, Inline([]);
    }

    /** The payload bytes, wherever they are. */
    ghost function Payload(): seq<byte>
      reads `data, if data.InBlock? then {data.block} else {}
    {
      if data.InBlock? then data.block.bytes else data.bytes
    }

    /** The block the item must free. */
    ghost function Blocks(): set<object>
      reads `itemType, `data
    {
      if IsAllocated(itemType) && data.InBlock? then {data.block} else {}
    }

    ghost predicate PayloadOk()
      reads `itemType, `data
    {
      IsAllocated(itemType) ==> data.InBlock?
    }
  }

  /** The C heap: the blocks obtained and not yet freed. */
  class Heap {
    const reliable: bool  // whether memory never runs out
    ghost var live: set<object>

    constructor (reliable: bool)
      ensures this.reliable == reliable && live == {}
    {
      this.reliable, live := reliable, {};
    }

    /** `calloc` of a node, which may fail. */
    method NewItem() returns (item: Item?)
      modifies `live
      ensures reliable ==> item != null
      ensures item == null ==> live == old(live)
      ensures item != null ==>
                && fresh(item) && live == old(live) + {item}
                && item.next == null && item.prev == null && item.itemType == Unknown && item.data == Inline([])
    {
      var exhausted := *;
      if exhausted && !reliable {
        return null;
      }
      item := new Item();
      live := live + {item};
    }

    /** `calloc` of a payload block, which may fail. */
    method NewBlock() returns (block: Block?)
      modifies `live
      ensures reliable ==> block != null
      ensures block == null ==> live == old(live)
      ensures block != null ==> fresh(block) && live == old(live) + {block}
    {
      var exhausted := *;
      if exhausted && !reliable {
        return null;
      }
      block := new Block();
      live := live + {block};
    }

    /** `free`: nothing may be freed twice. */
    method Free(o: object)
      requires o in live
      modifies `live
      ensures live == old(live) - {o}
    {
      live := live - {o};
    }

    /** `list_item_set_struct`: copies a struct into the item, or into a block if it is too large. */
    method SetStruct(item: Item, pstruct: Option<seq<byte>>, size: int) returns (status: int)
      requires item.Blocks() == {} && item.PayloadOk()
      requires pstruct.Some? ==> size <= |pstruct.value|
      modifies `live, item`itemType, item`data
      ensures item.PayloadOk() && fresh(item.Blocks()) && live == old(live) + item.Blocks()
      ensures pstruct.None? ==> status == LIST_INVALID_POINTER
      ensures pstruct.Some? && size < 0 ==> status == LIST_INVALID_ARGUMENT
      ensures pstruct.Some? && 0 <= size < POINTER_SIZE ==> status == LIST_SUCCESS
      ensures pstruct.Some? && size >= POINTER_SIZE ==>
                status == LIST_SUCCESS || (status == LIST_CANNOT_ALLOCATE_MEMORY && !reliable)
      ensures status != LIST_SUCCESS ==> item.itemType == old(item.itemType) && item.data == old(item.data)
      ensures status == LIST_SUCCESS ==>
                && item.Payload() == pstruct.value[..size]
                && item.itemType == if size < POINTER_SIZE then CopiedOptimized else CopiedAllocated
    {
      if pstruct.None? {
        return LIST_INVALID_POINTER;
      }
      if size < 0 {
        return LIST_INVALID_ARGUMENT;
      }
      if size < POINTER_SIZE {
        item.data := Inline(pstruct.value[..size]);
        item.itemType := CopiedOptimized;
        return LIST_SUCCESS;
      }
      var memory := NewBlock();
      if memory == null {
        return LIST_CANNOT_ALLOCATE_MEMORY;
      }
      item.data := InBlock(memory);
      item.itemType := CopiedAllocated;
      memory.bytes := pstruct.value[..size];
      return LIST_SUCCESS;
    }

    /** `list_item_emplace_struct`: the constructor runs on the payload's final place. */
    method EmplaceStruct(item: Item, size: int, func: Option<Construction>) returns (status: int)
      requires item.Blocks() == {} && item.PayloadOk()
      modifies `live, item`itemType, item`data
      ensures item.PayloadOk() && fresh(item.Blocks()) && live == old(live) + item.Blocks()
      ensures func.None? ==> status == LIST_INVALID_POINTER
      ensures func.Some? && size <= 0 ==> status == LIST_INVALID_ARGUMENT
      ensures func.Some? && 0 < size < POINTER_SIZE ==> status == func.value.status
      ensures func.Some? && size >= POINTER_SIZE ==>
                || status == func.value.status
                || (status == LIST_CANNOT_ALLOCATE_MEMORY && !reliable && item.Blocks() == {})
      ensures status == LIST_SUCCESS ==>
                && item.Payload() == func.value.image
                && item.itemType == if size < POINTER_SIZE then EmplacedOptimized else EmplacedAllocated
    {
      if func.None? {
        return LIST_INVALID_POINTER;
      }
      if size <= 0 {
        return LIST_INVALID_ARGUMENT;
      }
      if size < POINTER_SIZE {
        item.itemType := EmplacedOptimized;
        item.data := Inline(func.value.image);
        return func.value.status;
      }
      var memory := NewBlock();
      if memory == null {
        return LIST_CANNOT_ALLOCATE_MEMORY;
      }
      item.data := InBlock(memory);
      item.itemType := EmplacedAllocated;
      memory.bytes := func.value.image;
      return func.value.status;
    }

    /** `list_item_set_string`: the string comes with its terminator, at index `len`. */
    method SetString(item: Item, text: Option<seq<byte>>, len: int) returns (status: int)
      requires item.Blocks() == {} && item.PayloadOk()
      requires text.Some? ==> len < |text.value|
      modifies `live, item`itemType, item`data
      ensures item.PayloadOk() && fresh(item.Blocks()) && live == old(live) + item.Blocks()
      ensures text.None? ==> status == LIST_INVALID_POINTER
      ensures text.Some? && len < 0 ==> status == LIST_INVALID_STRING_LEN
      ensures text.Some? && 0 <= len < POINTER_SIZE - 1 ==> status == LIST_SUCCESS
      ensures text.Some? && len >= POINTER_SIZE - 1 ==>
                status == LIST_SUCCESS || (status == LIST_CANNOT_ALLOCATE_MEMORY && !reliable)
      ensures status != LIST_SUCCESS ==> item.itemType == old(item.itemType) && item.data == old(item.data)
      ensures status == LIST_SUCCESS ==>
                && item.Payload() == text.value[..len + 1]
                && item.itemType == if len + 1 < POINTER_SIZE then ShortString else AllocatedString
    {
      if text.None? {
        return LIST_INVALID_POINTER;
      }
      if len < 0 {
        return LIST_INVALID_STRING_LEN;
      }
      var size := len + 1;
      if size < POINTER_SIZE {
        item.data := Inline(text.value[..size]);
        item.itemType := ShortString;
        return LIST_SUCCESS;
      }
      var memory := NewBlock();
      if memory == null {
        return LIST_CANNOT_ALLOCATE_MEMORY;
      }
      memory.bytes := text.value[..size];
      item.data := InBlock(memory);
      item.itemType := AllocatedString;
      return LIST_SUCCESS;
    }

    /** Frees an item: first its payload block, if it has one, then the node. */
    method FreeItem(item: Item)
      requires item.PayloadOk() && {item} + item.Blocks() <= live
      modifies `live
      ensures live == old(live) - {item} - item.Blocks()
    {
      if IsAllocated(item.itemType) {
        Free(item.data.block);
      }
      Free(item);
    }
  }

  class List {
    const heap: Heap
    var first: Item?
    var last: Item?
    var size: int

    ghost var items: seq<Item>

    /** The links spell out `items`. */
    ghost predicate Linked()
      reads this, items
    {
      && size == |items|
      && (forall i, j :: 0 <= i < j < |items| ==> items[i] != items[j])
      && first == (if items == [] then null else items[0])
      && last == (if items == [] then null else items[|items| - 1])
      && (items != [] ==> items[0].prev == null && items[|items| - 1].next == null)
      && (forall i {:trigger items[i].prev} :: 1 <= i < |items| ==> items[i].prev == items[i - 1])
      && (forall i {:trigger items[i].next} :: 0 <= i < |items| - 1 ==> items[i].next == items[i + 1])
    }

    /** Everything the items must free: themselves and their payload blocks. */
    static ghost function Owns(s: seq<Item>): set<object>
      reads s`itemType, s`data
    {
      set x, o | x in s && o in {x} + x.Blocks() :: o
    }

    /** No block belongs to two items. */
    static ghost predicate Separate(s: seq<Item>)
      reads s`itemType, s`data
    {
      && (forall x :: x in s ==> x.PayloadOk())
      && (forall i, j :: 0 <= i < j < |s| ==> s[i].Blocks() !! s[j].Blocks())
    }

    ghost predicate Valid()
      reads this, items, heap
    {
      Linked() && Separate(items) && Owns(items) <= heap.live
    }

    /** The live blocks that are none of the list's business. */
    ghost function Others(): set<object>
      reads this, items, heap
    {
      heap.live - Owns(items)
    }

    /** An append under way: `item` follows `was`; before it `live` was live and `others` not the list's. */
    ghost predicate Pending(item: Item, was: seq<Item>, live: set<object>, others: set<object>)
      reads this, items, item, was`itemType, was`data, heap
    {
      && Linked() && items == was + [item]
      && Separate(was) && Owns(was) <= live && others == live - Owns(was)
      && item.PayloadOk() && {item} + item.Blocks() !! live
      && heap.live == live + {item} + item.Blocks()
    }

    constructor (heap: Heap)
      ensures this.heap == heap && items == [] && Linked()
    {
      this.heap, first, last, size, items := heap, null, null, 0, [];
    }

    /** `add_list_item`: appends an empty item. */
    method AddListItem() returns (status: int, item: Item?)
      requires Valid()
      modifies `first, `last, `size, `items, items`next, heap
      ensures Valid() && Others() == old(Others())
      ensures status == LIST_SUCCESS || (status == LIST_CANNOT_ALLOCATE_MEMORY && !heap.reliable)
      ensures if status == LIST_SUCCESS
              then
                && item != null && fresh(item) && items == old(items) + [item]
                && heap.live == old(heap.live) + {item}
                && item.itemType == Unknown && item.data == Inline([])
                && Pending(item, old(items), old(heap.live), old(Others()))
              else items == old(items) && heap.live == old(heap.live)
    {
      item := heap.NewItem();
      if item == null {
        return LIST_CANNOT_ALLOCATE_MEMORY, null;
      }
      LinkNewItem(item, old(heap.live), old(Others()));
      LastItemFilled(old(items), item, old(heap.live), old(Others()));
      status := LIST_SUCCESS;
    }

    /** Links a node just obtained from the heap. */
    method LinkNewItem(item: Item, ghost live: set<object>, ghost others: set<object>)
      requires Linked() && Separate(items) && Owns(items) <= live && others == live - Owns(items)
      requires item !in live && heap.live == live + {item} && item.Blocks() == {} && item.PayloadOk()
      requires item !in items && item.prev == null && item.next == null
      modifies `first, `last, `size, `items, items`next, item`prev
      ensures items == old(items) + [item] && Pending(item, old(items), live, others)
    {
      AppendLinks(item);
    }

    /** The pointer surgery of `add_list_item`. */
    method AppendLinks(item: Item)
      requires Linked() && item !in items && item.prev == null && item.next == null
      modifies `first, `last, `size, `items, items`next, item`prev
      ensures Linked() && items == old(items) + [item]
    {
      if first == null {
        first, last, size := item, item, 1;
      } else {
        item.prev := last;
        last.next := item;
        last := item;
        size := size + 1;
      }
      items := items + [item];
    }

    /** The pointer surgery of `list_remove_item`, with the repair of the list's ends. */
    method Unlink(item: Item, ghost k: nat)
      requires Linked() && k < |items| && item == items[k]
      modifies `first, `last, `size, `items, items`next, items`prev
      ensures Linked()
      ensures items == old(items)[..k] + old(items)[k + 1..]
    {
      assert item.next != null ==> item.next == items[k + 1] && items[k + 1] in items;
      assert item.prev != null ==> item.prev == items[k - 1] && items[k - 1] in items;
      if item.next != null {
        item.next.prev := item.prev;
      }
      if item.prev != null {
        item.prev.next := item.next;
      }
      size := size - 1;
      if item == first {
        first := item.next;
        if size < 2 {
          last := first;
        }
      } else if item == last {
        last := item.prev;
        if size < 2 {
          first := last;
        }
      }
      items := items[..k] + items[k + 1..];
    }

    /** What there is to free with one more item. */
    static lemma OwnsOneMore(s: seq<Item>, item: Item)
      requires Separate(s) && item.PayloadOk() && item.Blocks() !! Owns(s)
      ensures Separate(s + [item])
      ensures Owns(s + [item]) == Owns(s) + {item} + item.Blocks()
    {
      forall i, o | 0 <= i < |s| && o in s[i].Blocks() ensures o in Owns(s) {
        assert s[i] in s && o in {s[i]} + s[i].Blocks();
      }
      var more := s + [item];
      assert forall x :: x in more <==> x in s || x == item;
      forall o | o in Owns(s) + {item} + item.Blocks() ensures o in Owns(more) {
        if o in {item} + item.Blocks() {
          assert item in more;
        } else {
          var x :| x in s && o in {x} + x.Blocks();
          assert x in more;
        }
      }
    }

    /** What is left to free after member `k` is gone. */
    static lemma OwnsWithout(s: seq<Item>, k: nat)
      requires k < |s| && Separate(s)
      requires forall i, j :: 0 <= i < j < |s| ==> s[i] != s[j]
      ensures Separate(s[..k] + s[k + 1..])
      ensures Owns(s[..k] + s[k + 1..]) == Owns(s) - {s[k]} - s[k].Blocks()
      ensures s[k].PayloadOk() && {s[k]} + s[k].Blocks() <= Owns(s)
    {
      assert s[k] in s;
      var rest := s[..k] + s[k + 1..];
      forall x | x in rest ensures x in s && x != s[k] && x.Blocks() !! s[k].Blocks() {
        var i :| 0 <= i < |rest| && rest[i] == x;
        assert x == s[if i < k then i else i + 1];
      }
      forall x | x in s && x != s[k] ensures x in rest {
        var i :| 0 <= i < |s| && s[i] == x;
        assert x == rest[if i < k then i else i - 1];
      }
    }

    /** Unlinking takes the item's blocks out of the list's hands. */
    method Release(item: Item, ghost k: nat)
      requires Linked() && Separate(items) && k < |items| && item == items[k]
      modifies `first, `last, `size, `items, items`next, items`prev
      ensures Linked() && Separate(items)
      ensures items == old(items)[..k] + old(items)[k + 1..]
      ensures Owns(items) == old(Owns(items)) - {item} - item.Blocks()
      ensures item.PayloadOk() && {item} + item.Blocks() <= old(Owns(items))
    {
      ghost var was := items;
      Unlink(item, k);
      OwnsWithout(was, k);
    }

    /** `list_remove_item` on member `k`. */
    method RemoveItem(item: Item, ghost k: nat)
      requires Valid() && k < |items| && item == items[k]
      modifies `first, `last, `size, `items, items`next, items`prev, heap
      ensures Valid() && Others() == old(Others())
      ensures items == old(items)[..k] + old(items)[k + 1..]
      ensures heap.live == old(heap.live) - {item} - item.Blocks()
    {
      Release(item, k);
      ghost var owned := Owns(items);
      heap.FreeItem(item);
      assert Linked() && Separate(items) && Owns(items) == owned;
    }

    /** `list_clear`: removes from the back until nothing is left. */
    method Clear()
      requires Valid()
      modifies `first, `last, `size, `items, items`next, items`prev, heap
      ensures Valid() && items == [] && first == null && last == null
      ensures heap.live == old(Others())
    {
      if size == 0 {
        return;
      }
      var current := last;
      while current != null
        invariant Valid() && Others() == old(Others())
        invariant items == old(items)[..|items|]
        invariant current == last
        decreases |items|
      {
        var previous := current.prev;
        RemoveItem(current, |items| - 1);
        current := previous;
      }
    }

    /** Once the payload of the last item is set, the list owns its block too. */
    lemma LastItemFilled(was: seq<Item>, item: Item, live: set<object>, others: set<object>)
      requires Pending(item, was, live, others)
      ensures Valid() && Others() == others
    {
      OwnsOneMore(was, item);
    }

    /** The end of an append: keeps the new item, or takes it back if its payload could not be made. */
    method KeepOrRemove(item: Item, status: int,
                        ghost was: seq<Item>, ghost live: set<object>, ghost others: set<object>)
      requires Pending(item, was, live, others)
      modifies `first, `last, `size, `items, items`next, items`prev, heap
      ensures Valid() && Others() == others
      ensures items == if status == LIST_SUCCESS then was + [item] else was
      ensures status != LIST_SUCCESS ==> heap.live == live
    {
      LastItemFilled(was, item, live, others);
      if status != LIST_SUCCESS {
        RemoveItem(item, |items| - 1);
        assert items == was;
      }
    }

    /** `list_item_set_struct` on the item of an append under way. */
    method FillStruct(item: Item, pstruct: Option<seq<byte>>, size: int,
                      ghost was: seq<Item>, ghost live: set<object>, ghost others: set<object>) returns (status: int)
      requires Pending(item, was, live, others) && item.Blocks() == {}
      requires pstruct.Some? ==> size <= |pstruct.value|
      modifies heap`live, item`itemType, item`data
      ensures Pending(item, was, live, others)
      ensures status == LIST_SUCCESS ==> pstruct.Some? && size >= 0 && item.Payload() == pstruct.value[..size]
      ensures || (status == LIST_CANNOT_ALLOCATE_MEMORY && !heap.reliable)
              || status == if pstruct.None? then LIST_INVALID_POINTER
                           else if size < 0 then LIST_INVALID_ARGUMENT else LIST_SUCCESS
    {
      status := heap.SetStruct(item, pstruct, size);
    }

    /** `list_item_emplace_struct` on the item of an append under way. */
    method FillEmplaced(item: Item, size: int, func: Option<Construction>,
                        ghost was: seq<Item>, ghost live: set<object>, ghost others: set<object>) returns (status: int)
      requires Pending(item, was, live, others) && item.Blocks() == {}
      modifies heap`live, item`itemType, item`data
      ensures Pending(item, was, live, others)
      ensures status == LIST_SUCCESS ==>
                func.Some? && size > 0 && func.value.status == LIST_SUCCESS && item.Payload() == func.value.image
      ensures || (status == LIST_CANNOT_ALLOCATE_MEMORY && !heap.reliable)
              || status == if func.None? then LIST_INVALID_POINTER
                           else if size <= 0 then LIST_INVALID_ARGUMENT else func.value.status
    {
      status := heap.EmplaceStruct(item, size, func);
    }

    /** `list_item_set_string` on the item of an append under way. */
    method FillString(item: Item, text: Option<seq<byte>>, len: int,
                      ghost was: seq<Item>, ghost live: set<object>, ghost others: set<object>) returns (status: int)
      requires Pending(item, was, live, others) && item.Blocks() == {} && item.itemType == Unknown
      requires text.Some? ==> len < |text.value|
      modifies heap`live, item`itemType, item`data
      ensures Pending(item, was, live, others)
      ensures if status == LIST_SUCCESS then text.Some? && len >= 0 && item.Payload() == text.value[..len + 1]
              else item.itemType == Unknown
      ensures status != LIST_SUCCESS ==> text.None? || len < 0 || (len >= POINTER_SIZE - 1 && !heap.reliable)
    {
      status := heap.SetString(item, text, len);
    }

    /** `list_push_back`: all or nothing. */
    method PushBack(pstruct: Option<seq<byte>>, size: int) returns (status: int)
      requires Valid()
      requires pstruct.Some? ==> size <= |pstruct.value|
      modifies `first, `last, `size, `items, items`next, items`prev, heap
      ensures Valid() && Others() == old(Others())
      ensures if status == LIST_SUCCESS
              then
                && pstruct.Some? && size >= 0
                && |items| == |old(items)| + 1 && items[..|old(items)|] == old(items) && fresh(items[|old(items)|])
                && items[|old(items)|].Payload() == pstruct.value[..size]
              else items == old(items) && heap.live == old(heap.live)
      ensures || (status == LIST_CANNOT_ALLOCATE_MEMORY && !heap.reliable)
              || status == if pstruct.None? then LIST_INVALID_POINTER
                           else if size < 0 then LIST_INVALID_ARGUMENT else LIST_SUCCESS
    {
      var item;
      status, item := AddListItem();
      if status != LIST_SUCCESS {
        return;
      }
      status := FillStruct(item, pstruct, size, old(items), old(heap.live), old(Others()));
      KeepOrRemove(item, status, old(items), old(heap.live), old(Others()));
    }

    /** `list_emplace_back`: all or nothing, whatever the constructor returns. */
    method EmplaceBack(size: int, func: Option<Construction>) returns (status: int)
      requires Valid()
      modifies `first, `last, `size, `items, items`next, items`prev, heap
      ensures Valid() && Others() == old(Others())
      ensures if status == LIST_SUCCESS
              then
                && func.Some? && func.value.status == LIST_SUCCESS && size > 0
                && |items| == |old(items)| + 1 && items[..|old(items)|] == old(items) && fresh(items[|old(items)|])
                && items[|old(items)|].Payload() == func.value.image
              else items == old(items) && heap.live == old(heap.live)
      ensures || (status == LIST_CANNOT_ALLOCATE_MEMORY && !heap.reliable)
              || status == if func.None? then LIST_INVALID_POINTER
                           else if size <= 0 then LIST_INVALID_ARGUMENT else func.value.status
    {
      var item;
      status, item := AddListItem();
      if status != LIST_SUCCESS {
        return;
      }
      status := FillEmplaced(item, size, func, old(items), old(heap.live), old(Others()));
      KeepOrRemove(item, status, old(items), old(heap.live), old(Others()));
    }

    /** `list_push_back_string`. The status of a failed string is the comparison's 1, and the
        item just appended stays behind, empty. So while memory lasts, the call is all or nothing
        exactly for a string that is there and whose length is not negative. */
    method PushBackString(text: Option<seq<byte>>, len: int) returns (status: int)
      requires Valid()
      requires text.Some? ==> len < |text.value|
      modifies `first, `last, `size, `items, items`next, items`prev, heap
      ensures Valid() && Others() == old(Others())
      ensures status == LIST_SUCCESS || status == LIST_CANNOT_ALLOCATE_MEMORY || status == 1
      ensures text.None? || len < 0 ==> status != LIST_SUCCESS
      ensures status == 1 ==> text.None? || len < 0 || (len >= POINTER_SIZE - 1 && !heap.reliable)
      ensures status == LIST_CANNOT_ALLOCATE_MEMORY ==>
                !heap.reliable && items == old(items) && heap.live == old(heap.live)
      ensures heap.reliable ==>
                (status == LIST_SUCCESS || (items == old(items) && heap.live == old(heap.live))
                 <==> text.Some? && len >= 0)
      ensures status != LIST_CANNOT_ALLOCATE_MEMORY ==>
                && |items| == |old(items)| + 1 && items[..|old(items)|] == old(items) && fresh(items[|old(items)|])
                && var added := items[|old(items)|];
                   if status == LIST_SUCCESS then added.Payload() == text.value[..len + 1]
                   else added.itemType == Unknown
    {
      var item;
      status, item := AddListItem();
      if status != LIST_SUCCESS {
        return;
      }
      var result := FillString(item, text, len, old(items), old(heap.live), old(Others()));
      status := if result != LIST_SUCCESS then 1 else 0;
      LastItemFilled(old(items), item, old(heap.live), old(Others()));
    }

    /** The pointer surgery of `list_insert`. */
    method LinkBefore(position: Item, item: Item, ghost k: nat)
      requires Linked() && item !in items && k < |items| && position == items[k]
      modifies `first, `size, `items, items`next, items`prev, item`next, item`prev
      ensures Linked() && items == old(items)[..k] + [item] + old(items)[k..]
    {
      assert position.prev != null ==> position.prev == items[k - 1] && items[k - 1] in items;
      item.prev := position.prev;
      if item.prev != null {
        item.prev.next := item;
      }
      item.next := position;
      position.prev := item;
      if position == first {
        first := item;
      }
      size := size + 1;
      items := items[..k] + [item] + items[k..];
    }

    /** The order of the items does not matter for what there is to free. */
    static lemma OwnsDependsOnMembers(s: seq<Item>, t: seq<Item>)
      requires forall x :: x in s <==> x in t
      ensures Owns(s) == Owns(t)
    {
    }

    static lemma SeparateInserted(s: seq<Item>, k: nat, item: Item)
      requires k <= |s| && Separate(s) && item.PayloadOk() && item.Blocks() !! Owns(s)
      ensures Separate(s[..k] + [item] + s[k..])
    {
      forall i, o | 0 <= i < |s| && o in s[i].Blocks() ensures o in Owns(s) {
        assert s[i] in s && o in {s[i]} + s[i].Blocks();
      }
    }

    /** What there is to free with an item inserted. */
    static lemma OwnsInserted(s: seq<Item>, k: nat, item: Item)
      requires k <= |s| && Separate(s) && item.PayloadOk() && item.Blocks() !! Owns(s)
      ensures Separate(s[..k] + [item] + s[k..])
      ensures Owns(s[..k] + [item] + s[k..]) == Owns(s) + {item} + item.Blocks()
    {
      SeparateInserted(s, k, item);
      OwnsOneMore(s, item);
      assert s == s[..k] + s[k..];
      OwnsDependsOnMembers(s[..k] + [item] + s[k..], s + [item]);
    }

    /** What is not the list's is no member of it. */
    lemma NotOwned(item: Item)
      requires item in Others()
      ensures item !in items
    {
      forall x | x in items ensures x in Owns(items) {
        assert x in {x} + x.Blocks();
      }
    }

    /** `list_insert` before member `k`: the item is the caller's before, and the list's afterwards. */
    method InsertBefore(position: Item, item: Item, ghost k: nat)
      requires Valid() && item.PayloadOk() && {item} + item.Blocks() <= Others()
      requires k < |items| && position == items[k]
      modifies `first, `size, `items, items`next, items`prev, item`next, item`prev
      ensures Valid() && items == old(items)[..k] + [item] + old(items)[k..]
      ensures Others() == old(Others()) - {item} - item.Blocks()
    {
      ghost var more := items[..k] + [item] + items[k..];
      NotOwned(item);
      OwnsInserted(items, k, item);
      ghost var owned := Owns(more);
      LinkBefore(position, item, k);
      assert items == more && Separate(more) && Owns(more) == owned;
    }

    /** `list_insert` into an empty list leaves the item's own links as they are: the list is well
        formed exactly if they were null. */
    method InsertFirst(item: Item)
      requires Valid() && items == [] && item.PayloadOk() && {item} + item.Blocks() <= Others()
      modifies `first, `last, `size, `items
      ensures items == [item] && Others() == old(Others()) - {item} - item.Blocks()
      ensures Valid() <==> item.next == null && item.prev == null
    {
      OwnsOneMore([], item);
      assert [] + [item] == [item];
      first, last, size, items := item, item, size + 1, [item];
    }

    /** `list_insert`. */
    method Insert(position: Item?, item: Item, ghost k: nat) returns (status: int)
      requires Valid() && item.PayloadOk() && {item} + item.Blocks() <= Others()
      requires position != null ==> k < |items| && position == items[k]
      modifies `first, `last, `size, `items, items`next, items`prev, item`next, item`prev
      ensures status == if old(items) != [] && position == null then LIST_INVALID_ARGUMENT else LIST_SUCCESS
      ensures status != LIST_SUCCESS ==> Valid() && items == old(items) && Others() == old(Others())
      ensures status == LIST_SUCCESS ==> Others() == old(Others()) - {item} - item.Blocks()
      ensures position != null ==> Valid() && items == old(items)[..k] + [item] + old(items)[k..]
      ensures old(items) == [] ==> items == [item] && (Valid() <==> old(item.next) == null && old(item.prev) == null)
    {
      if size != 0 && position == null {
        return LIST_INVALID_ARGUMENT;
      }
      if position != null {
        InsertBefore(position, item, k);
      } else {
        InsertFirst(item);
      }
      return LIST_SUCCESS;
    }

    /** `list_find_if`. `callback` says how its k-th call turns out. */
    method FindIf(callback: nat -> FindResult) returns (status: int, item: Item?, ghost k: nat)
      requires Linked()
      ensures status == LIST_SUCCESS || item == null
      ensures k <= |items|
      ensures forall i: nat :: i < k ==> callback(i).status == LIST_SUCCESS && callback(i).result != Some(true)
      ensures item != null ==>
                k < |items| && item == items[k] && callback(k) == FindResult(LIST_SUCCESS, Some(true))
      ensures item == null && status != LIST_SUCCESS ==> k < |items| && callback(k).status == status
      ensures item == null && status == LIST_SUCCESS ==> k == |items|
    {
      var result := false;
      var current := first;
      var call := 0;
      while current != null
        invariant call <= |items| && current == if call < |items| then items[call] else null
        invariant forall i: nat :: i < call ==> callback(i).status == LIST_SUCCESS && callback(i).result != Some(true)
        invariant !result
        decreases |items| - call
      {
        var outcome := callback(call);
        if outcome.result.Some? {
          result := outcome.result.value;
        }
        if outcome.status != LIST_SUCCESS {
          return outcome.status, null, call;
        }
        if result {
          return LIST_SUCCESS, current, call;
        }
        current := current.next;
        call := call + 1;
      }
      return LIST_SUCCESS, null, call;
    }

    /** `list_for_each`: `visited` lists the items the callback was called on. */
    method ForEach(callback: nat -> int) returns (status: int, visited: seq<Item>)
      requires Linked()
      ensures visited <= items
      ensures forall k: nat :: k < |visited| - 1 ==> callback(k) == LIST_SUCCESS
      ensures status == LIST_SUCCESS ==> visited == items && (items != [] ==> callback(|items| - 1) == LIST_SUCCESS)
      ensures status != LIST_SUCCESS ==> visited != [] && callback(|visited| - 1) == status
    {
      visited := [];
      var current := first;
      while current != null
        invariant visited <= items
        invariant current == if |visited| < |items| then items[|visited|] else null
        invariant forall k: nat :: k < |visited| ==> callback(k) == LIST_SUCCESS
        decreases |items| - |visited|
      {
        visited := visited + [current];
        status := callback(|visited| - 1);
        if status != LIST_SUCCESS {
          return;
        }
        current := current.next;
      }
      status := LIST_SUCCESS;
    }

    /** Member `k`, reached through the links. */
    method Nth(k: nat) returns (item: Item)
      requires Linked() && k < |items|
      ensures item == items[k]
    {
      item := first;
      for i := 0 to k
        invariant item == items[i]
      {
        item := item.next;
      }
    }

    /** One call of the interface; a removal of a member that does not exist is no call. */
    method Perform(op: Operation) returns (status: int)
      requires Valid() && op.IsCall()
      modifies `first, `last, `size, `items, items`next, items`prev, heap
      ensures Valid() && Others() == old(Others())
      ensures forall i :: 0 <= i < |items| ==> items[i] in old(items) || fresh(items[i])
      ensures op.ClearAll? ==> items == []
      ensures op.Remove? ==>
                items == if op.k < |old(items)| then old(items)[..op.k] + old(items)[op.k + 1..] else old(items)
      ensures status == LIST_SUCCESS && (op.Push? || op.Emplace? || op.Text?) ==>
                && |items| == |old(items)| + 1 && items[..|old(items)|] == old(items)
                && items[|old(items)|].Payload() == op.Bytes()
      ensures status != LIST_SUCCESS && (op.Push? || op.Emplace?) ==> items == old(items)
      ensures heap.reliable && op.CanSucceed() ==> status == LIST_SUCCESS
    {
      status := LIST_SUCCESS;
      match op
      case Remove(k) =>
        if k < size {
          var item := Nth(k);
          RemoveItem(item, k);
        }
      case ClearAll =>
        Clear();
      case _ =>
        status := PerformAppend(op);
    }

    method PerformAppend(op: Operation) returns (status: int)
      requires Valid() && op.IsCall() && (op.Push? || op.Emplace? || op.Text?)
      modifies `first, `last, `size, `items, items`next, items`prev, heap
      ensures Valid() && Others() == old(Others())
      ensures items == old(items) ||
              (|items| == |old(items)| + 1 && items[..|old(items)|] == old(items) && fresh(items[|old(items)|]))
      ensures status == LIST_SUCCESS ==>
                |items| == |old(items)| + 1 && items[|old(items)|].Payload() == op.Bytes()
      ensures status != LIST_SUCCESS && !op.Text? ==> items == old(items)
      ensures heap.reliable && op.CanSucceed() ==> status == LIST_SUCCESS
    {
      match op
      case Push(data, size) =>
        status := PushBack(data, size);
      case Emplace(size, func) =>
        status := EmplaceBack(size, func);
      case Text(text, len) =>
        status := PushBackString(text, len);
    }

    /** Over every history of calls, successful or not, the list owns exactly its nodes and their
        payload blocks; clearing it at the end leaves nothing of it on the heap. */
    method PerformAllAndClear(ops: seq<Operation>)
      requires Valid() && forall op :: op in ops ==> op.IsCall()
      modifies `first, `last, `size, `items, items`next, items`prev, heap
      ensures Valid() && items == [] && heap.live == old(Others())
    {
      for i := 0 to |ops|
        invariant Valid() && Others() == old(Others())
        invariant forall k :: 0 <= k < |items| ==> items[k] in old(items) || fresh(items[k])
      {
        var status := Perform(ops[i]);
      }
      Clear();
    }
  }

  /** An item that still points to another one makes the first insertion go wrong. */
  method InsertLinkedItem() returns (list: List, item: Item)
    ensures list.items == [item] && item.prev != null && !list.Linked()
  {
    var heap := new Heap(true);
    list := new List(heap);
    var node := heap.NewItem();
    var other := heap.NewItem();
    item := node;
    item.prev := other;
    list.InsertFirst(item);
  }

  datatype Operation =
    | Push(data: Option<seq<byte>>, size: int)
    | Emplace(size: int, func: Option<Construction>)
    | Text(text: Option<seq<byte>>, len: int)
    | Remove(k: nat)
    | ClearAll
  {
    ghost predicate IsCall() {
      && (Push? && data.Some? ==> size <= |data.value|)
      && (Text? && text.Some? ==> len < |text.value|)
    }

    /** The payload that an append leaves when it succeeds. */
    ghost function Bytes(): seq<byte>
      requires IsCall()
    {
      match this
      case Push(data, size) => if data.Some? && size >= 0 then data.value[..size] else []
      case Emplace(_, func) => if func.Some? then func.value.image else []
      case Text(text, len) => if text.Some? && len >= 0 then text.value[..len + 1] else []
      case _ => []
    }

    /** Nothing but a lack of memory can make the call fail. */
    ghost predicate CanSucceed() {
      match this
      case Push(data, size) => data.Some? && size >= 0
      case Emplace(size, func) => func.Some? && size > 0 && func.value.status == LIST_SUCCESS
      case Text(text, len) => text.Some? && len >= 0
      case _ => true
    }
  }

  /** What a find callback returns, and what it stores in its result argument, if anything. */
  datatype FindResult = FindResult(status: int, result: Option<bool>)
}
