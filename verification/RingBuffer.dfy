// The circular buffer of finished commands: an array of entries whose storage
// is obtained on first use, grown when needed and otherwise reused in place.
module RingBuffer {
  import opened Bytes
  import opened Machine
  import opened CommandLog
  import opened FlatView

  const MAX_WRITE_OPERATIONS: nat := 10

  /** `size` bytes at the start of the `allotted` bytes at `buffptr`. */
  datatype BufferEntry = BufferEntry(buffptr: array?<byte>, size: nat, allotted: nat)

  ghost predicate Holds(e: BufferEntry, data: seq<byte>)
    reads if e.buffptr == null then {} else {e.buffptr}
  {
    e.buffptr != null && e.size == |data| <= e.buffptr.Length && e.buffptr[..|data|] == data
  }

  const NO_ENTRY := BufferEntry(null, 0, 0)

  /** Logical order: slots from `out` on, then the slots before it. */
  function Rotate<T>(slots: seq<T>, out: nat): (r: seq<T>)
    requires out <= |slots|
    ensures |r| == |slots|
  {
    slots[out..] + slots[..out]
  }

  /** Physical slot of logical position `k`. */
  function SlotOf(k: nat, out: nat, n: nat): nat {
    if out + k < n then out + k else out + k - n
  }

  /** The other way round: which slots show `cmds` in logical order. */
  function Unrotate<T>(cmds: seq<T>, out: nat): (r: seq<T>)
    requires out <= |cmds|
    ensures |r| == |cmds|
  {
    cmds[|cmds| - out..] + cmds[..|cmds| - out]
  }

  lemma UnrotateInverts<T>(slots: seq<T>, out: nat)
    requires out <= |slots|
    ensures Unrotate(Rotate(slots, out), out) == slots
  {
  }

  lemma RotateInverts<T>(cmds: seq<T>, out: nat)
    requires out <= |cmds|
    ensures Rotate(Unrotate(cmds, out), out) == cmds
  {
  }

  lemma RotateAt<T>(slots: seq<T>, out: nat, k: nat)
    requires out <= |slots| && k < |slots|
    ensures SlotOf(k, out, |slots|) < |slots|
    ensures Rotate(slots, out)[k] == slots[SlotOf(k, out, |slots|)]
  {
  }

  /** Overwriting the oldest slot and stepping past it is "drop the oldest, append". */
  lemma OverwriteOldest<T>(slots: seq<T>, out: nat, x: T)
    requires out < |slots|
    ensures Rotate(slots[out := x], if out + 1 == |slots| then 0 else out + 1) == Rotate(slots, out)[1..] + [x]
  {
  }

  /** The occupied slots once slot `i` is written, which may be the first free one. */
  function StoreAt<T>(slots: seq<T>, i: nat, x: T): (r: seq<T>)
    requires i <= |slots|
    ensures |r| == if i < |slots| then |slots| else i + 1
  {
    if i < |slots| then slots[i := x] else slots + [x]
  }

  /** Storing at the slot after the newest is "append, and drop the oldest if there are too many". */
  lemma StoreRefinesAppend<T>(slots: seq<T>, out: nat, n: nat, x: T)
    requires |slots| <= n && n > 0 && out <= |slots|
    requires |slots| < n ==> out == 0
    requires |slots| == n ==> out < n
    ensures |slots| < n ==> Rotate(slots + [x], 0) == LastN(Rotate(slots, out) + [x], n)
    ensures |slots| == n ==>
              Rotate(slots[out := x], if out + 1 == n then 0 else out + 1) == LastN(Rotate(slots, out) + [x], n)
  {
    LastNSnoc(Rotate(slots, out), x, n);
    if |slots| == n {
      OverwriteOldest(slots, out, x);
    }
  }

  /** The slots are used in turn: the one for command number `j`. */
  function SlotNumber(j: nat, n: nat): (r: nat)
    requires n > 0
    ensures r < n
    ensures j < n ==> r == j
  {
    if j == 0 then 0
    else if SlotNumber(j - 1, n) + 1 == n then 0
    else SlotNumber(j - 1, n) + 1
  }

  /** The slot of the oldest command after `adds` commands. */
  function OldestSlot(adds: nat, n: nat): (r: nat)
    requires n > 0
    ensures r < n
  {
    if adds <= n then 0 else SlotNumber(adds, n)
  }

  /** The next command goes into the first free slot, or the oldest command's if there is none. */
  lemma NextSlot(adds: nat, n: nat)
    requires n > 0
    ensures SlotNumber(adds, n) == if adds < n then adds else OldestSlot(adds, n)
  {
    if adds == n {
      assert SlotNumber(adds - 1, n) == n - 1;
    }
  }

  /** Storing command number `adds` in its slot is, in logical order, "append and keep the last `n`". */
  lemma AddRefinesAppend<T>(slots: seq<T>, adds: nat, n: nat, x: T)
    requires n > 0 && |slots| == Min(adds, n)
    ensures Rotate(StoreAt(slots, SlotNumber(adds, n), x), OldestSlot(adds + 1, n))
         == LastN(Rotate(slots, OldestSlot(adds, n)) + [x], n)
  {
    NextSlot(adds, n);
    StoreRefinesAppend(slots, OldestSlot(adds, n), n, x);
  }

  lemma MulMonotone(a: int, b: int, n: nat)
    requires a <= b
    ensures a * n <= b * n
  {
    assert b * n == a * n + (b - a) * n;
  }

  lemma DivisionUnique(p: int, q: int, n: nat, m: nat, r: nat)
    requires m < n && r < n && p * n + m == q * n + r
    ensures m == r
  {
    if p < q {
      MulMonotone(p + 1, q, n);
    } else if q < p {
      MulMonotone(q + 1, p, n);
    }
  }

  lemma ModIsUnique(q: int, n: nat, r: nat)
    requires r < n
    ensures (q * n + r) % n == r
  {
    var x := q * n + r;
    DivisionUnique(x / n, q, n, x % n, r);
  }

  lemma {:induction false} FullTurns(j: nat, n: nat) returns (q: nat)
    requires n > 0
    ensures j == q * n + SlotNumber(j, n)
  {
    q := 0;
    if j > 0 {
      q := FullTurns(j - 1, n);
      if SlotNumber(j - 1, n) + 1 == n {
        q := q + 1;
      }
    }
  }

  lemma SlotNumberIsModulo(j: nat, n: nat)
    requires n > 0
    ensures SlotNumber(j, n) == j % n
  {
    var q := FullTurns(j, n);
    ModIsUnique(q, n, SlotNumber(j, n));
  }

  /** Of the last `n` commands, number `j` lies in slot `j % n`. */
  lemma SlotOfCommand(adds: nat, n: nat, j: nat)
    requires n > 0 && adds - n <= j < adds
    ensures SlotOf(if adds <= n then j else j - (adds - n), OldestSlot(adds, n), n) == j % n
  {
    if adds <= n {
      ModIsUnique(0, n, j);
    } else {
      SlotNumberIsModulo(adds, n);
      var q, out, k := adds / n, adds % n, j - (adds - n);
      if out + k < n {
        assert j == (q - 1) * n + (out + k);
        ModIsUnique(q - 1, n, out + k);
      } else {
        assert j == q * n + (out + k - n);
        ModIsUnique(q, n, out + k - n);
      }
    }
  }

  /** `memcpy` to the start of a block. */
  method CopyInto(block: array<byte>, data: seq<byte>)
    requires |data| <= block.Length
    modifies block
    ensures block[..|data|] == data
  {
    forall k | 0 <= k < |data| {
      block[k] := data[k];
    }
  }

  class CircularBuffer {
    const entry: array<BufferEntry>
    var inOffs: nat   // the slot written last
    var outOffs: nat  // the slot of the oldest command
    var full: bool    // set when `inOffs` first wraps, not when the last slot is filled
    var empty: bool

    ghost var adds: nat  // commands added so far
    ghost var slots: seq<seq<byte>>  // contents of the occupied slots, in physical order
    ghost var Repr: set<object>

    /** The indices are functions of the number of commands added. */
    ghost predicate IndicesOk()
      reads this
    {
      && 0 < entry.Length <= 255
      && (empty <==> adds == 0)
      && (full <==> adds > entry.Length)
      && inOffs == (if adds == 0 then 0 else SlotNumber(adds - 1, entry.Length))
      && outOffs == OldestSlot(adds, entry.Length)
    }

    /** Exactly the slots below `n` have storage, and no two of them share it. */
    ghost predicate StorageOk(n: nat)
      reads `Repr, entry
    {
      && this in Repr && entry in Repr
      && n <= entry.Length
      && (forall i :: 0 <= i < n ==>
            && entry[i].buffptr != null && entry[i].buffptr in Repr
            && entry[i].size <= entry[i].allotted == entry[i].buffptr.Length)
      && (forall i :: n <= i < entry.Length ==> entry[i] == NO_ENTRY)
      && (forall i, j :: 0 <= i < j < n ==> entry[i].buffptr != entry[j].buffptr)
    }

    /** The occupied slots hold `slots`. */
    ghost predicate Stored()
      reads `Repr, `slots, Repr - {this}
    {
      && this in Repr && entry in Repr
      && StorageOk(|slots|)
      && forall i :: 0 <= i < |slots| ==> Holds(entry[i], slots[i])
    }

    ghost predicate Valid()
      reads this, Repr
      ensures Valid() ==> this in Repr && entry in Repr
    {
      IndicesOk() && |slots| == Min(adds, entry.Length) && Stored()
    }

    /** The stored commands, oldest first. */
    ghost function Commands(): seq<seq<byte>>
      requires outOffs <= |slots|
      reads this
    {
      Rotate(slots, outOffs)
    }

    constructor (capacity: nat)
      requires 0 < capacity <= 255
      ensures Valid() && fresh(Repr)
      ensures entry.Length == capacity && adds == 0 && Commands() == []
    {
      entry := new BufferEntry[capacity](_ => NO_ENTRY);
      inOffs, outOffs, full, empty := 0, 0, false, true;
      adds, slots := 0, [];
      new;
      Repr := {this, entry};
    }

    /** Moves to the slot of the next command, and past the oldest one if that is the slot. */
    method AdvanceIndices()
      requires IndicesOk()
      modifies `inOffs, `outOffs, `full, `empty, `adds
      ensures IndicesOk() && adds == old(adds) + 1
      ensures inOffs == SlotNumber(old(adds), entry.Length)
      ensures inOffs == if old(adds) < entry.Length then old(adds) else old(outOffs)
    {
      NextSlot(adds, entry.Length);
      adds := adds + 1;
      if empty {
        empty := false;
      } else {
        inOffs := inOffs + 1;
        if inOffs >= entry.Length {
          inOffs := 0;
          full := true;
        }
        if full {
          outOffs := outOffs + 1;
          if outOffs >= entry.Length {
            outOffs := 0;
          }
        }
      }
    }

    /** The slots occupied so far and slot `i` have storage, and all but slot `i` hold `slots`. */
    ghost predicate StoredBut(i: nat)
      reads `Repr, `slots, Repr - {this}
    {
      && this in Repr && entry in Repr
      && StorageOk(if i < |slots| then |slots| else i + 1)
      && forall j :: 0 <= j < |slots| && j != i ==> Holds(entry[j], slots[j])
    }

    /** Gives slot `i` room for `size` bytes, reusing its storage if that is large enough. */
    method Reserve(i: nat, size: nat)
      requires Stored() && i <= |slots| && i < entry.Length
      modifies entry, `Repr
      ensures fresh(Repr - old(Repr))
      ensures StoredBut(i) && size <= entry[i].allotted
      ensures if old(entry[i].buffptr != null && entry[i].allotted >= size)
              then entry[i] == old(entry[i])
              else fresh(entry[i].buffptr)
    {
      var e := entry[i];
      if e.buffptr == null || e.allotted < size {
        var storage := new byte[size];
        entry[i] := BufferEntry(storage, e.size, size);
        Repr := Repr + {storage};
      }
    }

    /** Copies `data` into slot `i`. */
    method Store(i: nat, data: seq<byte>)
      requires Stored() && i <= |slots| && i < entry.Length
      modifies entry, entry[i].buffptr, `Repr, `slots
      ensures fresh(Repr - old(Repr))
      ensures slots == StoreAt(old(slots), i, data)
      ensures Stored()
      ensures old(entry[i].buffptr != null && entry[i].allotted >= |data|) ==> entry[i].buffptr == old(entry[i].buffptr)
    {
      Reserve(i, |data|);
      Fill(i, data);
    }

    method Fill(i: nat, data: seq<byte>)
      requires i < entry.Length && i <= |slots| && StoredBut(i) && |data| <= entry[i].allotted
      modifies entry, entry[i].buffptr, `slots
      ensures slots == StoreAt(old(slots), i, data)
      ensures Stored() && entry[i].buffptr == old(entry[i].buffptr)
    {
      CopyInto(entry[i].buffptr, data);
      entry[i] := entry[i].(size := |data|);
      slots := StoreAt(slots, i, data);
    }

    /** Appends a command, and drops the oldest one when all slots are taken. */
    method AddEntry(data: seq<byte>)
      requires Valid()
      modifies Repr
      ensures Valid() && fresh(Repr - old(Repr))
      ensures adds == old(adds) + 1
      ensures Commands() == LastN(old(Commands()) + [data], entry.Length)
    {
      AddRefinesAppend(slots, adds, entry.Length, data);
      NextSlot(adds, entry.Length);
      AdvanceIndices();
      Store(inOffs, data);
    }

    /** Logical command `k` lies in slot `SlotOf(k)`. */
    lemma CommandSlot(k: nat)
      requires Valid() && k < |slots|
      ensures SlotOf(k, outOffs, entry.Length) < |slots|
      ensures Commands()[k] == slots[SlotOf(k, outOffs, entry.Length)]
    {
      RotateAt(slots, outOffs, k);
    }

    /** What sums over the physical slots rely on. */
    ghost predicate Sized()
      reads `slots, entry
    {
      && |slots| <= entry.Length
      && forall i :: 0 <= i < entry.Length ==> entry[i].size == if i < |slots| then |slots[i]| else 0
    }

    /** What a scan in logical order relies on: it meets `cmds` and then free slots. */
    ghost predicate Meets(cmds: seq<seq<byte>>)
      reads `outOffs, entry
    {
      && outOffs < entry.Length
      && forall k: nat :: k < entry.Length ==>
           var e := entry[SlotOf(k, outOffs, entry.Length)];
           (e.buffptr == null <==> k >= |cmds|) && (k < |cmds| ==> e.size == |cmds[k]|)
    }

    lemma ValidScans()
      requires Valid()
      ensures Sized() && Meets(Commands())
    {
      forall i | 0 <= i < |slots| ensures entry[i].buffptr != null && entry[i].size == |slots[i]| {
        assert Holds(entry[i], slots[i]);
      }
      forall k | 0 <= k < |slots| ensures Commands()[k] == slots[SlotOf(k, outOffs, |slots|)] {
        RotateAt(slots, outOffs, k);
      }
    }

    /** The slot and byte offset that the driver's lookup finds from logical command `i` on. */
    ghost function Found(cmds: seq<seq<byte>>, i: nat, acc: int, off: nat): Option<(nat, nat)>
      reads `outOffs
    {
      match LookupFrom(cmds, i, acc, off)
      case None => None
      case Some(At(k, d)) => Some((SlotOf(k, outOffs, entry.Length), d))
    }

    /** A piece of logical command `k`, read from its slot's storage. */
    lemma SlotBytes(k: nat, d: nat, n: nat)
      requires Valid() && k < |slots| && d + n <= |Commands()[k]|
      ensures var e := entry[SlotOf(k, outOffs, entry.Length)];
              && e.buffptr != null && e.size == |Commands()[k]| <= e.buffptr.Length
              && e.buffptr[d..d + n] == Commands()[k][d..d + n]
    {
      CommandSlot(k);
      var i := SlotOf(k, outOffs, entry.Length);
      assert Holds(entry[i], slots[i]);
      SliceOfPrefix(entry[i].buffptr[..], entry[i].size, d, n);
    }

    /** Finds the slot and byte offset of position `charOffset` in the flat string. */
    method FindEntryOffsetForFpos(charOffset: nat) returns (r: Option<(nat, nat)>)
      requires Valid()
      ensures match Lookup(Commands(), charOffset)
              case None => r == None
              case Some(At(k, d)) => r == Some((SlotOf(k, outOffs, entry.Length), d))
    {
      ValidScans();
      r := Scan(charOffset, Commands());
    }

    /** The loop of `aesd_circular_buffer_find_entry_offset_for_fpos`. */
    method Scan(charOffset: nat, ghost cmds: seq<seq<byte>>) returns (r: Option<(nat, nat)>)
      requires Meets(cmds) && |cmds| <= entry.Length
      ensures r == Found(cmds, 0, 0, charOffset)
    {
      var cursor := outOffs;
      var accumulatedOffset := 0;
      var i := 0;
      while i < entry.Length
        invariant i <= |cmds|
        invariant cursor == SlotOf(i, outOffs, entry.Length)
        invariant Found(cmds, 0, 0, charOffset) == Found(cmds, i, accumulatedOffset, charOffset)
      {
        if entry[cursor].buffptr == null {
          return None;
        }
        var size := entry[cursor].size;
        if charOffset >= U64(accumulatedOffset) && charOffset < U64(U64(accumulatedOffset) + size) {
          return Some((cursor, charOffset - U64(accumulatedOffset)));
        }
        accumulatedOffset := I32(U64(accumulatedOffset) + size);
        cursor := cursor + 1;
        if cursor >= entry.Length {
          cursor := 0;
        }
        i := i + 1;
      }
      return None;
    }

    /** Critical section of `aesd_read`: bytes of the command found at `pos`, up to its end. */
    method CopyOut(pos: nat, count: nat) returns (out: seq<byte>)
      requires Valid()
      ensures out == DriverRead(Commands(), pos, count)
    {
      var selected := FindEntryOffsetForFpos(pos);
      if selected.None? {
        return [];
      }
      var (slot, offset) := selected.value;
      SlotBytes(Lookup(Commands(), pos).value.cmd, offset, |DriverRead(Commands(), pos, count)|);
      var bytesAvailable := entry[slot].size - offset;
      var bytesToCopy := if bytesAvailable < count then bytesAvailable else count;
      return entry[slot].buffptr[offset..offset + bytesToCopy];
    }

    /** Bytes stored: the loop over physical slots sums to the length of the flat string. */
    method TotalSize() returns (total: nat)
      requires Valid()
      ensures total == U64(Total(Commands()))
    {
      ValidScans();
      total := SumSizes();
      RotationKeepsTotal(slots, outOffs);
    }

    method SumSizes() returns (total: nat)
      requires Sized()
      ensures total == U64(Total(slots))
    {
      total := 0;
      var index := 0;
      while index < entry.Length
        invariant index <= entry.Length
        invariant total == U64(Start(slots, Min(index, |slots|)))
      {
        SumWraps(Start(slots, Min(index, |slots|)), entry[index].size);
        total := U64(total + entry[index].size);
        index := index + 1;
      }
    }

    /** Loop of `aesd_adjust_file_offset`, which takes `writeCmd` for a physical slot. */
    method AdjustOffset(writeCmd: nat, writeCmdOffset: nat) returns (r: Option<nat>)
      requires Valid()
      ensures r == SeekPos(slots, writeCmd, writeCmdOffset)
    {
      ValidScans();
      if writeCmd >= entry.Length {
        return None;
      }
      var fpos, index := 0, 0;
      while index < entry.Length
        invariant index <= writeCmd
        invariant fpos == Start(slots, Min(index, |slots|))
      {
        if writeCmd == index {
          if writeCmdOffset >= entry[index].size {
            return None;
          }
          return Some(fpos + writeCmdOffset);
        }
        fpos := fpos + entry[index].size;
        index := index + 1;
      }
    }
  }

  lemma SumWraps(a: int, b: int)
    ensures U64(U64(a) + b) == U64(a + b)
  {
  }

  lemma SliceOfPrefix<T>(s: seq<T>, m: nat, d: nat, n: nat)
    requires d + n <= m <= |s|
    ensures s[..m][d..d + n] == s[d..d + n]
  {
  }

  lemma RotationKeepsTotal(slots: seq<seq<byte>>, out: nat)
    requires out <= |slots|
    ensures Total(Rotate(slots, out)) == Total(slots)
  {
    TotalIsFlatLength(slots);
    TotalIsFlatLength(Rotate(slots, out));
    FlatAppend(slots[out..], slots[..out]);
    FlatAppend(slots[..out], slots[out..]);
    assert slots == slots[..out] + slots[out..];
  }
}
