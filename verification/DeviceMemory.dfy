/**
 Device tensors as an index of stored payloads over address reservations. The index refines plain
 byte memory: whatever it hands out is what the latest writes left at that range.
 */
module DeviceMemory {
  import opened Wrappers

  datatype Error = ByteCount | NotOwned | ExceedsAllocation | Uninitialized | WrongThread | NotNumeric

  /** How a host view reads a payload: the declared element type and dimensions. */
  datatype ViewKey = ViewKey(dtype: nat, shape: seq<int>)

  /** One payload: its bytes, the contiguous host views made of it, and its producer's thread. */
  datatype Stored = Stored(bytes: seq<nat>, views: map<ViewKey, seq<nat>>, thread: nat)

  datatype Allocation = Allocation(size: nat, entries: map<nat, Stored>)

  /** Plain byte memory: what was last written at each address, if anything. */
  type Memory = nat -> Option<nat>

  /** `bytes` are what `memory` holds from `address` on. */
  ghost predicate Agrees(memory: Memory, address: nat, bytes: seq<nat>) {
    forall i: nat {:trigger bytes[i]} :: i < |bytes| ==> memory(address + i) == Some(bytes[i])
  }

  /** Memory after writing `bytes` at `address`. */
  ghost function Written(memory: Memory, address: nat, bytes: seq<nat>): (m: Memory) {
    (x: nat) => if address <= x < address + |bytes| then Some(bytes[x - address]) else memory(x)
  }

  /** Memory after forgetting a range. */
  ghost function Cleared(memory: Memory, address: nat, n: nat): (m: Memory) {
    (x: nat) => if address <= x < address + n then None else memory(x)
  }

  /** A write changes the bytes of its range to those given, forgetting empties its range, and nothing else changes. */
  lemma {:induction false} MemoryMeans(memory: Memory, address: nat, bytes: seq<nat>, x: nat)
    ensures x < address || address + |bytes| <= x ==>
              Written(memory, address, bytes)(x) == memory(x) && Cleared(memory, address, |bytes|)(x) == memory(x)
    ensures x < |bytes| ==>
              && Written(memory, address, bytes)(address + x) == Some(bytes[x])
              && Cleared(memory, address, |bytes|)(address + x) == None
  {
  }

  /** A range of one memory holds the bytes of a range of another. */
  ghost predicate Copied(from: Memory, source: nat, to: Memory, destination: nat, n: nat) {
    forall x: nat {:trigger to(x)} :: destination <= x < destination + n ==> to(x) == from(source + (x - destination))
  }

  lemma {:induction false} WrittenCopies(memory: Memory, destination: nat, source: nat, bytes: seq<nat>)
    requires Agrees(memory, source, bytes)
    ensures SameOutside(memory, Written(memory, destination, bytes), destination, |bytes|)
    ensures Copied(memory, source, Written(memory, destination, bytes), destination, |bytes|)
  {
    forall x: nat | destination <= x < destination + |bytes|
      ensures Written(memory, destination, bytes)(x) == memory(source + (x - destination))
    {
      assert memory(source + (x - destination)) == Some(bytes[x - destination]);
    }
  }

  /** The two memories agree outside a range. */
  ghost predicate SameOutside(was: Memory, now: Memory, address: nat, n: nat) {
    forall x: nat {:trigger now(x)} {:trigger was(x)} :: !(address <= x < address + n) ==> now(x) == was(x)
  }

  ghost predicate Separate(a: nat, n: nat, b: nat, m: nat) {
    a + n <= b || b + m <= a
  }

  /** Every payload lies inside its allocation, has been made once, and its views show its bytes. */
  ghost predicate EntryFits(size: nat, offset: nat, s: Stored) {
    && |s.bytes| > 0 && offset + |s.bytes| <= size
    && forall key {:trigger s.views[key]} :: key in s.views ==> s.views[key] == s.bytes
  }

  ghost predicate EntriesSeparate(entries: map<nat, Stored>) {
    forall o, p {:trigger entries[o], entries[p]} :: o in entries && p in entries && o != p ==>
      Separate(o, |entries[o].bytes|, p, |entries[p].bytes|)
  }

  ghost predicate AllocationValid(base: nat, a: Allocation, memory: Memory) {
    && a.size > 0 && EntriesSeparate(a.entries)
    && forall o {:trigger a.entries[o]} :: o in a.entries ==>
         EntryFits(a.size, o, a.entries[o]) && Agrees(memory, base + o, a.entries[o].bytes)
  }

  /** The entries that do not touch `[low, high)`. */
  function Kept(entries: map<nat, Stored>, low: nat, high: nat): (left: map<nat, Stored>) {
    map o | o in entries && (o >= high || o + |entries[o].bytes| <= low) :: entries[o]
  }

  class Device {
    var allocations: map<nat, Allocation>
    /** What plain byte memory would hold. */
    ghost var memory: Memory

    ghost predicate Valid()
      reads this
    {
      && (forall base {:trigger allocations[base]} :: base in allocations ==>
            AllocationValid(base, allocations[base], memory))
      && (forall a, b {:trigger allocations[a], allocations[b]} :: a in allocations && b in allocations && a != b ==>
            Separate(a, allocations[a].size, b, allocations[b].size))
    }

    /** Some allocation contains the whole range. */
    ghost predicate Owned(address: nat, n: nat)
      reads this`allocations
    {
      exists base {:trigger allocations[base]} ::
        base in allocations && base <= address && address + n <= base + allocations[base].size
    }

    /** Exactly this range was stored last, by this thread. */
    ghost predicate Holds(address: nat, n: nat, thread: nat)
      reads this`allocations
    {
      HoldsIn(allocations, address, n, thread)
    }

    constructor ()
      ensures Valid() && allocations == map[]
    {
      allocations, memory := map[], _ => None;
    }

    /** The greatest base at or below an address. */
    method Lookup(address: nat) returns (found: Option<nat>)
      ensures found.Some? ==> found.value in allocations && found.value <= address
      ensures found.Some? ==> forall b {:trigger b in allocations} :: b in allocations && b <= address ==> b <= found.value
      ensures found.None? ==> forall b {:trigger b in allocations} :: b in allocations ==> b > address
    {
      found := None;
      var rest := allocations.Keys;
      while rest != {}
        invariant rest <= allocations.Keys
        invariant found.Some? ==> found.value in allocations && found.value <= address
        invariant forall b {:trigger b in allocations} :: b in allocations && b !in rest && b <= address ==>
                    found.Some? && b <= found.value
        decreases |rest|
      {
        var b :| b in rest;
        if b <= address && (found.None? || found.value < b) { found := Some(b); }
        rest := rest - {b};
      }
    }

    /** The greatest base is the allocation that contains a nonempty range, whenever one does. */
    lemma {:induction false} GreatestBaseOwns(address: nat, n: nat, base: nat, greatest: nat)
      requires Valid() && n > 0
      requires base in allocations && base <= address && address + n <= base + allocations[base].size
      requires greatest in allocations && base <= greatest <= address
      ensures greatest == base
    {
      var size, other := allocations[base].size, allocations[greatest].size;
      assert other > 0 && (greatest != base ==> Separate(base, size, greatest, other));
    }

    /** The allocation a nonempty range lies in, or why there is none. */
    method Locate(address: nat, n: nat) returns (r: Result<nat, Error>)
      requires Valid() && n > 0
      ensures r.Ok? <==> Owned(address, n)
      ensures r.Ok? ==> r.value in allocations && r.value <= address && address + n <= r.value + allocations[r.value].size
      ensures r.Ok? ==> forall base {:trigger allocations[base]} :: base in allocations && base <= address ==> base <= r.value
    {
      var found := Lookup(address);
      match found
      case None => r := Err(NotOwned);
      case Some(base) =>
        if address + n > base + allocations[base].size {
          if Owned(address, n) {
            var other :| other in allocations && other <= address && address + n <= other + allocations[other].size;
            GreatestBaseOwns(address, n, other, base);
          }
          r := Err(ExceedsAllocation);
        } else {
          r := Ok(base);
        }
    }

    /** A new reservation; the heap never hands out a live range again. */
    method Allocate(size: nat, base: nat)
      requires Valid()
      requires forall b {:trigger allocations[b]} :: b in allocations ==>
                 Separate(b, allocations[b].size, base, if size == 0 then 1 else size)
      modifies this
      ensures Valid() && memory == old(memory)
      ensures allocations == old(allocations)[base := Allocation(if size == 0 then 1 else size, map[])]
    {
      allocations := allocations[base := Allocation(if size == 0 then 1 else size, map[])];
    }

    /** Release a reservation with everything stored in it; an unknown base changes nothing. */
    method Free(base: nat)
      requires Valid()
      modifies this
      ensures Valid() && allocations == old(allocations) - {base}
      ensures memory == if base in old(allocations) then Cleared(old(memory), base, old(allocations)[base].size)
                        else old(memory)
    {
      if base in allocations {
        ghost var size, before, was := allocations[base].size, allocations, memory;
        allocations := allocations - {base};
        memory := Cleared(memory, base, size);
        forall b | b in allocations ensures AllocationValid(b, allocations[b], memory) {
          assert AllocationValid(b, before[b], was) && Separate(b, before[b].size, base, size);
          StaysValid(b, before[b], was, memory, base, size);
        }
      }
    }

    /** Replace whatever the range held; overlapped payloads are dropped whole. */
    method Store(address: nat, bytes: nat, payload: seq<nat>, thread: nat) returns (r: Result<(), Error>)
      requires Valid()
      modifies this
      ensures Valid()
      ensures r.Ok? <==> |payload| == bytes && (bytes == 0 || old(Owned(address, bytes)))
      ensures memory == if r.Ok? && bytes > 0 then Written(old(memory), address, payload) else old(memory)
      ensures r.Err? || bytes == 0 ==> allocations == old(allocations)
      ensures r.Ok? && bytes > 0 ==>
                forall a: nat, n: nat, t: nat {:trigger Holds(a, n, t)} :: n > 0 ==>
                  (Holds(a, n, t) <==>
                   (a, n, t) == (address, bytes, thread) || (old(Holds(a, n, t)) && Separate(a, n, address, bytes)))
    {
      if |payload| != bytes { return Err(ByteCount); }
      if bytes == 0 { return Ok(()); }
      var located := Locate(address, bytes);
      if located.Err? { return Err(located.error); }
      Put(located.value, address - located.value, Stored(payload, map[], thread));
      r := Ok(());
    }

    /** Make an entry in one allocation. */
    method Put(base: nat, offset: nat, s: Stored)
      requires Valid() && base in allocations && |s.bytes| > 0 && s.views == map[]
      requires offset + |s.bytes| <= allocations[base].size
      modifies this
      ensures Valid() && memory == Written(old(memory), base + offset, s.bytes)
      ensures forall a: nat, n: nat, t: nat {:trigger Holds(a, n, t)} :: n > 0 ==>
                (Holds(a, n, t) <==>
                 (a, n, t) == (base + offset, |s.bytes|, s.thread)
                 || (old(Holds(a, n, t)) && Separate(a, n, base + offset, |s.bytes|)))
    {
      ghost var before, was := allocations, memory;
      var whole := allocations[base];
      allocations := allocations[base := Filled(whole, offset, s)];
      memory := Written(memory, base + offset, s.bytes);
      FilledValid(base, whole, offset, s, was);
      forall b | b in allocations && b != base ensures AllocationValid(b, allocations[b], memory) {
        assert AllocationValid(b, before[b], was) && Separate(b, before[b].size, base, whole.size);
        StaysValid(b, before[b], was, memory, base + offset, |s.bytes|);
      }
      forall a: nat, n: nat, t: nat | n > 0
        ensures HoldsIn(allocations, a, n, t) <==>
                (a, n, t) == (base + offset, |s.bytes|, s.thread)
                || (HoldsIn(before, a, n, t) && Separate(a, n, base + offset, |s.bytes|))
      {
        HoldsAfter(before, was, base, offset, s, a, n, t);
      }
    }

    /** The payload stored at exactly this range, if this thread produced it. */
    method Load(address: nat, bytes: nat, numeric: bool, thread: nat) returns (r: Result<seq<nat>, Error>)
      requires Valid()
      ensures bytes == 0 ==> r == if numeric then Ok([]) else Err(NotNumeric)
      ensures bytes > 0 ==> (r.Ok? <==> Holds(address, bytes, thread))
      ensures r.Ok? ==> |r.value| == bytes && Agrees(memory, address, r.value)
      ensures r.Ok? ==> forall i: nat {:trigger r.value[i]} :: i < bytes ==> memory(address + i) == Some(r.value[i])
    {
      if bytes == 0 { return if numeric then Ok([]) else Err(NotNumeric); }
      if Holds(address, bytes, thread) { HoldsIsOwned(address, bytes, thread); }
      var located := Locate(address, bytes);
      if located.Err? { return Err(located.error); }
      var entries := allocations[located.value].entries;
      var offset := address - located.value;
      if offset !in entries || |entries[offset].bytes| != bytes { r := Err(Uninitialized); }
      else if entries[offset].thread != thread { r := Err(WrongThread); }
      else { r := Ok(entries[offset].bytes); }
      assert r.Ok? <==> HoldsAt(allocations, located.value, address, bytes, thread);
      if Holds(address, bytes, thread) { HolderIs(address, bytes, thread, located.value); }
    }

    lemma {:induction false} HoldsIsOwned(address: nat, n: nat, thread: nat)
      requires Valid() && Holds(address, n, thread)
      ensures Owned(address, n)
    {
      var base: nat :| HoldsAt(allocations, base, address, n, thread);
      assert EntryFits(allocations[base].size, address - base, allocations[base].entries[address - base]);
    }

    lemma {:induction false} HolderIs(address: nat, n: nat, thread: nat, located: nat)
      requires Valid() && Holds(address, n, thread) && n > 0
      requires located in allocations && located <= address
      requires forall base {:trigger allocations[base]} :: base in allocations && base <= address ==> base <= located
      ensures HoldsAt(allocations, located, address, n, thread)
    {
      var base: nat :| HoldsAt(allocations, base, address, n, thread);
      assert EntryFits(allocations[base].size, address - base, allocations[base].entries[address - base]);
      GreatestBaseOwns(address, n, base, located);
    }

    /** Read a payload on the host, making its contiguous view at most once. */
    method HostData(address: nat, bytes: nat, key: ViewKey, numeric: bool, thread: nat) returns (r: Result<seq<nat>, Error>)
      requires Valid()
      modifies this`allocations
      ensures Valid()
      ensures bytes == 0 ==> r == if numeric then Ok([]) else Err(NotNumeric)
      ensures bytes > 0 ==> (r.Ok? <==> old(Holds(address, bytes, thread)))
      ensures r.Ok? ==> |r.value| == bytes && Agrees(memory, address, r.value)
      ensures r.Ok? ==> forall i: nat {:trigger r.value[i]} :: i < bytes ==> memory(address + i) == Some(r.value[i])
      ensures forall a: nat, n: nat, t: nat {:trigger Holds(a, n, t)} :: Holds(a, n, t) <==> old(Holds(a, n, t))
    {
      r := Load(address, bytes, numeric, thread);
      if r.Err? || bytes == 0 { return; }
      HoldsIsOwned(address, bytes, thread);
      var located := Locate(address, bytes);
      HolderIs(address, bytes, thread, located.value);
      r := View(located.value, address - located.value, key, r.value);
    }

    /** Transfer one tensor between device ranges: the destination then holds the source's bytes. */
    method CopyDevice(source: nat, destination: nat, bytes: nat, numeric: bool, thread: nat) returns (r: Result<(), Error>)
      requires Valid()
      modifies this
      ensures Valid()
      ensures r.Ok? <==> if bytes == 0 then numeric
                         else old(Holds(source, bytes, thread)) && old(Owned(destination, bytes))
      ensures r.Err? ==> memory == old(memory) && allocations == old(allocations)
      ensures r.Ok? ==> forall x: nat {:trigger memory(x)} ::
                memory(x) == if destination <= x < destination + bytes then old(memory)(source + (x - destination))
                             else old(memory)(x)
      ensures r.Ok? && bytes > 0 ==> Holds(destination, bytes, thread)
    {
      var loaded := Load(source, bytes, numeric, thread);
      if loaded.Err? { return Err(loaded.error); }
      WrittenCopies(memory, destination, source, loaded.value);
      r := Store(destination, bytes, loaded.value, thread);
    }

    /** The cached host view of an entry, made from its bytes the first time. */
    method View(base: nat, offset: nat, key: ViewKey, bytes: seq<nat>) returns (r: Result<seq<nat>, Error>)
      requires Valid() && base in allocations && offset in allocations[base].entries
      requires allocations[base].entries[offset].bytes == bytes
      modifies this`allocations
      ensures Valid() && r == Ok(bytes)
      ensures forall a: nat, n: nat, t: nat {:trigger Holds(a, n, t)} :: Holds(a, n, t) <==> old(Holds(a, n, t))
    {
      ghost var before := allocations;
      var whole := allocations[base];
      var entry := whole.entries[offset];
      assert AllocationValid(base, whole, memory) && EntryFits(whole.size, offset, entry);
      if key in entry.views {
        r := Ok(entry.views[key]);
      } else {
        allocations := allocations[base := Viewed(whole, offset, key)];
        ViewedValid(base, whole, offset, key, memory);
        assert Valid();
        forall a: nat, n: nat, t: nat ensures HoldsIn(allocations, a, n, t) <==> HoldsIn(before, a, n, t) {
          HoldsInViewed(before, base, offset, key, a, n, t);
        }
        r := Ok(bytes);
      }
    }
  }

  ghost predicate HoldsAt(allocations: map<nat, Allocation>, base: nat, address: nat, n: nat, thread: nat) {
    base in allocations && base <= address &&
    var entries := allocations[base].entries;
    address - base in entries && |entries[address - base].bytes| == n && entries[address - base].thread == thread
  }

  ghost predicate HoldsIn(allocations: map<nat, Allocation>, address: nat, n: nat, thread: nat) {
    exists base: nat {:trigger HoldsAt(allocations, base, address, n, thread)} ::
      HoldsAt(allocations, base, address, n, thread)
  }

  function Filled(a: Allocation, offset: nat, s: Stored): (r: Allocation) {
    a.(entries := Kept(a.entries, offset, offset + |s.bytes|)[offset := s])
  }

  function Viewed(a: Allocation, offset: nat, key: ViewKey): (r: Allocation)
    requires offset in a.entries
  {
    var entry := a.entries[offset];
    a.(entries := a.entries[offset := entry.(views := entry.views[key := entry.bytes])])
  }

  lemma {:induction false} StaysValid(base: nat, a: Allocation, was: Memory, now: Memory, low: nat, n: nat)
    requires AllocationValid(base, a, was) && Separate(base, a.size, low, n) && SameOutside(was, now, low, n)
    ensures AllocationValid(base, a, now)
  {
    forall o | o in a.entries ensures Agrees(now, base + o, a.entries[o].bytes) {
      assert EntryFits(a.size, o, a.entries[o]) && Agrees(was, base + o, a.entries[o].bytes);
    }
  }

  lemma {:induction false} FilledValid(base: nat, a: Allocation, offset: nat, s: Stored, was: Memory)
    requires AllocationValid(base, a, was)
    requires |s.bytes| > 0 && offset + |s.bytes| <= a.size && s.views == map[]
    ensures AllocationValid(base, Filled(a, offset, s), Written(was, base + offset, s.bytes))
  {
    var now, entries := Written(was, base + offset, s.bytes), Filled(a, offset, s).entries;
    assert Agrees(now, base + offset, s.bytes);
    forall o | o in entries ensures EntryFits(a.size, o, entries[o]) && Agrees(now, base + o, entries[o].bytes) {
      if o != offset { KeptEntry(base, a, offset, s, o, was); }
    }
    FilledSeparate(a, offset, s);
  }

  lemma {:induction false} KeptEntry(base: nat, a: Allocation, offset: nat, s: Stored, o: nat, was: Memory)
    requires AllocationValid(base, a, was) && o in a.entries
    requires Separate(o, |a.entries[o].bytes|, offset, |s.bytes|)
    ensures EntryFits(a.size, o, a.entries[o])
    ensures Agrees(Written(was, base + offset, s.bytes), base + o, a.entries[o].bytes)
  {
    assert EntryFits(a.size, o, a.entries[o]) && Agrees(was, base + o, a.entries[o].bytes);
  }

  lemma {:induction false} FilledSeparate(a: Allocation, offset: nat, s: Stored)
    requires EntriesSeparate(a.entries)
    ensures EntriesSeparate(Filled(a, offset, s).entries)
  {
  }

  lemma {:induction false} ViewedValid(base: nat, a: Allocation, offset: nat, key: ViewKey, memory: Memory)
    requires AllocationValid(base, a, memory) && offset in a.entries
    ensures AllocationValid(base, Viewed(a, offset, key), memory)
  {
    var entries := Viewed(a, offset, key).entries;
    forall o | o in entries ensures EntryFits(a.size, o, entries[o]) && Agrees(memory, base + o, entries[o].bytes) {
      assert EntryFits(a.size, o, a.entries[o]) && Agrees(memory, base + o, a.entries[o].bytes);
    }
    forall o, p | o in entries && p in entries && o != p
      ensures Separate(o, |entries[o].bytes|, p, |entries[p].bytes|)
    {
      assert Separate(o, |a.entries[o].bytes|, p, |a.entries[p].bytes|);
    }
  }

  lemma {:induction false} HoldsInViewed(before: map<nat, Allocation>, base: nat, offset: nat, key: ViewKey,
                                         a: nat, n: nat, t: nat)
    requires base in before && offset in before[base].entries
    ensures HoldsIn(before[base := Viewed(before[base], offset, key)], a, n, t) <==> HoldsIn(before, a, n, t)
  {
    var now := before[base := Viewed(before[base], offset, key)];
    forall b: nat ensures HoldsAt(now, b, a, n, t) <==> HoldsAt(before, b, a, n, t) {}
  }

  /** After a store exactly the ranges that do not touch it are still held, and the stored one. */
  lemma {:induction false} HoldsAfter(before: map<nat, Allocation>, was: Memory, base: nat, offset: nat, s: Stored,
                                      a: nat, n: nat, t: nat)
    requires base in before && n > 0 && |s.bytes| > 0 && offset + |s.bytes| <= before[base].size
    requires forall b {:trigger before[b]} :: b in before ==> AllocationValid(b, before[b], was)
    requires forall b, c {:trigger before[b], before[c]} :: b in before && c in before && b != c ==>
               Separate(b, before[b].size, c, before[c].size)
    ensures HoldsIn(before[base := Filled(before[base], offset, s)], a, n, t) <==>
            (a, n, t) == (base + offset, |s.bytes|, s.thread)
            || (HoldsIn(before, a, n, t) && Separate(a, n, base + offset, |s.bytes|))
  {
    var now := before[base := Filled(before[base], offset, s)];
    forall b: nat
      ensures HoldsAt(now, b, a, n, t) <==>
              || (b == base && (a, n, t) == (base + offset, |s.bytes|, s.thread))
              || (HoldsAt(before, b, a, n, t) && Separate(a, n, base + offset, |s.bytes|))
    {
      if HoldsAt(before, b, a, n, t) {
        assert EntryFits(before[b].size, a - b, before[b].entries[a - b]);
        assert b != base ==> Separate(b, before[b].size, base, before[base].size);
      }
    }
    if (a, n, t) == (base + offset, |s.bytes|, s.thread) { assert HoldsAt(now, base, a, n, t); }
  }
}
