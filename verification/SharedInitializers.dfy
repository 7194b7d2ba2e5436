/**
 Weak interning of initializer bytes by content, and of their arrays by address. The heap may give
 a freed address out again; a lookup still never finds anything but what was asked for.
 */
module SharedInitializers {
  import opened Wrappers

  const SHARED_FROM := 4096

  /** The identity of host bytes. The digest stands for the bytes it was taken of. */
  datatype ContentKey = ContentKey(dtype: nat, shape: seq<int>, digest: seq<nat>)

  datatype ArrayKey = ArrayKey(address: nat, dtype: nat, shape: seq<int>)

  /** Host bytes, how many plans own them, and the content key they were interned under. */
  datatype Storage = Storage(address: nat, bytes: seq<nat>, owners: nat, interned: Option<ContentKey>)

  /** An array made of a storage, which it owns too, and how many plans own the array. */
  datatype SharedArray = SharedArray(key: ArrayKey, bytes: seq<nat>, storage: nat, owners: nat)

  type Storages = map<nat, Storage>

  type Arrays = map<nat, SharedArray>

  ghost predicate AddressesDiffer(storages: Storages) {
    forall s, t {:trigger storages[s], storages[t]} :: s in storages && t in storages && s != t ==>
      storages[s].address != storages[t].address
  }

  /** Some live array keeps the storage. */
  predicate Held(s: nat, arrays: Arrays) {
    exists a | a in arrays :: arrays[a].storage == s
  }

  /** An array keeps its storage alive, and with it the address it is indexed by. */
  ghost predicate MadeOf(a: SharedArray, storages: Storages) {
    && a.owners > 0 && a.storage in storages
    && storages[a.storage].address == a.key.address && storages[a.storage].bytes == a.bytes
  }

  ghost predicate AllMade(arrays: Arrays, storages: Storages) {
    forall a {:trigger arrays[a]} :: a in arrays ==> MadeOf(arrays[a], storages)
  }

  ghost predicate Kept(storages: Storages, arrays: Arrays) {
    forall s {:trigger storages[s]} :: s in storages ==> storages[s].owners > 0 || Held(s, arrays)
  }

  /** A live array is indexed only under its own key. */
  ghost predicate ArraysIndexed(index: map<ArrayKey, nat>, arrays: Arrays, next: nat) {
    && (forall a {:trigger arrays[a]} :: a in arrays ==> a < next)
    && (forall k {:trigger index[k]} :: k in index ==> index[k] < next && (index[k] in arrays ==> arrays[index[k]].key == k))
  }

  /** Every live interned storage is the one its content key leads to. */
  ghost predicate ContentIndexed(index: map<ContentKey, nat>, storages: Storages, next: nat) {
    && (forall s {:trigger storages[s]} :: s in storages ==> s < next)
    && (forall k {:trigger index[k]} :: k in index ==>
          index[k] < next && (index[k] in storages ==> storages[index[k]].interned == Some(k)))
    && (forall s {:trigger storages[s]} :: s in storages && storages[s].interned.Some? ==>
          && storages[s].bytes == storages[s].interned.value.digest
          && storages[s].interned.value in index && index[storages[s].interned.value] == s)
  }

  class Pool {
    const enabled: bool
    /** Live objects by identity; an identity is never used again. */
    var storages: Storages
    var arrays: Arrays
    var nextStorage: nat
    var nextArray: nat
    /** Weak references: an identity that is no longer alive cannot be upgraded. */
    var contentIndex: map<ContentKey, nat>
    var arrayIndex: map<ArrayKey, nat>

    ghost predicate Valid()
      reads this
    {
      && AddressesDiffer(storages) && AllMade(arrays, storages) && Kept(storages, arrays)
      && ArraysIndexed(arrayIndex, arrays, nextArray) && ContentIndexed(contentIndex, storages, nextStorage)
    }

    constructor (on: bool)
      ensures Valid() && enabled == on && storages == map[] && arrays == map[]
    {
      enabled := on;
      storages, arrays, contentIndex, arrayIndex, nextStorage, nextArray := map[], map[], map[], map[], 0, 0;
    }

    /** The live storage the content index knows for a key. */
    function Interned(key: ContentKey): (place: Option<nat>)
      reads this
    {
      if key in contentIndex && contentIndex[key] in storages then Some(contentIndex[key]) else None
    }

    /** The heap may hand out any address that no live storage has. */
    ghost predicate Free(address: nat)
      reads this`storages
    {
      forall s {:trigger storages[s]} :: s in storages ==> storages[s].address != address
    }

    /**
     Own a copy of the bytes. Live content of the same type and shape is shared instead: a content
     key never has two live owners.
     */
    method Own(data: seq<nat>, dtype: nat, shape: seq<int>, address: nat) returns (s: nat)
      requires Valid() && Free(address)
      modifies this`storages, this`nextStorage, this`contentIndex
      ensures Valid() && s in storages && storages[s].bytes == data
      ensures var key := ContentKey(dtype, shape, data);
              var shared := enabled && |data| >= 4096;
              && (shared ==> storages[s].interned == Some(key))
              && (shared && old(Interned(key)).Some? ==>
                    s == old(Interned(key)).value && storages == old(storages)[s := OneMore(old(storages)[s])])
              && (!shared || old(Interned(key)).None? ==>
                    s !in old(storages)
                    && storages == old(storages)[s := Storage(address, data, 1, if shared then Some(key) else None)])
    {
      if |data| < SHARED_FROM || !enabled {
        s := Add(data, address);
        return;
      }
      var key := ContentKey(dtype, shape, data);
      var known := Interned(key);
      if known.Some? {
        s := known.value;
        storages := storages[s := OneMore(storages[s])];
      } else {
        s := Intern(key, data, address);
      }
    }

    method Add(data: seq<nat>, address: nat) returns (s: nat)
      requires Valid() && Free(address)
      modifies this`storages, this`nextStorage
      ensures Valid() && s !in old(storages) && storages == old(storages)[s := Storage(address, data, 1, None)]
    {
      s := nextStorage;
      storages, nextStorage := storages[s := Storage(address, data, 1, None)], nextStorage + 1;
    }

    /** Index new content, forgetting every expired key. */
    method Intern(key: ContentKey, data: seq<nat>, address: nat) returns (s: nat)
      requires Valid() && Free(address) && key.digest == data && Interned(key).None?
      modifies this`storages, this`nextStorage, this`contentIndex
      ensures Valid() && s !in old(storages) && storages == old(storages)[s := Storage(address, data, 1, Some(key))]
      ensures forall k {:trigger k in contentIndex} :: k in contentIndex ==> contentIndex[k] in storages
    {
      s := nextStorage;
      contentIndex := (map k | k in contentIndex && contentIndex[k] in storages :: contentIndex[k])[key := s];
      storages, nextStorage := storages[s := Storage(address, data, 1, Some(key))], nextStorage + 1;
    }

    /** The array of an owned initializer: shared while one is alive, made anew otherwise. */
    method Get(s: nat, dtype: nat, shape: seq<int>) returns (a: Option<nat>)
      requires Valid() && s in storages
      modifies this`arrays, this`nextArray, this`arrayIndex
      ensures Valid()
      ensures a.Some? <==> enabled && |storages[s].bytes| >= 4096
      ensures a.None? ==> arrays == old(arrays)
      ensures a.Some? ==>
                && a.value in arrays && arrays[a.value].storage == s && arrays[a.value].bytes == storages[s].bytes
                && arrays[a.value].key.dtype == dtype && arrays[a.value].key.shape == shape
      ensures a.Some? ==> var key := ArrayKey(storages[s].address, dtype, shape);
                if key in old(arrayIndex) && old(arrayIndex)[key] in old(arrays)
                then a.value == old(arrayIndex)[key]
                     && arrays == old(arrays)[a.value := old(arrays)[a.value].(owners := old(arrays)[a.value].owners + 1)]
                else a.value !in old(arrays) && arrays == old(arrays)[a.value := SharedArray(key, storages[s].bytes, s, 1)]
    {
      if !enabled || |storages[s].bytes| < SHARED_FROM { return None; }
      var key := ArrayKey(storages[s].address, dtype, shape);
      if key in arrayIndex && arrayIndex[key] in arrays {
        var found := arrayIndex[key];
        SameStorage(arrays, storages, found, s);
        arrays := arrays[found := arrays[found].(owners := arrays[found].owners + 1)];
        HeldOnes(old(arrays), arrays);
        a := Some(found);
      } else {
        var made := Make(s, key);
        a := Some(made);
      }
    }

    /** Make and index an array, forgetting every expired key. */
    method Make(s: nat, key: ArrayKey) returns (a: nat)
      requires Valid() && s in storages && storages[s].address == key.address
      modifies this`arrays, this`nextArray, this`arrayIndex
      ensures Valid() && a !in old(arrays) && arrays == old(arrays)[a := SharedArray(key, storages[s].bytes, s, 1)]
      ensures forall k {:trigger k in arrayIndex} :: k in arrayIndex ==> arrayIndex[k] in arrays
    {
      a := nextArray;
      arrayIndex := (map k | k in arrayIndex && arrayIndex[k] in arrays :: arrayIndex[k])[key := a];
      arrays, nextArray := arrays[a := SharedArray(key, storages[s].bytes, s, 1)], nextArray + 1;
      HeldOnes(old(arrays), arrays);
    }

    /** A plan lets go of host bytes; the last owner frees them, unless an array still needs them. */
    method DropStorage(s: nat)
      requires Valid() && s in storages && storages[s].owners > 0
      modifies this`storages
      ensures Valid()
      ensures storages == Released(old(storages)[s := OneLess(old(storages)[s])], arrays, s)
      ensures s in storages <==> old(storages)[s].owners > 1 || exists a {:trigger arrays[a]} :: a in arrays && arrays[a].storage == s
      ensures s in storages ==> storages[s] == old(storages)[s].(owners := old(storages)[s].owners - 1)
      ensures forall t {:trigger storages[t]} {:trigger old(storages)[t]} :: t != s ==>
                (t in storages <==> t in old(storages)) && (t in storages ==> storages[t] == old(storages)[t])
    {
      storages := Released(storages[s := OneLess(storages[s])], arrays, s);
    }

    /** A plan lets go of an array; the last owner frees it, and its bytes if no one else has them. */
    method DropArray(a: nat)
      requires Valid() && a in arrays
      modifies this`arrays, this`storages
      ensures Valid()
      ensures arrays == if old(arrays)[a].owners > 1
                        then old(arrays)[a := old(arrays)[a].(owners := old(arrays)[a].owners - 1)]
                        else old(arrays) - {a}
      ensures storages == if old(arrays)[a].owners > 1 then old(storages)
                          else Released(old(storages), arrays, old(arrays)[a].storage)
      ensures forall t {:trigger storages[t]} {:trigger old(storages)[t]} ::
                (t in storages <==>
                 t in old(storages) && (t != old(arrays)[a].storage || old(storages)[t].owners > 0
                                        || exists b {:trigger arrays[b]} :: b in arrays && arrays[b].storage == t))
                && (t in storages ==> storages[t] == old(storages)[t])
    {
      if arrays[a].owners > 1 {
        arrays := arrays[a := arrays[a].(owners := arrays[a].owners - 1)];
        HeldOnes(old(arrays), arrays);
      } else {
        FreeArray(a);
      }
    }

    method FreeArray(a: nat)
      requires Valid() && a in arrays
      modifies this`arrays, this`storages
      ensures Valid() && arrays == old(arrays) - {a}
      ensures storages == Released(old(storages), arrays, old(arrays)[a].storage)
    {
      var storage := arrays[a].storage;
      arrays := arrays - {a};
      storages := Released(storages, arrays, storage);
      HeldAfterDrop(old(arrays), a);
    }
  }

  function OneMore(s: Storage): (r: Storage) { s.(owners := s.owners + 1) }

  function OneLess(s: Storage): (r: Storage)
    requires s.owners > 0
  {
    s.(owners := s.owners - 1)
  }

  /** Free a storage that nothing owns any more. */
  function Released(storages: Storages, arrays: Arrays, s: nat): (left: Storages) {
    if s in storages && storages[s].owners == 0 && !Held(s, arrays) then storages - {s} else storages
  }

  /** An array that is alive at a storage's address was made of that very storage. */
  lemma {:induction false} SameStorage(arrays: Arrays, storages: Storages, a: nat, s: nat)
    requires AddressesDiffer(storages) && AllMade(arrays, storages)
    requires a in arrays && s in storages && arrays[a].key.address == storages[s].address
    ensures arrays[a].storage == s && arrays[a].bytes == storages[s].bytes
  {
    assert MadeOf(arrays[a], storages);
    assert storages[arrays[a].storage].address == storages[s].address;
  }

  /** Two live storages interned under one content key are one storage, and hold that content. */
  lemma {:induction false} OneOwnerPerContent(index: map<ContentKey, nat>, storages: Storages, next: nat, s: nat, t: nat)
    requires ContentIndexed(index, storages, next) && s in storages && t in storages
    requires storages[s].interned.Some? && storages[s].interned == storages[t].interned
    ensures s == t && storages[s].bytes == storages[s].interned.value.digest
  {
    assert index[storages[s].interned.value] == s && index[storages[t].interned.value] == t;
  }

  lemma {:induction false} HeldOnes(before: Arrays, after: Arrays)
    requires forall a {:trigger before[a]} :: a in before ==> a in after && after[a].storage == before[a].storage
    ensures forall s: nat {:trigger Held(s, after)} :: Held(s, before) ==> Held(s, after)
  {
    forall s: nat | Held(s, before) ensures Held(s, after) {
      var a :| a in before && before[a].storage == s;
      assert after[a].storage == s;
    }
  }

  lemma {:induction false} HeldAfterDrop(before: Arrays, dropped: nat)
    requires dropped in before
    ensures forall s: nat {:trigger Held(s, before - {dropped})} ::
              Held(s, before) && s != before[dropped].storage ==> Held(s, before - {dropped})
  {
    forall s: nat | Held(s, before) && s != before[dropped].storage ensures Held(s, before - {dropped}) {
      var a :| a in before && before[a].storage == s;
      assert (before - {dropped})[a].storage == s;
    }
  }
}
