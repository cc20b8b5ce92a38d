/** The key table together with the three kinds of sublists its descriptors carry, and their pools. */
module KeyStore {
  import opened Bits
  import opened TnMem
  import opened SecTables
  import opened RawLists
  import opened KeyLists

  // Pool capacities.
  const MAC_KEYID_LOOKUP_TABLE_MAX_LEN: nat := 1
  const MAC_KEY_USAGE_TABLE_MAX_LEN: nat := 2
  const MAC_KEY_TABLE_MAX_LEN: nat := 16
  const MAC_KEY_DEV_TABLE_MAX_LEN: nat := 16

  // Descriptors, without their links and list headers.
  datatype KeyDesc = KeyDesc(key: seq<byte>)
  datatype LookupDesc = LookupDesc(data: seq<byte>, size: byte)
  datatype KeyDevDesc = KeyDevDesc(device: int, uniqueDevice: bool, blacklisted: bool)
  datatype UsageDesc = UsageDesc(frameType: byte, commandFrameId: byte)

  /** The sublists as they stand in memory, shared nodes and all. */
  datatype Sublists = Sublists(lookups: Raw, keyDevs: Raw, usages: Raw)

  /** The store as values. */
  datatype Snapshot = Snapshot(keys: Table, subs: Sublists)

  /** Each pool's pointers stay inside it, and every key slot has a header and a count for each kind of sublist. */
  ghost predicate SafeLists(u: Sublists, keys: nat) {
    && InBounds(u.lookups) && InBounds(u.keyDevs) && InBounds(u.usages)
    && |u.lookups.head| == |u.keyDevs.head| == |u.usages.head| == keys
  }

  ghost predicate Safe(a: Snapshot) {
    Consistent(a.keys) && SafeLists(a.subs, |a.keys.mark|)
  }

  /** The three release loops of mac_key_free. */
  ghost function ReleaseAll(u: Sublists, k: nat): Sublists
    requires SafeLists(u, |u.lookups.head|) && k < |u.lookups.head|
  {
    Sublists(Release(u.lookups, k), Release(u.keyDevs, k), Release(u.usages, k))
  }

  /** The nodes they return to the pools. */
  ghost function FreedAll(u: Sublists, k: nat): nat
    requires SafeLists(u, |u.lookups.head|) && k < |u.lookups.head|
  {
    ReleaseFreed(u.lookups, k) + ReleaseFreed(u.keyDevs, k) + ReleaseFreed(u.usages, k)
  }

  /** What a set on the key table leaves: appended, replaced with the old key and its material freed, or untouched. */
  ghost predicate KeySet(a: Snapshot, b: Snapshot, index: byte, value: int, ok: bool)
    requires Safe(a)
  {
    && 0 <= value < |a.keys.mark|
    && (ok <==> index <= |a.keys.spine|)
    && (!ok ==> b == a)
    && (index == |a.keys.spine| ==>
          && b == a.(keys := b.keys) && b.keys.spine == a.keys.spine + [value]
          && b.keys.mark == a.keys.mark[value := Listed(0)])
    && (index < |a.keys.spine| ==>
          && 0 <= a.keys.spine[index] < |a.keys.mark| && b.keys.spine == a.keys.spine[index := value]
          && b.keys.mark == a.keys.mark[value := Listed(0)][a.keys.spine[index] := Vacant]
          && b.subs == ReleaseAll(a.subs, a.keys.spine[index]))
  }

  /** What a delete on the key table leaves. */
  ghost predicate KeyDeleted(a: Snapshot, b: Snapshot, index: byte, ok: bool)
    requires Safe(a)
  {
    && (ok <==> index < |a.keys.spine|)
    && (!ok ==> b == a)
    && (ok ==>
          && 0 <= a.keys.spine[index] < |a.keys.mark| && b.keys.spine == Without(a.keys.spine, index)
          && b.keys.mark == a.keys.mark[a.keys.spine[index] := Vacant]
          && b.subs == ReleaseAll(a.subs, a.keys.spine[index]))
  }

  function EmptySubs(): Sublists {
    Sublists(EmptyRaw(MAC_KEYID_LOOKUP_TABLE_MAX_LEN, MAC_KEY_TABLE_MAX_LEN), EmptyRaw(MAC_KEY_DEV_TABLE_MAX_LEN, MAC_KEY_TABLE_MAX_LEN),
             EmptyRaw(MAC_KEY_USAGE_TABLE_MAX_LEN, MAC_KEY_TABLE_MAX_LEN))
  }

  class Store {
    const keys: SecTable<KeyDesc>
    const lookups: KeyList<LookupDesc>
    const keyDevs: KeyList<KeyDevDesc>
    const usages: KeyList<UsageDesc>

    constructor ()
      ensures Valid() && keys.st.spine == [] && keys.st.mark == seq(MAC_KEY_TABLE_MAX_LEN, i => Vacant)
      ensures Subs() == EmptySubs()
      ensures fresh(keys) && fresh(keys.pool) && fresh(lookups) && fresh(lookups.pool)
      ensures fresh(keyDevs) && fresh(keyDevs.pool) && fresh(usages) && fresh(usages.pool)
    {
      keys := new SecTable(MAC_KEY_TABLE_MAX_LEN, KeyDesc([]));
      lookups := new KeyList(MAC_KEYID_LOOKUP_TABLE_MAX_LEN, MAC_KEY_TABLE_MAX_LEN, LookupDesc([], 0));
      keyDevs := new KeyList(MAC_KEY_DEV_TABLE_MAX_LEN, MAC_KEY_TABLE_MAX_LEN, KeyDevDesc(NULL, false, false));
      usages := new KeyList(MAC_KEY_USAGE_TABLE_MAX_LEN, MAC_KEY_TABLE_MAX_LEN, UsageDesc(0, 0));
    }

    /** No list shares memory with another; the pools have their configured sizes. */
    ghost predicate ListsValid()
      reads lookups, lookups.pool, keyDevs, keyDevs.pool, usages, usages.pool
    {
      && lookups as object != keyDevs && keyDevs as object != usages && lookups as object != usages
      && lookups.pool as object != keyDevs.pool && keyDevs.pool as object != usages.pool && lookups.pool as object != usages.pool
      && lookups.Valid() && keyDevs.Valid() && usages.Valid()
      && |lookups.head| == |keyDevs.head| == |usages.head| == MAC_KEY_TABLE_MAX_LEN
      && |lookups.pool.count| == MAC_KEYID_LOOKUP_TABLE_MAX_LEN
      && |keyDevs.pool.count| == MAC_KEY_DEV_TABLE_MAX_LEN && |usages.pool.count| == MAC_KEY_USAGE_TABLE_MAX_LEN
    }

    /** Everything but the entry count of the key table. */
    ghost predicate Shape()
      reads keys, keys.pool, lookups, lookups.pool, keyDevs, keyDevs.pool, usages, usages.pool
    {
      && keys.pool as object != lookups.pool && keys.pool as object != keyDevs.pool && keys.pool as object != usages.pool
      && keys.Shape() && |keys.st.mark| == MAC_KEY_TABLE_MAX_LEN && ListsValid()
    }

    ghost predicate Valid()
      reads keys, keys.pool, lookups, lookups.pool, keyDevs, keyDevs.pool, usages, usages.pool
    {
      Shape() && keys.st.entries == keys.entries
    }

    ghost function Subs(): Sublists
      reads lookups, lookups.pool, keyDevs, keyDevs.pool, usages, usages.pool
    {
      Sublists(lookups.Mem(), keyDevs.Mem(), usages.Mem())
    }

    ghost function State(): Snapshot
      reads keys, lookups, lookups.pool, keyDevs, keyDevs.pool, usages, usages.pool
    {
      Snapshot(keys.st, Subs())
    }

    /** mac_keyDesc_set: a held key takes the given nodes as its sublists; other keys may have the same nodes. */
    method SetMaterial(k: int, ids: seq<int>, devs: seq<int>, uses: seq<int>)
      requires Valid() && keys.Holds(k)
      requires Distinct(ids) && forall n :: n in ids ==> 0 <= n < MAC_KEYID_LOOKUP_TABLE_MAX_LEN
      requires Distinct(devs) && forall n :: n in devs ==> 0 <= n < MAC_KEY_DEV_TABLE_MAX_LEN
      requires Distinct(uses) && forall n :: n in uses ==> 0 <= n < MAC_KEY_USAGE_TABLE_MAX_LEN
      modifies lookups, lookups.pool`next, keyDevs, keyDevs.pool`next, usages, usages.pool`next
      ensures Valid() && SetUp(old(lookups.Mem()), lookups.Mem(), k, ids)
      ensures SetUp(old(keyDevs.Mem()), keyDevs.Mem(), k, devs) && SetUp(old(usages.Mem()), usages.Mem(), k, uses)
    {
      lookups.Fill(k, ids);
      keyDevs.Fill(k, devs);
      usages.Fill(k, uses);
    }

    method FreeDevicesAndUsages(k: nat) returns (freed: nat)
      requires ListsValid() && k < MAC_KEY_TABLE_MAX_LEN
      modifies keyDevs, keyDevs.pool`count, keyDevs.pool`next, usages, usages.pool`count, usages.pool`next
      ensures ListsValid() && freed == ReleaseFreed(old(keyDevs.Mem()), k) + ReleaseFreed(old(usages.Mem()), k)
      ensures keyDevs.Mem() == Release(old(keyDevs.Mem()), k) && usages.Mem() == Release(old(usages.Mem()), k)
    {
      var n2 := keyDevs.FreeAll(k);
      var n3 := usages.FreeAll(k);
      freed := n2 + n3;
    }

    /** The three release loops. */
    method FreeMaterial(k: nat) returns (freed: nat)
      requires ListsValid() && k < MAC_KEY_TABLE_MAX_LEN
      modifies lookups, lookups.pool`count, lookups.pool`next, keyDevs, keyDevs.pool`count, keyDevs.pool`next
      modifies usages, usages.pool`count, usages.pool`next
      ensures ListsValid() && Subs() == ReleaseAll(old(Subs()), k) && freed == FreedAll(old(Subs()), k)
    {
      var n1 := lookups.FreeAll(k);
      var n2 := FreeDevicesAndUsages(k);
      freed := n1 + n2;
    }

    /** mac_key_free: the three release loops, then the key itself; `freed` is the number of nodes the pools took back. */
    method KeyFree(k: int) returns (freed: nat)
      requires Valid() && keys.Holds(k)
      modifies keys`st, keys.pool`count, lookups, lookups.pool`count, lookups.pool`next
      modifies keyDevs, keyDevs.pool`count, keyDevs.pool`next, usages, usages.pool`count, usages.pool`next
      ensures Valid() && Subs() == ReleaseAll(old(Subs()), k) && freed == FreedAll(old(Subs()), k)
      ensures keys.st == old(keys.st).(mark := old(keys.st.mark)[k := Vacant])
    {
      freed := FreeMaterial(k);
      var ret := keys.Free(k);
      assert ret == 0;
    }

    /** Set on the key table. */
    method SetKey(index: byte, value: int) returns (ok: bool)
      requires Valid() && keys.Holds(value)
      modifies keys, keys.pool, lookups, lookups.pool, keyDevs, keyDevs.pool, usages, usages.pool
      ensures Valid() && KeySet(old(State()), State(), index, value, ok)
    {
      var evicted;
      ok, evicted := keys.SetEntry(index, value);
      assert evicted != NULL <==> index < |old(keys.st.spine)|;
      if evicted != NULL {
        var _ := KeyFree(evicted);
      }
    }

    /** Delete on the key table. */
    method DelKey(index: byte) returns (ok: bool)
      requires Valid()
      modifies keys, keys.pool, lookups, lookups.pool, keyDevs, keyDevs.pool, usages, usages.pool
      ensures Valid() && KeyDeleted(old(State()), State(), index, ok)
    {
      var removed;
      ok, removed := keys.DelEntry(index);
      if ok {
        var _ := KeyFree(removed);
      }
    }
  }
}
