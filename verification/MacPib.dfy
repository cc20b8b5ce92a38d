/** The PIB services: set, get and delete over the three security tables and the scalar attributes. */
module MacPib {
  import opened Bits
  import opened TnMem
  import opened SecTables
  import opened KeyStore
  import opened PibFields

  const MAC_DEV_TABLE_MAX_LEN: nat := 16
  const MAC_SEC_LVL_TABLE_MAX_LEN: nat := 6

  // Identifiers whose rows are the tables' entry counts.
  const KEY_COUNT_ALIAS: byte := 0x61
  const DEVICE_COUNT_ALIAS: byte := 0x63
  const LEVEL_COUNT_ALIAS: byte := 0x65

  datatype DeviceDesc = DeviceDesc(frameCounter: nat, panId: nat, shortAddr: nat, extAddr: seq<byte>, exempt: bool)
  datatype SecLevelDesc = SecLevelDesc(frameType: byte, commandFrameId: byte, securityMin: byte, deviceOverride: bool)

  /** What a set on a table without sublists leaves: appended, replaced with the old node freed, or untouched. */
  ghost predicate TableSet(a: Table, b: Table, index: byte, value: int, ok: bool) {
    && (ok <==> index <= |a.spine|)
    && (!ok ==> b == a)
    && 0 <= value < |a.mark|
    && (index == |a.spine| ==> b.spine == a.spine + [value] && b.mark == a.mark[value := Listed(0)])
    && (index < |a.spine| ==>
          && 0 <= a.spine[index] < |a.mark| && b.spine == a.spine[index := value]
          && b.mark == a.mark[value := Listed(0)][a.spine[index] := Vacant])
  }

  /** What a delete on such a table leaves. */
  ghost predicate TableDeleted(a: Table, b: Table, index: byte, ok: bool) {
    && (ok <==> index < |a.spine|)
    && (!ok ==> b == a)
    && (ok ==> 0 <= a.spine[index] < |a.mark| && b.spine == Without(a.spine, index) && b.mark == a.mark[a.spine[index] := Vacant])
  }

  /** Set on the device or security level table: the replaced node goes back to its pool. */
  method SetAndFree<T(0)>(table: SecTable<T>, index: byte, value: int) returns (ok: bool)
    requires table.Valid() && table.Holds(value)
    modifies table, table.pool`count, table.pool`next
    ensures table.Valid() && TableSet(old(table.st), table.st, index, value, ok)
  {
    var evicted;
    ok, evicted := table.SetEntry(index, value);
    if evicted != NULL {
      var ret := table.Free(evicted);
      assert ret == 0;
    }
  }

  method DelAndFree<T(0)>(table: SecTable<T>, index: byte) returns (ok: bool)
    requires table.Valid()
    modifies table, table.pool`count, table.pool`next
    ensures table.Valid() && TableDeleted(old(table.st), table.st, index, ok)
  {
    var removed;
    ok, removed := table.DelEntry(index);
    if ok {
      var ret := table.Free(removed);
      assert ret == 0;
    }
  }

  /** The PIB as values: the tables, and the record with the table bytes it should hold. */
  datatype View = View(store: Snapshot, devices: Table, levels: Table, live: Live)

  function RequestOf(attr: byte, value: seq<byte>, index: byte): Request {
    if TableAttr(attr) then SetTable(attr, index) else Scalar(SetReq(attr, value, index))
  }

  /** The specification of a set request: one table, and its count in the record, or one row of the record. */
  ghost predicate SetStep(a: View, b: View, attr: byte, node: int, value: seq<byte>, index: byte, ok: bool)
    requires Safe(a.store) && MayFollow(a.live, RequestOf(attr, value, index))
  {
    && b.live == Effect(a.live, RequestOf(attr, value, index))
    && if attr == KEY_TABLE then b == a.(store := b.store, live := b.live) && KeySet(a.store, b.store, index, node, ok)
       else if attr == DEVICE_TABLE then b == a.(devices := b.devices, live := b.live) && TableSet(a.devices, b.devices, index, node, ok)
       else if attr == SECURITY_LEVEL_TABLE then b == a.(levels := b.levels, live := b.live) && TableSet(a.levels, b.levels, index, node, ok)
       else b == a.(live := b.live) && ok == Accepted(SetReq(attr, value, index))
  }

  ghost predicate DelStep(a: View, b: View, attr: byte, index: byte, ok: bool)
    requires Safe(a.store) && (TableAttr(attr) ==> InOrder(a.live))
  {
    if attr == KEY_TABLE then
      b == a.(store := b.store, live := Effect(a.live, DelTable(attr, index))) && KeyDeleted(a.store, b.store, index, ok)
    else if attr == DEVICE_TABLE then
      b == a.(devices := b.devices, live := Effect(a.live, DelTable(attr, index))) && TableDeleted(a.devices, b.devices, index, ok)
    else if attr == SECURITY_LEVEL_TABLE then
      b == a.(levels := b.levels, live := Effect(a.live, DelTable(attr, index))) && TableDeleted(a.levels, b.levels, index, ok)
    else
      b == a && !ok
  }

  type ListPointer = p: seq<byte> | |p| == 4 witness [0, 0, 0, 0]

  /** Three cleared tables that share no memory. */
  method NewTables() returns (store: Store, devices: SecTable<DeviceDesc>, levels: SecTable<SecLevelDesc>)
    ensures store.Valid() && devices.Valid() && levels.Valid()
    ensures store.keys.st.spine == devices.st.spine == levels.st.spine == []
    ensures store.keys.st.mark == seq(MAC_KEY_TABLE_MAX_LEN, i => Vacant) && store.Subs() == EmptySubs()
    ensures devices.st.mark == seq(MAC_DEV_TABLE_MAX_LEN, i => Vacant) && levels.st.mark == seq(MAC_SEC_LVL_TABLE_MAX_LEN, i => Vacant)
    ensures fresh(store.keys) && fresh(store.keys.pool) && fresh(store.lookups) && fresh(store.lookups.pool)
    ensures fresh(store.keyDevs) && fresh(store.keyDevs.pool) && fresh(store.usages) && fresh(store.usages.pool)
    ensures fresh(devices) && fresh(devices.pool) && fresh(levels) && fresh(levels.pool)
    ensures NotOf(store, devices) && NotOf(store, devices.pool) && NotOf(store, levels) && NotOf(store, levels.pool)
    ensures devices as object != levels && devices.pool as object != levels.pool
  {
    devices := new SecTable(MAC_DEV_TABLE_MAX_LEN, DeviceDesc(0, 0, 0, [], false));
    levels := new SecTable(MAC_SEC_LVL_TABLE_MAX_LEN, SecLevelDesc(0, 0, 0, false));
    store := new Store();
  }

  /** The same, and a record that points to them. */
  method NewParts(keyListAt: ListPointer, devListAt: ListPointer, lvlListAt: ListPointer)
    returns (store: Store, devices: SecTable<DeviceDesc>, levels: SecTable<SecLevelDesc>, record: PibRecord)
    ensures store.Valid() && devices.Valid() && levels.Valid()
    ensures store.keys.st.spine == devices.st.spine == levels.st.spine == []
    ensures store.keys.st.mark == seq(MAC_KEY_TABLE_MAX_LEN, i => Vacant) && store.Subs() == EmptySubs()
    ensures devices.st.mark == seq(MAC_DEV_TABLE_MAX_LEN, i => Vacant) && levels.st.mark == seq(MAC_SEC_LVL_TABLE_MAX_LEN, i => Vacant)
    ensures fresh(store.keys) && fresh(store.keys.pool) && fresh(store.lookups) && fresh(store.lookups.pool)
    ensures fresh(store.keyDevs) && fresh(store.keyDevs.pool) && fresh(store.usages) && fresh(store.usages.pool)
    ensures fresh(devices) && fresh(devices.pool) && fresh(levels) && fresh(levels.pool)
    ensures NotOf(store, devices) && NotOf(store, devices.pool) && NotOf(store, levels) && NotOf(store, levels.pool)
    ensures devices as object != levels && devices.pool as object != levels.pool
    ensures record.Valid() && fresh(record) && fresh(record.mem)
    ensures TablesAre(record.mem[..], TableBytes(keyListAt, [0], devListAt, [0], lvlListAt, [0]))
  {
    record := new PibRecord(keyListAt, devListAt, lvlListAt);
    store, devices, levels := NewTables();
  }

  /** `o` is no part of a store. */
  ghost predicate NotOf(store: Store, o: object) {
    && o != store.keys && o != store.lookups && o != store.keyDevs && o != store.usages
    && o != store.keys.pool && o != store.lookups.pool && o != store.keyDevs.pool && o != store.usages.pool
  }

  class Pib {
    const store: Store
    const devices: SecTable<DeviceDesc>
    const levels: SecTable<SecLevelDesc>
    const record: PibRecord
    const keyListAt: ListPointer
    const devListAt: ListPointer
    const lvlListAt: ListPointer

    /** The three list headers lie at fixed addresses, which the record points to. */
    constructor (keyListAt: ListPointer, devListAt: ListPointer, lvlListAt: ListPointer)
      ensures Valid() && store.keys.st.spine == [] && devices.st.spine == [] && levels.st.spine == []
      ensures store.keys.st.mark == seq(MAC_KEY_TABLE_MAX_LEN, i => Vacant) && store.Subs() == EmptySubs()
      ensures devices.st.mark == seq(MAC_DEV_TABLE_MAX_LEN, i => Vacant) && levels.st.mark == seq(MAC_SEC_LVL_TABLE_MAX_LEN, i => Vacant)
      ensures fresh(store.keys) && fresh(store.keys.pool) && fresh(store.lookups) && fresh(store.lookups.pool)
      ensures fresh(store.keyDevs) && fresh(store.keyDevs.pool) && fresh(store.usages) && fresh(store.usages.pool)
      ensures fresh(devices) && fresh(devices.pool) && fresh(levels) && fresh(levels.pool)
      ensures fresh(record) && fresh(record.mem)
    {
      this.keyListAt, this.devListAt, this.lvlListAt := keyListAt, devListAt, lvlListAt;
      var s, d, l, r := NewParts(keyListAt, devListAt, lvlListAt);
      store, devices, levels, record := s, d, l, r;
      new;
      AllEmpty();
    }

    ghost function StoreObjects(): set<object> {
      {store.keys, store.keys.pool, store.lookups, store.lookups.pool, store.keyDevs, store.keyDevs.pool, store.usages, store.usages.pool}
    }

    /** The lists, pools and record, sharing no memory; their entry counts aside. */
    ghost predicate Body()
      reads StoreObjects(), devices, devices.pool, levels, levels.pool, record
    {
      && NotOf(store, devices.pool) && NotOf(store, levels.pool) && NotOf(store, devices) && NotOf(store, levels)
      && devices.pool as object != levels.pool && devices as object != levels
      && store.Shape() && devices.Shape() && levels.Shape() && record.Valid()
      && |devices.st.mark| == MAC_DEV_TABLE_MAX_LEN && |levels.st.mark| == MAC_SEC_LVL_TABLE_MAX_LEN
      && store.keys.st.entries < 256 && devices.st.entries < 256 && levels.st.entries < 256
    }

    /** What the record should hold of the tables: where their lists lie, and how many nodes they have. */
    ghost function Home(): TableBytes
      requires store.keys.st.entries < 256 && devices.st.entries < 256 && levels.st.entries < 256
      reads store.keys, devices, levels
    {
      TableBytes(keyListAt, [store.keys.st.entries], devListAt, [devices.st.entries], lvlListAt, [levels.st.entries])
    }

    /** The entry counts are bytes of the record, whatever was written there. */
    ghost predicate Sane()
      reads StoreObjects(), devices, devices.pool, levels, levels.pool, record, record.mem
    {
      && Body()
      && store.keys.entries == EntryCount(record.mem[..], KEY_TABLE)
      && devices.entries == EntryCount(record.mem[..], DEVICE_TABLE)
      && levels.entries == EntryCount(record.mem[..], SECURITY_LEVEL_TABLE)
    }

    /** The tables are in order: counts and pointers in the record are right. */
    ghost predicate Valid()
      reads StoreObjects(), devices, devices.pool, levels, levels.pool, record, record.mem
    {
      && Sane() && TablesAre(record.mem[..], Home())
      && store.keys.entries == store.keys.st.entries && devices.entries == devices.st.entries && levels.entries == levels.st.entries
    }

    lemma AllEmpty()
      requires Body() && store.keys.Valid() && devices.Valid() && levels.Valid()
      requires store.keys.st.spine == devices.st.spine == levels.st.spine == []
      requires TablesAre(record.mem[..], TableBytes(keyListAt, [0], devListAt, [0], lvlListAt, [0]))
      ensures Valid()
    {
      CountsAre(record.mem[..], TableBytes(keyListAt, [0], devListAt, [0], lvlListAt, [0]), 0, 0, 0);
      assert Home() == TableBytes(keyListAt, [0], devListAt, [0], lvlListAt, [0]);
    }

    lemma InOrderIsValid()
      requires Sane()
      ensures Valid() <==> InOrder(Now().live)
    {
      if TablesAre(record.mem[..], Home()) {
        CountsAre(record.mem[..], Home(), store.keys.st.entries, devices.st.entries, levels.st.entries);
      }
    }

    /** What a caller of set owes: a node it holds, or a proper scalar request. */
    ghost predicate CanSet(attr: byte, node: int, value: seq<byte>, index: byte)
      reads store.keys, devices, levels
    {
      && (attr == KEY_TABLE ==> store.keys.Holds(node))
      && (attr == DEVICE_TABLE ==> devices.Holds(node))
      && (attr == SECURITY_LEVEL_TABLE ==> levels.Holds(node))
      && (!TableAttr(attr) ==> Proper(SetReq(attr, value, index)))
    }

    ghost function Now(): View
      requires Body()
      reads StoreObjects(), devices, devices.pool, levels, levels.pool, record, record.mem
    {
      View(store.State(), devices.st, levels.st, Live(record.mem[..], Home()))
    }

    // ------------------------------------------------------------ one part at a time

    /** The count in the record follows the table's: they are one byte of memory in the program. */
    method FollowCount(attr: byte, n: byte, ghost live: Live)
      requires Body() && store.Valid() && devices.Valid() && levels.Valid()
      requires TableAttr(attr) && InOrder(live) && record.mem[..] == live.mem && Home() == WithTableCount(live.tables, attr, n)
      modifies record.mem
      ensures Valid() && Now().live == Live(WithCount(live.mem, attr, n), WithTableCount(live.tables, attr, n))
    {
      CountTables(live.mem, live.tables, attr, n);
      record.SetCount(attr, n);
      CountsAre(record.mem[..], Home(), store.keys.st.entries, devices.st.entries, levels.st.entries);
    }

    /** The counts in the record are the lengths of the tables. */
    lemma LiveCounts()
      requires Valid()
      ensures EntryCount(record.mem[..], KEY_TABLE) == |store.keys.st.spine|
      ensures EntryCount(record.mem[..], DEVICE_TABLE) == |devices.st.spine|
      ensures EntryCount(record.mem[..], SECURITY_LEVEL_TABLE) == |levels.st.spine|
    {
      CountsAre(record.mem[..], Home(), store.keys.st.entries, devices.st.entries, levels.st.entries);
    }

    method SetKeys(index: byte, node: int) returns (ok: bool)
      requires Valid() && store.keys.Holds(node)
      modifies StoreObjects(), record.mem
      ensures Valid() && SetStep(old(Now()), Now(), KEY_TABLE, node, [], index, ok)
      ensures unchanged(record)
    {
      ghost var live := Now().live;
      LiveCounts();
      ok := store.SetKey(index, node);
      assert store.keys.entries == NewCount(EntryCount(live.mem, KEY_TABLE), SetTable(KEY_TABLE, index));
      FollowCount(KEY_TABLE, store.keys.entries, live);
    }

    method SetDevices(index: byte, node: int) returns (ok: bool)
      requires Valid() && devices.Holds(node)
      modifies devices, devices.pool, record.mem
      ensures Valid() && SetStep(old(Now()), Now(), DEVICE_TABLE, node, [], index, ok)
      ensures unchanged(record)
    {
      ghost var live := Now().live;
      LiveCounts();
      ok := SetAndFree(devices, index, node);
      assert devices.entries == NewCount(EntryCount(live.mem, DEVICE_TABLE), SetTable(DEVICE_TABLE, index));
      FollowCount(DEVICE_TABLE, devices.entries, live);
    }

    method SetLevels(index: byte, node: int) returns (ok: bool)
      requires Valid() && levels.Holds(node)
      modifies levels, levels.pool, record.mem
      ensures Valid() && SetStep(old(Now()), Now(), SECURITY_LEVEL_TABLE, node, [], index, ok)
      ensures unchanged(record)
    {
      ghost var live := Now().live;
      LiveCounts();
      ok := SetAndFree(levels, index, node);
      assert levels.entries == NewCount(EntryCount(live.mem, SECURITY_LEVEL_TABLE), SetTable(SECURITY_LEVEL_TABLE, index));
      FollowCount(SECURITY_LEVEL_TABLE, levels.entries, live);
    }

    /** A scalar set: whatever it leaves in the record is from then on a table's count. */
    method SetBytes(q: SetReq) returns (ok: bool)
      requires Sane() && ProperRequest(Scalar(q))
      modifies record, record.mem, store.keys`entries, devices`entries, levels`entries
      ensures Sane() && ok == Accepted(q) && Now() == old(Now()).(live := Effect(old(Now()).live, Scalar(q)))
      ensures WrittenRight(old(record.mem[..]), record.mem[..], q.attr, q.value, q.len, ok)
      ensures record.radioTxPower == if q.attr != 0x5F then old(record.radioTxPower) else if q.value[0] > 11 then 11 else q.value[0]
    {
      ok := record.SetScalar(q);
      Recount();
    }

    method Recount()
      requires Body()
      modifies store.keys`entries, devices`entries, levels`entries
      ensures Sane() && Now() == old(Now())
    {
      var keyCount := record.Count(KEY_TABLE);
      var devCount := record.Count(DEVICE_TABLE);
      var lvlCount := record.Count(SECURITY_LEVEL_TABLE);
      store.keys.entries, devices.entries, levels.entries := keyCount, devCount, lvlCount;
    }

    // ------------------------------------------------------------ the services

    /**
     * MLME-SET: tl_zbMacAttrSet. Scalar requests are taken in any state, table requests while the tables
     * are in order; that is what the record then says of them.
     */
    method AttrSet(attr: byte, node: int, value: seq<byte>, index: byte) returns (ok: bool)
      requires Sane() && (TableAttr(attr) ==> Valid()) && CanSet(attr, node, value, index)
      modifies StoreObjects(), devices, devices.pool, levels, levels.pool, record, record.mem
      ensures Sane() && SetStep(old(Now()), Now(), attr, node, value, index, ok)
      ensures Valid() <==> InOrder(Now().live)
      ensures !TableAttr(attr) ==> WrittenRight(old(record.mem[..]), record.mem[..], attr, value, index, ok)
      ensures record.radioTxPower == if attr != 0x5F then old(record.radioTxPower) else if value[0] > 11 then 11 else value[0]
    {
      InOrderIsValid();
      if TableAttr(attr) {
        ok := SetNode(attr, node, index);
      } else {
        ok := SetBytes(SetReq(attr, value, index));
      }
      InOrderIsValid();
    }

    /** The requests about tables. */
    method SetNode(attr: byte, node: int, index: byte) returns (ok: bool)
      requires Valid() && TableAttr(attr) && CanSet(attr, node, [], index)
      modifies StoreObjects(), devices, devices.pool, levels, levels.pool, record.mem
      ensures Valid() && SetStep(old(Now()), Now(), attr, node, [], index, ok)
      ensures unchanged(record)
    {
      if attr == KEY_TABLE {
        ok := SetKeys(index, node);
      } else if attr == DEVICE_TABLE {
        ok := SetDevices(index, node);
      } else {
        ok := SetLevels(index, node);
      }
    }

    /** MLME-GET: tl_zbMacAttrGet; a table get returns the node, a scalar get the bytes and their reported length. */
    method AttrGet(attr: byte, index: byte) returns (ok: bool, node: int, value: seq<byte>, len: byte)
      requires Sane() && (TableAttr(attr) ==> Valid()) && (InRange(attr) && !TableAttr(attr) ==> GetRow(attr) < ROWS)
      ensures attr == KEY_TABLE ==> ok == (index < |store.keys.st.spine|) && (ok ==> node == store.keys.st.spine[index])
      ensures attr == DEVICE_TABLE ==> ok == (index < |devices.st.spine|) && (ok ==> node == devices.st.spine[index])
      ensures attr == SECURITY_LEVEL_TABLE ==> ok == (index < |levels.st.spine|) && (ok ==> node == levels.st.spine[index])
      ensures InRange(attr) && !TableAttr(attr) ==>
                ok && value == RowBytes(record.mem[..], GetRow(attr)) && len == ReportedLen(record.mem[..], attr)
      ensures Valid() && attr == KEY_COUNT_ALIAS ==> value == [|store.keys.st.spine|]
      ensures Valid() && attr == DEVICE_COUNT_ALIAS ==> value == [|devices.st.spine|]
      ensures Valid() && attr == LEVEL_COUNT_ALIAS ==> value == [|levels.st.spine|]
      ensures attr == 0x00 ==> ok && value == [record.mem[70]] && len == 1
      ensures 0x40 <= attr < 0x71 ==>
                var row := attr - 0x40;
                && |value| == PibTable(row).len && (forall k :: 0 <= k < |value| ==> value[k] == record.mem[Start(row) + k])
                && len == if attr == 0x45 && record.mem[51] <= PibTable(row).len then record.mem[51] else PibTable(row).len
      ensures !InRange(attr) && attr != PHY_CURRENT_CHANNEL ==> !ok
    {
      if TablesAre(record.mem[..], Home()) {
        CountsAre(record.mem[..], Home(), store.keys.st.entries, devices.st.entries, levels.st.entries);
      }
      ok, node, value, len := false, NULL, [], 0;
      if attr == KEY_TABLE {
        ok, node := store.keys.GetEntry(index);
      } else if attr == DEVICE_TABLE {
        ok, node := devices.GetEntry(index);
      } else if attr == SECURITY_LEVEL_TABLE {
        ok, node := levels.GetEntry(index);
      } else {
        ok, value, len := record.GetScalar(attr);
      }
    }

    /** tl_zbMacSecAttrDel. */
    method SecAttrDel(attr: byte, index: byte) returns (ok: bool)
      requires Sane() && (TableAttr(attr) ==> Valid())
      modifies StoreObjects(), devices, devices.pool, levels, levels.pool, record.mem
      ensures Sane() && (TableAttr(attr) ==> Valid()) && DelStep(old(Now()), Now(), attr, index, ok)
    {
      if attr == KEY_TABLE {
        ok := DelKeys(index);
      } else if attr == DEVICE_TABLE {
        ok := DelDevices(index);
      } else if attr == SECURITY_LEVEL_TABLE {
        ok := DelLevels(index);
      } else {
        ok := false;
      }
    }

    method DelKeys(index: byte) returns (ok: bool)
      requires Valid()
      modifies StoreObjects(), record.mem
      ensures Valid() && DelStep(old(Now()), Now(), KEY_TABLE, index, ok)
    {
      ghost var live := Now().live;
      LiveCounts();
      ok := store.DelKey(index);
      assert store.keys.entries == NewCount(EntryCount(live.mem, KEY_TABLE), DelTable(KEY_TABLE, index));
      FollowCount(KEY_TABLE, store.keys.entries, live);
    }

    method DelDevices(index: byte) returns (ok: bool)
      requires Valid()
      modifies devices, devices.pool, record.mem
      ensures Valid() && DelStep(old(Now()), Now(), DEVICE_TABLE, index, ok)
    {
      ghost var live := Now().live;
      LiveCounts();
      ok := DelAndFree(devices, index);
      assert devices.entries == NewCount(EntryCount(live.mem, DEVICE_TABLE), DelTable(DEVICE_TABLE, index));
      FollowCount(DEVICE_TABLE, devices.entries, live);
    }

    method DelLevels(index: byte) returns (ok: bool)
      requires Valid()
      modifies levels, levels.pool, record.mem
      ensures Valid() && DelStep(old(Now()), Now(), SECURITY_LEVEL_TABLE, index, ok)
    {
      ghost var live := Now().live;
      LiveCounts();
      ok := DelAndFree(levels, index);
      assert levels.entries == NewCount(EntryCount(live.mem, SECURITY_LEVEL_TABLE), DelTable(SECURITY_LEVEL_TABLE, index));
      FollowCount(SECURITY_LEVEL_TABLE, levels.entries, live);
    }

    /** Whatever sequence of services led here, every slot of the two node-only pools is accounted for. */
    lemma Conserved()
      requires Body()
      ensures |SlotsOf(devices.st.mark, Vacant)| + |SlotsOf(devices.st.mark, Held)| + |devices.st.spine| == MAC_DEV_TABLE_MAX_LEN
      ensures |SlotsOf(levels.st.mark, Vacant)| + |SlotsOf(levels.st.mark, Held)| + |levels.st.spine| == MAC_SEC_LVL_TABLE_MAX_LEN
    {
      TableConserved(devices.st);
      TableConserved(levels.st);
    }
  }
}
