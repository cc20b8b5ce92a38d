/** The coordinator application: association indications fill the security tables, and data goes out device by device. */
module Coordinator {
  import opened Bits
  import opened Options
  import opened TnMem
  import opened SecTables
  import opened KeyStore
  import opened MacPib
  import opened Association

  /** A key descriptor as the coordinator builds it: the nodes given to its three sublists and the key. */
  datatype KeyEntry = KeyEntry(lookups: seq<int>, keyDev: int, usages: seq<int>, key: seq<byte>)

  /** The nodes that coor_config takes once, for all keys. */
  const LOOKUP_NODES: seq<int> := [0]
  const USAGE_NODES: seq<int> := [0, 1]

  function CoordinatorKey(keyDev: int): KeyEntry {
    KeyEntry(LOOKUP_NODES, keyDev, USAGE_NODES, TEST_KEY)
  }

  /** The answer to an association request. */
  datatype Response = Response(devAddress: seq<byte>, shortAddress: nat, success: bool)

  /** Security fields and addressing of an indirect data frame. */
  datatype Data = Data(dst: nat, dstPanId: nat, acknowledged: bool, indirect: bool, securityLevel: byte, keyIdMode: byte,
                       keySource: seq<byte>, keyIndex: byte, payload: seq<byte>)

  const SECURITY_LEVEL_ENC_MIC_64: byte := 6
  const KEY_ID_MODE_KEY_EXPLICIT_8: byte := 3
  const DEFAULT_KEY_SOURCE: seq<byte> := [0, 1, 2, 3, 4, 5, 6, 7]
  const DEFAULT_KEY_INDEX: byte := 0xA5
  const SEND_PERIOD_MS: nat := 5000

  type u32 = x: int | 0 <= x < 0x1_0000_0000

  /** The test counter as it lies in memory, least significant byte first. */
  function CounterBytes(n: u32): (s: seq<byte>)
    ensures |s| == 4 && s[0] as int + 0x100 * s[1] as int + 0x1_0000 * s[2] as int + 0x100_0000 * s[3] as int == n
  {
    [n % 0x100, n / 0x100 % 0x100, n / 0x1_0000 % 0x100, n / 0x100_0000]
  }

  datatype Stored = Stored(dev: Table, devDesc: seq<DeviceDesc>, key: Table, keyDesc: seq<KeyEntry>, count: seq<bool>, keyDevDesc: seq<KeyDevDesc>)

  const TEST_KEY: seq<byte> := [0x00, 0x11, 0x22, 0x33, 0x44, 0x55, 0x66, 0x77, 0x88, 0x99, 0xAA, 0xBB, 0xCC, 0xDD, 0xEE, 0xFF]

  function Trues(count: seq<bool>): (n: nat)
    ensures n <= |count|
  {
    if count == [] then 0 else (if count[0] then 1 else 0) + Trues(count[1..])
  }

  lemma {:induction false} TruesUpdate(count: seq<bool>, i: nat)
    requires i < |count| && !count[i]
    ensures Trues(count[i := true]) == Trues(count) + 1
  {
    var t := count[i := true];
    if i > 0 {
      TruesUpdate(count[1..], i - 1);
      assert t[1..] == count[1..][i - 1 := true];
    } else {
      assert t[1..] == count[1..];
    }
  }

  lemma {:induction false} AllTrue(count: seq<bool>)
    requires forall i :: 0 <= i < |count| ==> count[i]
    ensures Trues(count) == |count|
  {
    if count != [] {
      AllTrue(count[1..]);
    }
  }

  /** The device table as the association state sees it. */
  function DevicesOf(spine: seq<int>, desc: seq<DeviceDesc>): (d: seq<Device>)
    requires forall i :: 0 <= i < |spine| ==> 0 <= spine[i] < |desc|
    ensures |d| == |spine|
    ensures forall i :: 0 <= i < |d| ==> d[i] == Device(desc[spine[i]].extAddr, desc[spine[i]].shortAddr)
  {
    seq(|spine|, i requires 0 <= i < |spine| => Device(desc[spine[i]].extAddr, desc[spine[i]].shortAddr))
  }

  /** A table all of whose nodes are vacant or listed: its length says whether an allocation succeeds. */
  ghost predicate NothingHeld(t: Table) {
    forall n :: 0 <= n < |t.mark| ==> t.mark[n] != Held
  }

  lemma VacancyExists(t: Table)
    requires Consistent(t) && NothingHeld(t) && |t.spine| < |t.mark|
    ensures SlotsOf(t.mark, Vacant) != {}
  {
    TableConserved(t);
    assert SlotsOf(t.mark, Held) == {};
  }

  /**
   * Allocate a node, fill it in, and set it at the end of its table. With nothing held elsewhere
   * a table that is not full always has a node left, so the halt on allocation failure is never reached.
   */
  method AppendNew<T(0)>(table: SecTable<T>, index: byte, d: T) returns (node: int)
    requires table.Valid() && NothingHeld(table.st) && index == |table.st.spine| < |table.st.mark|
    modifies table, table.pool
    ensures table.Valid() && NothingHeld(table.st) && |table.st.mark| == |old(table.st.mark)|
    ensures table.st.spine == old(table.st.spine) + [node]
    ensures 0 <= node < |table.pool.desc| && node !in old(table.st.spine)
    ensures table.pool.desc == old(table.pool.desc)[node := d]
  {
    VacancyExists(table.st);
    node := table.Alloc();
    assert node != NULL;
    RoomForOneMore(table.st, node);
    table.pool.desc := table.pool.desc[node := d];
    var ok, _ := table.SetEntry(index, node);
  }

  lemma DevicesAppend(spine: seq<int>, desc: seq<DeviceDesc>, node: int, d: DeviceDesc)
    requires forall i :: 0 <= i < |spine| ==> 0 <= spine[i] < |desc|
    requires 0 <= node < |desc| && node !in spine
    ensures DevicesOf(spine + [node], desc[node := d]) == DevicesOf(spine, desc) + [Device(d.extAddr, d.shortAddr)]
  {
    forall i | 0 <= i < |spine|
      ensures desc[node := d][spine[i]] == desc[spine[i]]
    {
      assert spine[i] in spine;
    }
  }

  /** Rewriting a descriptor with the same addresses does not change what the table says. */
  lemma DevicesReset(spine: seq<int>, desc: seq<DeviceDesc>, i: nat, d: DeviceDesc)
    requires forall k :: 0 <= k < |spine| ==> 0 <= spine[k] < |desc|
    requires i < |spine| && DevicesOf(spine, desc)[i] == Device(d.extAddr, d.shortAddr)
    ensures DevicesOf(spine, desc[spine[i] := d]) == DevicesOf(spine, desc)
  {
    var a, b := DevicesOf(spine, desc[spine[i] := d]), DevicesOf(spine, desc);
    forall k | 0 <= k < |spine|
      ensures a[k] == b[k]
    {
      if spine[k] == spine[i] {
        assert b[k] == b[i];
      }
    }
  }

  /** A key as the coordinator builds them, which authorises exactly `device`. */
  ghost predicate KeyFor(key: KeyEntry, device: int, count: seq<bool>, desc: seq<KeyDevDesc>) {
    key == CoordinatorKey(key.keyDev) && 0 <= key.keyDev < |count| && key.keyDev < |desc| && count[key.keyDev] && desc[key.keyDev] == KeyDevDesc(device, false, false)
  }

  /** Every key entry belongs to the device entry at its position. */
  ghost predicate Matched(keys: seq<int>, keyDesc: seq<KeyEntry>, devices: seq<int>, count: seq<bool>, kdDesc: seq<KeyDevDesc>) {
    && |keys| == |devices|
    && forall i :: 0 <= i < |keys| ==> KeyAt(keys, keyDesc, devices, count, kdDesc, i)
  }

  ghost predicate KeyAt(keys: seq<int>, keyDesc: seq<KeyEntry>, devices: seq<int>, count: seq<bool>, kdDesc: seq<KeyDevDesc>, i: nat) {
    i < |keys| == |devices| && 0 <= keys[i] < |keyDesc| && KeyFor(keyDesc[keys[i]], devices[i], count, kdDesc)
  }

  lemma MatchedAppend(keys: seq<int>, keyDesc: seq<KeyEntry>, devices: seq<int>, count: seq<bool>, kdDesc: seq<KeyDevDesc>,
                      key: int, e: KeyEntry, device: int, kd: KeyDevDesc)
    requires Matched(keys, keyDesc, devices, count, kdDesc) && |kdDesc| == |count|
    requires 0 <= key < |keyDesc| && key !in keys
    requires e == CoordinatorKey(e.keyDev) && 0 <= e.keyDev < |count| && !count[e.keyDev] && kd == KeyDevDesc(device, false, false)
    ensures Matched(keys + [key], keyDesc[key := e], devices + [device], count[e.keyDev := true], kdDesc[e.keyDev := kd])
  {
    var keys', desc', devices', count', kd' := keys + [key], keyDesc[key := e], devices + [device], count[e.keyDev := true], kdDesc[e.keyDev := kd];
    forall i | 0 <= i < |keys'|
      ensures KeyAt(keys', desc', devices', count', kd', i)
    {
      if i < |keys| {
        assert KeyAt(keys, keyDesc, devices, count, kdDesc, i);
        assert keys[i] in keys;
      }
    }
  }

  /** The device table and short address after key material was entered for `ext`, or refused. */
  ghost predicate Entered(ext: seq<byte>, ok: bool, before: seq<Device>, addr: nat, after: seq<Device>, addr': nat) {
    var i := Find(before, ext);
    && ok == (i < |before| || i < END_DEVICE_NUM)
    && addr' == (if i < |before| then before[i].short else if ok then addr / 16 * 16 + i else addr)
    && after == if i < |before| || !ok then before else before + [Device(ext, addr')]
  }

  /** However the key material comes out, writing the end-device record then gives `next`, with this answer. */
  ghost predicate Leads(net: Net, ext: seq<byte>, next: Net, answer: Option<nat>)
    requires |net.endDevices| == END_DEVICE_NUM
  {
    forall ok, devices, addr: nat :: Entered(ext, ok, net.devices, net.lastAddr, devices, addr) ==>
      && next == Net(devices, if ok then net.endDevices[addr % 16 := EndDevice(ext, addr, net.panId)] else net.endDevices, addr, net.sendIndex, net.panId)
      && answer == if ok then Some(addr) else None
  }

  /** Entering key material and then writing the end-device record is an association. */
  lemma AssociateLeads(net: Net, ext: seq<byte>)
    requires Agrees(net)
    ensures Agrees(Associate(net, ext)) && Leads(net, ext, Associate(net, ext), Answer(net, ext))
  {
    AssociateAgrees(net, ext);
  }

  lemma LeadsHere(net: Net, ext: seq<byte>, next: Net, answer: Option<nat>, ok: bool, devices: seq<Device>, addr: nat)
    requires |net.endDevices| == END_DEVICE_NUM && Leads(net, ext, next, answer)
    requires Entered(ext, ok, net.devices, net.lastAddr, devices, addr)
    ensures answer == if ok then Some(addr) else None
    ensures next == Net(devices, if ok then net.endDevices[addr % 16 := EndDevice(ext, addr, net.panId)] else net.endDevices, addr, net.sendIndex, net.panId)
  {
  }

  class App {
    const devTable: SecTable<DeviceDesc>
    const keyTable: SecTable<KeyEntry>
    const keyDevMem: Pool<KeyDevDesc>
    const endDevice: array<EndDevice>
    const panId: nat         // the application's own
    var pibPanId: nat        // macPANId in the PIB
    var deviceIndex: byte
    var indirectDeviceIndex: byte
    var deviceAddrShort: nat
    var deviceExtAddr: seq<byte>
    var testCnt: u32
    var sendDue: Option<nat>
    ghost var net: GoodNet

    constructor (panId: nat, pibPanId: nat)
      ensures Valid() && net == Fresh(pibPanId) && sendDue == None
      ensures fresh(devTable) && fresh(devTable.pool) && fresh(keyTable) && fresh(keyTable.pool) && fresh(keyDevMem) && fresh(endDevice)
    {
      devTable := new SecTable(MAC_DEV_TABLE_MAX_LEN, DeviceDesc(0, 0, 0, [], false));
      keyTable := new SecTable(MAC_KEY_TABLE_MAX_LEN, KeyEntry([], NULL, [], []));
      keyDevMem := new Pool(MAC_KEY_DEV_TABLE_MAX_LEN, KeyDevDesc(NULL, false, false));
      endDevice := new EndDevice[END_DEVICE_NUM](i => EndDevice(seq(8, j => 0), 0, 0));
      this.panId, this.pibPanId := panId, pibPanId;
      deviceIndex, indirectDeviceIndex := 0, 0;
      deviceAddrShort := FIRST_SHORT_ADDR;
      deviceExtAddr := seq(8, i => 0);
      testCnt, sendDue := 0xAA00_0001, None;
      new;
      NoneTrue(keyDevMem.count);
      assert endDevice[..] == Fresh(pibPanId).endDevices;
      FreshAgrees(pibPanId);
      net := Fresh(pibPanId);
    }

    static lemma {:induction false} NoneTrue(count: seq<bool>)
      requires forall i :: 0 <= i < |count| ==> !count[i]
      ensures Trues(count) == 0
    {
      if count != [] {
        NoneTrue(count[1..]);
      }
    }

    /** The tables and pools share no memory and have their configured sizes; callers hold no node between operations. */
    ghost predicate Components()
      reads devTable, devTable.pool, keyTable, keyTable.pool, keyDevMem
    {
      && devTable as object != keyTable && devTable.pool as object != keyTable.pool
      && keyDevMem as object != devTable.pool && keyDevMem as object != keyTable.pool
      && devTable.Valid() && keyTable.Valid() && keyDevMem.Valid()
      && |devTable.st.mark| == |keyTable.st.mark| == keyDevMem.Num() == END_DEVICE_NUM == endDevice.Length
      && NothingHeld(devTable.st) && NothingHeld(keyTable.st)
    }

    ghost predicate Parts()
      reads this`deviceIndex, devTable, devTable.pool, keyTable, keyTable.pool, keyDevMem
    {
      Components() && |devTable.st.spine| == |keyTable.st.spine| == deviceIndex == Trues(keyDevMem.count)
    }

    ghost function Devices(): seq<Device>
      requires Components()
      reads devTable, devTable.pool, keyTable, keyTable.pool, keyDevMem
    {
      DevicesOf(devTable.st.spine, devTable.pool.desc)
    }

    /** Everything stored in the tables and pools. */
    ghost function Memory(): Stored
      reads devTable, devTable.pool, keyTable, keyTable.pool, keyDevMem
    {
      Stored(devTable.st, devTable.pool.desc, keyTable.st, keyTable.pool.desc, keyDevMem.count, keyDevMem.desc)
    }

    /** Device index, device table and key table have one length, and key entry i belongs to device entry i. */
    ghost predicate KeysMatch()
      reads devTable, devTable.pool, keyTable, keyTable.pool, keyDevMem
    {
      Matched(keyTable.st.spine, keyTable.pool.desc, devTable.st.spine, keyDevMem.count, keyDevMem.desc)
    }

    /** The variables other than the tables hold the association state. */
    ghost predicate Variables()
      reads this, endDevice
    {
      && net.endDevices == endDevice[..] && net.panId == pibPanId
      && net.lastAddr == deviceAddrShort && net.sendIndex == indirectDeviceIndex
    }

    /** The memory holds the (agreeing) association state. */
    ghost predicate Valid()
      reads this, devTable, devTable.pool, keyTable, keyTable.pool, keyDevMem, endDevice
    {
      Parts() && KeysMatch() && Variables() && net.devices == Devices()
    }

    /** The search loop over the device table; the answer is the node, or NULL. */
    method FindDevice(ext: seq<byte>) returns (node: int)
      requires Parts()
      ensures var i := Find(Devices(), ext);
              node == if i < |Devices()| then devTable.st.spine[i] else NULL
    {
      ghost var devices := Devices();
      for index := 0 to MAC_DEV_TABLE_MAX_LEN
        invariant forall j :: 0 <= j < index && j < |devices| ==> devices[j].ext != ext
      {
        var ok, it := devTable.GetEntry(index);
        if ok {
          if devTable.pool.desc[it].extAddr == ext {
            assert devices[index].ext == ext;
            FindFirst(devices, ext, index);
            return it;
          }
        }
      }
      node := NULL;
    }

    /** Entry `i` describes `ext` afresh: frame counter zero, the application's PAN, the address just assigned, not exempt. */
    ghost predicate DescribedAt(i: nat, ext: seq<byte>)
      reads this`deviceAddrShort, devTable, devTable.pool
    {
      && i < |devTable.st.spine| && 0 <= devTable.st.spine[i] < |devTable.pool.desc|
      && devTable.pool.desc[devTable.st.spine[i]] == DeviceDesc(0, panId, deviceAddrShort, ext, false)
    }

    /** The device part of a new association. */
    method AddDevice(ext: seq<byte>) returns (node: int)
      requires Components() && |devTable.st.spine| == deviceIndex < END_DEVICE_NUM
      modifies devTable, devTable.pool
      ensures Components()
      ensures devTable.st.spine == old(devTable.st.spine) + [node]
      ensures DevicesOf(devTable.st.spine, devTable.pool.desc)
           == DevicesOf(old(devTable.st.spine), old(devTable.pool.desc)) + [Device(ext, deviceAddrShort)]
      ensures DescribedAt(deviceIndex, ext)
    {
      var d := DeviceDesc(0, panId, deviceAddrShort, ext, false);
      node := AppendNew(devTable, deviceIndex, d);
      DevicesAppend(old(devTable.st.spine), old(devTable.pool.desc), node, d);
    }

    /** The key-device node: one is left whenever the tables are not full. */
    method AddKeyDev(device: int) returns (kd: int)
      requires keyDevMem.Valid() && Trues(keyDevMem.count) < keyDevMem.Num()
      modifies keyDevMem
      ensures keyDevMem.Valid() && 0 <= kd < |old(keyDevMem.count)| && !old(keyDevMem.count)[kd]
      ensures keyDevMem.count == old(keyDevMem.count)[kd := true]
      ensures keyDevMem.desc == old(keyDevMem.desc)[kd := KeyDevDesc(device, false, false)]
      ensures Trues(keyDevMem.count) == Trues(old(keyDevMem.count)) + 1
    {
      ghost var count := keyDevMem.count;
      kd := keyDevMem.Alloc();
      if kd == NULL {
        AllTrue(count);
        assert false;
      }
      TruesUpdate(count, kd);
      keyDevMem.desc := keyDevMem.desc[kd := KeyDevDesc(device, false, false)];
    }

    /** A known device keeps its entry: the descriptor is rewritten in place with a zero frame counter. */
    method ResetDevice(node: int, ghost i: nat)
      requires Parts() && KeysMatch() && i < |devTable.st.spine| && devTable.st.spine[i] == node
      requires Devices()[i] == Device(deviceExtAddr, deviceAddrShort)
      modifies devTable.pool`desc
      ensures Parts() && KeysMatch() && Devices() == old(Devices()) && DescribedAt(i, deviceExtAddr)
    {
      var d := DeviceDesc(0, panId, deviceAddrShort, deviceExtAddr, false);
      DevicesReset(devTable.st.spine, devTable.pool.desc, i, d);
      devTable.pool.desc := devTable.pool.desc[node := d];
    }

    /** The device, key-device and key entries of a new device; none of the three allocations can fail. */
    method AddEntries()
      requires Parts() && KeysMatch() && deviceIndex < END_DEVICE_NUM
      modifies this`deviceIndex, devTable, devTable.pool, keyTable, keyTable.pool, keyDevMem
      ensures Parts() && KeysMatch()
      ensures Devices() == old(Devices()) + [Device(deviceExtAddr, deviceAddrShort)] && DescribedAt(old(deviceIndex), deviceExtAddr)
    {
      ghost var devs := devTable.st.spine;
      var device := AddDevice(deviceExtAddr);
      AddKey(device, devs);
      deviceIndex := deviceIndex + 1;
    }

    /** The key-device node and the key that refers to it. */
    method AddKey(device: int, ghost devs: seq<int>)
      requires Components() && |keyTable.st.spine| == deviceIndex == Trues(keyDevMem.count) && deviceIndex < END_DEVICE_NUM
      requires Matched(keyTable.st.spine, keyTable.pool.desc, devs, keyDevMem.count, keyDevMem.desc)
      modifies keyTable, keyTable.pool, keyDevMem
      ensures Components() && |keyTable.st.spine| == Trues(keyDevMem.count) == deviceIndex + 1
      ensures Matched(keyTable.st.spine, keyTable.pool.desc, devs + [device], keyDevMem.count, keyDevMem.desc)
    {
      ghost var keys, keyDesc, count, kdDesc := keyTable.st.spine, keyTable.pool.desc, keyDevMem.count, keyDevMem.desc;
      var kd := AddKeyDev(device);
      var key := AppendNew(keyTable, deviceIndex, CoordinatorKey(kd));
      MatchedAppend(keys, keyDesc, devs, count, kdDesc, key, CoordinatorKey(kd), device, KeyDevDesc(device, false, false));
    }

    /**
     * Find or make the device's entries. The short address variable is left holding the device's
     * address, and every table is left alone when all entries are taken by other devices.
     */
    method AddKeyMaterial() returns (ok: bool)
      requires Parts() && KeysMatch()
      modifies this`deviceIndex, this`deviceAddrShort, devTable, devTable.pool, keyTable, keyTable.pool, keyDevMem
      ensures Parts() && KeysMatch()
      ensures Entered(deviceExtAddr, ok, old(Devices()), old(deviceAddrShort), Devices(), deviceAddrShort)
      ensures !ok ==> Memory() == old(Memory())
      ensures ok ==> exists i: nat :: DescribedAt(i, deviceExtAddr)
    {
      var node := FindDevice(deviceExtAddr);
      ghost var i := Find(Devices(), deviceExtAddr);
      if node != NULL {
        deviceAddrShort := devTable.pool.desc[node].shortAddr;
        ResetDevice(node, i);
        ok := true;
      } else if deviceIndex >= END_DEVICE_NUM {
        ok := false;
      } else {
        deviceAddrShort := deviceAddrShort / 16 * 16 + deviceIndex;
        AddEntries();
        ok := true;
      }
    }

    /** An association indication: the response sent, or None when nothing is sent; with a response the send timer is restarted. */
    method AssociateInd(devAddress: seq<byte>) returns (response: Option<Response>)
      requires Valid()
      modifies this, endDevice, devTable, devTable.pool, keyTable, keyTable.pool, keyDevMem
      ensures Valid() && net == Associate(old(net), devAddress)
      ensures response == match Answer(old(net), devAddress) case None => None case Some(addr) => Some(Response(devAddress, addr, true))
      ensures sendDue == if response == None then old(sendDue) else Some(SEND_PERIOD_MS)
      ensures response == None ==> Memory() == old(Memory())
      ensures response.Some? ==> exists i: nat :: DescribedAt(i, deviceExtAddr)
      ensures deviceExtAddr == devAddress
    {
      AssociateLeads(net, devAddress);
      deviceExtAddr := devAddress;
      var address := Admit(devAddress, Associate(net, devAddress), Answer(net, devAddress));
      response := if address == None then None else Some(Response(devAddress, address.value, true));
    }

    method Admit(devAddress: seq<byte>, ghost next: GoodNet, ghost answer: Option<nat>) returns (response: Option<nat>)
      requires Valid() && deviceExtAddr == devAddress && Leads(net, devAddress, next, answer)
      modifies this`deviceIndex, this`deviceAddrShort, this`sendDue, this`net
      modifies endDevice, devTable, devTable.pool, keyTable, keyTable.pool, keyDevMem
      ensures Valid() && net == next && response == answer
      ensures sendDue == if response == None then old(sendDue) else Some(SEND_PERIOD_MS)
      ensures response == None ==> Memory() == old(Memory())
      ensures response.Some? ==> exists i: nat :: DescribedAt(i, deviceExtAddr)
    {
      var ok := Enter(devAddress, next, answer);
      if !ok {
        net := next;
        return None;
      }
      ghost var i: nat :| DescribedAt(i, deviceExtAddr);
      Record(devAddress, next);
      assert DescribedAt(i, deviceExtAddr);
      response := Some(deviceAddrShort);
    }

    /** The key material of an association that leads to `next`: all of it but the end-device record is then in place. */
    method Enter(devAddress: seq<byte>, ghost next: GoodNet, ghost answer: Option<nat>) returns (ok: bool)
      requires Valid() && deviceExtAddr == devAddress && Leads(net, devAddress, next, answer)
      modifies this`deviceIndex, this`deviceAddrShort, devTable, devTable.pool, keyTable, keyTable.pool, keyDevMem
      ensures Parts() && KeysMatch() && Awaits(devAddress, ok, next) && answer == if ok then Some(deviceAddrShort) else None
      ensures !ok ==> Memory() == old(Memory())
      ensures ok ==> exists i: nat :: DescribedAt(i, deviceExtAddr)
    {
      ok := AddKeyMaterial();
      LeadsHere(net, devAddress, next, answer, ok, Devices(), deviceAddrShort);
    }

    /** Everything but the end-device record of an accepted device is as `next` says. */
    ghost predicate Awaits(devAddress: seq<byte>, ok: bool, next: Net)
      requires Parts()
      reads this, devTable, devTable.pool, keyTable, keyTable.pool, keyDevMem
    {
      && next.devices == Devices() && next.panId == pibPanId
      && next.lastAddr == deviceAddrShort && next.sendIndex == indirectDeviceIndex
      && next.endDevices == if ok then net.endDevices[deviceAddrShort % 16 := EndDevice(devAddress, deviceAddrShort, pibPanId)] else net.endDevices
    }

    /** The end-device record of an accepted device, placed by the low nibble of its address, and the send timer. */
    method Record(devAddress: seq<byte>, ghost next: GoodNet)
      requires Parts() && KeysMatch() && Awaits(devAddress, true, next) && net.endDevices == endDevice[..]
      modifies endDevice, this`sendDue, this`net
      ensures Valid() && net == next && sendDue == Some(SEND_PERIOD_MS)
    {
      endDevice[deviceAddrShort % 16] := EndDevice(devAddress, deviceAddrShort, pibPanId);
      sendDue := Some(SEND_PERIOD_MS);
      net := next;
    }

    /** One indirect data frame, secured with the common key and carrying the test counter; and the step to the next device. */
    method SendDataIndirect() returns (frame: Data)
      requires Valid()
      modifies this`indirectDeviceIndex, this`testCnt, this`net
      ensures Valid() && net == Send(old(net))
      ensures frame == Data(SendTarget(old(net)), pibPanId, true, true, SECURITY_LEVEL_ENC_MIC_64, KEY_ID_MODE_KEY_EXPLICIT_8,
                            DEFAULT_KEY_SOURCE, DEFAULT_KEY_INDEX, CounterBytes(old(testCnt)))
      ensures testCnt == (old(testCnt) as int + 1) % 0x1_0000_0000
    {
      SendAgrees(net);
      var target := endDevice[indirectDeviceIndex].short;
      frame := Data(target, pibPanId, true, true, SECURITY_LEVEL_ENC_MIC_64, KEY_ID_MODE_KEY_EXPLICIT_8,
                    DEFAULT_KEY_SOURCE, DEFAULT_KEY_INDEX, CounterBytes(testCnt));
      testCnt := (testCnt as int + 1) % 0x1_0000_0000;
      indirectDeviceIndex := indirectDeviceIndex + 1;
      if indirectDeviceIndex >= deviceIndex {
        indirectDeviceIndex := 0;
      }
      net := Send(net);
    }

    static lemma FindFirst(devices: seq<Device>, ext: seq<byte>, i: nat)
      requires i < |devices| && devices[i].ext == ext && forall j :: 0 <= j < i ==> devices[j].ext != ext
      ensures Find(devices, ext) == i
    {
    }
  }
}
