/** The coordinator's association state as values: address assignment, agreement of tables, and indirect sending over whole runs. */
module Association {
  import opened Bits
  import opened Options

  const END_DEVICE_NUM: nat := 16
  const FIRST_SHORT_ADDR: nat := 0x3300

  datatype Device = Device(ext: seq<byte>, short: nat)
  datatype EndDevice = EndDevice(ext: seq<byte>, short: nat, panId: nat)

  /**
   * `devices` is the device table in order; its length is also the device index and the key table
   * length. `lastAddr` is the short address variable, `sendIndex` the indirect send index.
   */
  datatype Net = Net(devices: seq<Device>, endDevices: seq<EndDevice>, lastAddr: nat, sendIndex: nat, panId: nat)

  function Fresh(panId: nat): Net {
    Net([], seq(END_DEVICE_NUM, i => EndDevice(seq(8, j => 0), 0, 0)), FIRST_SHORT_ADDR, 0, panId)
  }

  /** First table position with this extended address, or the table length. */
  function Find(devices: seq<Device>, ext: seq<byte>): (i: nat)
    ensures i <= |devices|
    ensures i < |devices| ==> devices[i].ext == ext
    ensures forall j :: 0 <= j < i ==> devices[j].ext != ext
    decreases |devices|
  {
    if devices == [] then 0
    else if devices[0].ext == ext then 0
    else Find(devices[1..], ext) + 1
  }

  /** The address an association indication is answered with, or None when it is refused. */
  function Answer(net: Net, ext: seq<byte>): Option<nat> {
    var i := Find(net.devices, ext);
    if i < |net.devices| then Some(net.devices[i].short)
    else if i >= END_DEVICE_NUM then None
    else Some(net.lastAddr / 16 * 16 + i)
  }

  function Associate(net: Net, ext: seq<byte>): Net
    requires |net.endDevices| == END_DEVICE_NUM
  {
    match Answer(net, ext)
    case None => net
    case Some(addr) =>
      net.(devices := if Find(net.devices, ext) < |net.devices| then net.devices else net.devices + [Device(ext, addr)],
           endDevices := net.endDevices[addr % 16 := EndDevice(ext, addr, net.panId)],
           lastAddr := addr)
  }

  /** Short address the next indirect data frame goes to. */
  function SendTarget(net: Net): nat
    requires net.sendIndex < |net.endDevices|
  {
    net.endDevices[net.sendIndex].short
  }

  function Send(net: Net): Net {
    net.(sendIndex := if net.sendIndex + 1 >= |net.devices| then 0 else net.sendIndex + 1)
  }

  // ---------------------------------------------------------------- the invariant

  /** Entry `i` has the i-th address of the range and agrees with the end-device array. */
  ghost predicate EntryOk(net: Net, i: nat)
    requires i < |net.devices| <= |net.endDevices|
  {
    && net.devices[i].short == FIRST_SHORT_ADDR + i
    && net.endDevices[i].ext == net.devices[i].ext
    && net.endDevices[i].short == net.devices[i].short
    && net.endDevices[i].panId == net.panId
  }

  ghost predicate Agrees(net: Net) {
    && |net.endDevices| == END_DEVICE_NUM && |net.devices| <= END_DEVICE_NUM
    && net.lastAddr / 16 * 16 == FIRST_SHORT_ADDR
    && (net.sendIndex == 0 || net.sendIndex < |net.devices|)
    && (forall i :: 0 <= i < |net.devices| ==> EntryOk(net, i))
    && AllDiffer(net.devices)
  }

  /** No two entries have the same extended address. */
  ghost predicate AllDiffer(devices: seq<Device>) {
    forall i, j :: 0 <= i < j < |devices| ==> Differ(devices, i, j)
  }

  ghost predicate Differ(devices: seq<Device>, i: nat, j: nat)
    requires i < |devices| && j < |devices|
  {
    devices[i].ext != devices[j].ext
  }

  type GoodNet = net: Net | Agrees(net) ghost witness Fresh(0)

  datatype Event = Assoc(ext: seq<byte>) | Transmit

  function Step(net: Net, e: Event): Net
    requires |net.endDevices| == END_DEVICE_NUM
  {
    match e case Assoc(ext) => Associate(net, ext) case Transmit => Send(net)
  }

  lemma AssociateAgrees(net: Net, ext: seq<byte>)
    requires Agrees(net)
    ensures Agrees(Associate(net, ext))
    ensures net.devices <= Associate(net, ext).devices
    ensures Answer(net, ext) == None <==> |net.devices| == END_DEVICE_NUM && forall j :: 0 <= j < |net.devices| ==> net.devices[j].ext != ext
    ensures Answer(net, ext).Some? ==>
              var i := Find(Associate(net, ext).devices, ext);
              i < |Associate(net, ext).devices| && Answer(net, ext).value == FIRST_SHORT_ADDR + i
  {
    var i, r := Find(net.devices, ext), Associate(net, ext);
    if i < |net.devices| {
      assert EntryOk(net, i);
    }
    match Answer(net, ext)
    case None =>
    case Some(addr) =>
      assert addr == FIRST_SHORT_ADDR + i;
      forall j | 0 <= j < |r.devices|
        ensures EntryOk(r, j)
      {
        if j < |net.devices| {
          assert EntryOk(net, j);
        }
      }
      forall j, k | 0 <= j < k < |r.devices|
        ensures Differ(r.devices, j, k)
      {
        assert k < |net.devices| ==> Differ(net.devices, j, k);
      }
      FindUnique(r.devices, ext, i);
  }

  lemma SendAgrees(net: Net)
    requires Agrees(net)
    ensures Agrees(Send(net))
  {
    forall i | 0 <= i < |net.devices|
      ensures EntryOk(Send(net), i)
    {
      assert EntryOk(net, i);
    }
  }

  /** With distinct addresses a position holding `ext` is the position found. */
  lemma {:induction false} FindUnique(devices: seq<Device>, ext: seq<byte>, i: nat)
    requires i < |devices| && devices[i].ext == ext
    requires AllDiffer(devices)
    ensures Find(devices, ext) == i
  {
    var f := Find(devices, ext);
    assert f < i ==> Differ(devices, f, i);
  }

  function Run(net: Net, es: seq<Event>): (r: Net)
    requires |net.endDevices| == END_DEVICE_NUM
    ensures |r.endDevices| == END_DEVICE_NUM
    decreases |es|
  {
    if es == [] then net else Run(Step(net, es[0]), es[1..])
  }

  /** Agreement of all tables in every reachable state; the device table only grows at its end. */
  lemma {:induction false} RunAgrees(net: Net, es: seq<Event>)
    requires Agrees(net)
    ensures Agrees(Run(net, es)) && net.devices <= Run(net, es).devices
    decreases |es|
  {
    if es != [] {
      match es[0] {
        case Assoc(ext) => AssociateAgrees(net, ext);
        case Transmit => SendAgrees(net);
      }
      RunAgrees(Step(net, es[0]), es[1..]);
    }
  }

  // ---------------------------------------------------------------- stable, injective addressing

  /** The answer to the association event at position `p` of a run. */
  function AnswerAt(net: Net, es: seq<Event>, p: nat): Option<nat>
    requires |net.endDevices| == END_DEVICE_NUM && p < |es| && es[p].Assoc?
  {
    Answer(Run(net, es[..p]), es[p].ext)
  }

  lemma {:induction false} RunSplit(net: Net, es: seq<Event>, p: nat)
    requires |net.endDevices| == END_DEVICE_NUM && p <= |es|
    ensures Run(net, es) == Run(Run(net, es[..p]), es[p..])
    decreases |es|
  {
    if p > 0 {
      assert es[1..][..p - 1] == es[..p][1..] && es[1..][p - 1..] == es[p..];
      RunSplit(Step(net, es[0]), es[1..], p - 1);
    } else {
      assert es[0..] == es;
    }
  }

  /** An accepted device's answer names its position in the final device table. */
  lemma AnswerIsFinalPosition(net: Net, es: seq<Event>, p: nat)
    requires Agrees(net) && p < |es| && es[p].Assoc? && AnswerAt(net, es, p).Some?
    ensures var i := Find(Run(net, es).devices, es[p].ext);
            i < |Run(net, es).devices| && AnswerAt(net, es, p).value == FIRST_SHORT_ADDR + i
  {
    var before, ext := Run(net, es[..p]), es[p].ext;
    RunAgrees(net, es[..p]);
    RunSplit(net, es, p);
    AssociateAgrees(before, ext);
    var after := Associate(before, ext);
    assert es[p..][0] == es[p];
    RunAgrees(after, es[p..][1..]);
    RunAgrees(net, es);
    FindUnique(Run(net, es).devices, ext, Find(after.devices, ext));
  }

  /** In any run from a fresh start, two accepted associations get the same address exactly when they are the same device. */
  lemma SameAddressIffSameDevice(panId: nat, es: seq<Event>, p: nat, q: nat)
    requires p < |es| && q < |es| && es[p].Assoc? && es[q].Assoc?
    requires AnswerAt(Fresh(panId), es, p).Some? && AnswerAt(Fresh(panId), es, q).Some?
    ensures AnswerAt(Fresh(panId), es, p) == AnswerAt(Fresh(panId), es, q) <==> es[p].ext == es[q].ext
    ensures FIRST_SHORT_ADDR <= AnswerAt(Fresh(panId), es, p).value < FIRST_SHORT_ADDR + END_DEVICE_NUM
  {
    FreshAgrees(panId);
    AnswerIsFinalPosition(Fresh(panId), es, p);
    AnswerIsFinalPosition(Fresh(panId), es, q);
    RunAgrees(Fresh(panId), es);
  }

  lemma FreshAgrees(panId: nat)
    ensures Agrees(Fresh(panId))
  {
  }

  // ---------------------------------------------------------------- bounded waiting of the indirect sender

  /** How many sends can pass before device `j` is addressed. */
  function Distance(sendIndex: nat, j: nat): int {
    if sendIndex <= j then j - sendIndex else END_DEVICE_NUM - sendIndex + j
  }

  /** One of the sends in `es` goes to short address `addr`. */
  ghost predicate Addressed(net: Net, es: seq<Event>, addr: nat)
    requires |net.endDevices| == END_DEVICE_NUM
    decreases |es|
  {
    es != [] && ((es[0].Transmit? && net.sendIndex < END_DEVICE_NUM && SendTarget(net) == addr) || Addressed(Step(net, es[0]), es[1..], addr))
  }

  function Sends(es: seq<Event>): nat {
    if es == [] then 0 else (if es[0].Transmit? then 1 else 0) + Sends(es[1..])
  }

  /** Whatever associations come in between, device `j` waits for at most `Distance` sends. */
  lemma {:induction false} AddressedInTime(net: Net, es: seq<Event>, j: nat)
    requires Agrees(net) && j < |net.devices| && Sends(es) > Distance(net.sendIndex, j)
    ensures Addressed(net, es, net.devices[j].short)
    decreases |es|
  {
    match es[0]
    case Assoc(ext) =>
      AssociateAgrees(net, ext);
      AddressedInTime(Associate(net, ext), es[1..], j);
    case Transmit =>
      assert EntryOk(net, j);
      if net.sendIndex != j {
        SendAgrees(net);
        AddressedInTime(Send(net), es[1..], j);
      }
  }

  /** Every associated device is addressed within any END_DEVICE_NUM sends, whatever associations come in between, at its own short address. */
  lemma EveryDeviceServed(panId: nat, past: seq<Event>, es: seq<Event>, j: nat)
    requires j < |Run(Fresh(panId), past).devices| && Sends(es) >= END_DEVICE_NUM
    ensures Addressed(Run(Fresh(panId), past), es, Run(Fresh(panId), past).devices[j].short)
  {
    FreshAgrees(panId);
    RunAgrees(Fresh(panId), past);
    AddressedInTime(Run(Fresh(panId), past), es, j);
  }

  /** `k` sends in a row. */
  function SendMany(net: Net, k: nat): Net {
    if k == 0 then net else Send(SendMany(net, k - 1))
  }

  /** With n devices and no association in between, the sender steps through them cyclically. */
  lemma {:induction false} RoundRobin(net: Net, k: nat)
    requires Agrees(net) && 0 < |net.devices| && k <= |net.devices|
    ensures var n, s := |net.devices|, net.sendIndex;
            SendMany(net, k) == net.(sendIndex := if s + k < n then s + k else s + k - n)
  {
    if k > 0 {
      RoundRobin(net, k - 1);
    }
  }

  /** Any n consecutive sends address each of the n devices exactly once, each at its own short address. */
  lemma EachExactlyOnce(net: Net, j: nat) returns (k: nat)
    requires Agrees(net) && j < |net.devices|
    ensures k < |net.devices| && SendMany(net, k) == net.(sendIndex := j)
    ensures SendTarget(net.(sendIndex := j)) == net.devices[j].short
    ensures forall l :: 0 <= l < |net.devices| && l != k ==> SendMany(net, l).sendIndex != j
  {
    var n, s := |net.devices|, net.sendIndex;
    k := if s <= j then j - s else n - s + j;
    RoundRobin(net, k);
    assert EntryOk(net, j);
    forall l | 0 <= l < n && l != k
      ensures SendMany(net, l).sendIndex != j
    {
      RoundRobin(net, l);
    }
  }
}
