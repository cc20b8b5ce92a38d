/** The end device: beacons heard in a scan are collected in a bounded table, and association goes to the strongest. */
module DevScan {
  import opened Bits
  import opened Options

  const MAX_ED_SCAN_RESULTS_SUPPORTED: nat := 16
  const ADDR_64BIT_DEV: byte := 3
  const ADDR_16BIT_DEV: byte := 2

  type ExtBytes = s: seq<byte> | |s| == 8 witness [0, 0, 0, 0, 0, 0, 0, 0]

  /** An address as the stack passes it: a mode and eight bytes, the short address being the first two. */
  datatype Addr = Addr(mode: byte, bytes: ExtBytes)

  datatype Beacon = Beacon(associatePermit: bool, panId: nat, addr: Addr, lqi: byte, channel: byte, gtsPermit: bool)

  datatype Pan = Pan(panId: nat, lqi: byte, channel: byte, addr: Addr, permitJoin: bool)

  /** Association request, with the coordinator's address of the kind its mode says. */
  datatype Request = Request(channel: byte, panId: nat, mode: byte, address: seq<byte>)

  datatype Event = ScanStart | Heard(beacon: Beacon)

  function PanOf(b: Beacon): Pan {
    Pan(b.panId, b.lqi, b.channel, b.addr, b.gtsPermit)
  }

  // ---------------------------------------------------------------- what a run of events leaves in the table

  /** The beacons that permitted association since the last scan start, oldest first. */
  function Permitted(events: seq<Event>): seq<Beacon> {
    if events == [] then [] else
      var past := events[..|events| - 1];
      match events[|events| - 1]
      case ScanStart => []
      case Heard(b) => if b.associatePermit then Permitted(past) + [b] else Permitted(past)
  }

  /** Beacon `b` permits association and was heard at some point after which no scan was started. */
  ghost predicate HeardInScan(events: seq<Event>, b: Beacon) {
    exists k :: 0 <= k < |events| && HeardAt(events, b, k)
  }

  ghost predicate HeardAt(events: seq<Event>, b: Beacon, k: nat)
    requires k < |events|
  {
    events[k] == Heard(b) && b.associatePermit && forall j :: k < j < |events| ==> events[j] != ScanStart
  }

  /** `Permitted` collects exactly the beacons heard in the current scan. */
  lemma {:induction false} PermittedMembers(events: seq<Event>, b: Beacon)
    ensures b in Permitted(events) <==> HeardInScan(events, b)
  {
    if events != [] {
      var n := |events| - 1;
      var past := events[..n];
      PermittedMembers(past, b);
      if HeardInScan(events, b) {
        var k :| 0 <= k < |events| && HeardAt(events, b, k);
        if k < n {
          assert HeardAt(past, b, k);
        }
      }
      if b in Permitted(events) {
        if HeardInScan(past, b) && events[n] != ScanStart {
          var k :| 0 <= k < |past| && HeardAt(past, b, k);
          assert HeardAt(events, b, k);
        } else {
          assert HeardAt(events, b, n);
        }
      }
    }
  }

  /** The table stops at 15: the last of the 16 entries is never used. */
  function Stored(heard: seq<Beacon>): (t: seq<Pan>)
    ensures |t| == if |heard| < MAX_ED_SCAN_RESULTS_SUPPORTED then |heard| else MAX_ED_SCAN_RESULTS_SUPPORTED - 1
    ensures forall i :: 0 <= i < |t| ==> t[i] == PanOf(heard[i])
  {
    seq(if |heard| < MAX_ED_SCAN_RESULTS_SUPPORTED then |heard| else MAX_ED_SCAN_RESULTS_SUPPORTED - 1,
        i requires 0 <= i < |heard| => PanOf(heard[i]))
  }

  /** Entry `i` is the first of those with the highest link quality. */
  ghost predicate FirstStrongest(pans: seq<Pan>, i: nat) {
    && i < |pans|
    && (forall j :: 0 <= j < |pans| ==> pans[j].lqi <= pans[i].lqi)
    && (forall j :: 0 <= j < i ==> pans[j].lqi < pans[i].lqi)
  }

  lemma FirstStrongestUnique(pans: seq<Pan>, i: nat, j: nat)
    requires FirstStrongest(pans, i) && FirstStrongest(pans, j)
    ensures i == j
  {
    assert pans[i].lqi == pans[j].lqi;
  }

  /**
   * The PAN chosen has the highest link quality of all beacons heard, not just of those stored,
   * exactly when no beacon that came too late for the table beats every stored one.
   */
  lemma ChosenIsStrongestHeard(heard: seq<Beacon>, i: nat)
    requires FirstStrongest(Stored(heard), i)
    ensures (forall b :: b in heard ==> b.lqi <= heard[i].lqi)
       <==> (forall l :: MAX_ED_SCAN_RESULTS_SUPPORTED - 1 <= l < |heard| ==>
              exists j :: 0 <= j < MAX_ED_SCAN_RESULTS_SUPPORTED - 1 && heard[j].lqi >= heard[l].lqi)
  {
    var t, last := Stored(heard), MAX_ED_SCAN_RESULTS_SUPPORTED - 1;
    assert t[i] == PanOf(heard[i]);
    if forall b :: b in heard ==> b.lqi <= heard[i].lqi {
      forall l | last <= l < |heard|
        ensures exists j :: 0 <= j < last && heard[j].lqi >= heard[l].lqi
      {
        assert heard[l] in heard;
        assert heard[i].lqi >= heard[l].lqi;
      }
    }
    if forall l :: last <= l < |heard| ==> exists j :: 0 <= j < last && heard[j].lqi >= heard[l].lqi {
      forall b | b in heard
        ensures b.lqi <= heard[i].lqi
      {
        var l :| 0 <= l < |heard| && heard[l] == b;
        var j: nat := l;
        if l >= last {
          j :| 0 <= j < last && heard[j].lqi >= heard[l].lqi;
        }
        if |heard| <= last {
          assert j < |t|;
        }
        assert t[j] == PanOf(heard[j]);
      }
    }
  }

  function RequestTo(p: Pan): Request {
    if p.addr.mode == ADDR_64BIT_DEV then Request(p.channel, p.panId, ADDR_64BIT_DEV, p.addr.bytes)
    else Request(p.channel, p.panId, ADDR_16BIT_DEV, p.addr.bytes[..2])
  }

  // ---------------------------------------------------------------- the device

  class Scanner {
    const beacons: array<Pan>
    var size: nat
    ghost var events: seq<Event>

    ghost predicate Valid()
      reads this, beacons
    {
      && beacons.Length == MAX_ED_SCAN_RESULTS_SUPPORTED && size < MAX_ED_SCAN_RESULTS_SUPPORTED
      && beacons[..size] == Stored(Permitted(events))
    }

    constructor ()
      ensures Valid() && events == [] && fresh(beacons)
    {
      beacons := new Pan[MAX_ED_SCAN_RESULTS_SUPPORTED](i => Pan(0, 0, 0, Addr(0, [0, 0, 0, 0, 0, 0, 0, 0]), false));
      size := 0;
      events := [];
    }

    method ActiveScan()
      requires Valid()
      modifies this
      ensures Valid() && events == old(events) + [ScanStart] && size == 0
    {
      size := 0;
      events := events + [ScanStart];
    }

    /** Beacon indication: `size` below is the 8-bit local of the bound check. */
    method BeaconInd(b: Beacon)
      requires Valid()
      modifies this, beacons
      ensures Valid() && events == old(events) + [Heard(b)]
      ensures size == if b.associatePermit && old(size) < 15 then old(size) + 1 else old(size)
      ensures beacons[..old(size)] == old(beacons[..size])
      ensures size > old(size) ==>
                beacons[old(size)] == Pan(b.panId, b.lqi, b.channel, b.addr, b.gtsPermit)
    {
      ghost var heard := Permitted(events);
      events := events + [Heard(b)];
      assert events[..|events| - 1] == old(events);
      if !b.associatePermit {
        return;
      }
      var next: byte := (size + 1) % 256;
      if next < MAX_ED_SCAN_RESULTS_SUPPORTED {
        beacons[size] := PanOf(b);
        size := size + 1;
        assert beacons[..size] == Stored(heard + [b]);
      } else {
        assert beacons[..size] == Stored(heard + [b]);
      }
    }

    /** The scan confirmation, whatever its status, starts association if any PAN was stored. */
    method ScanConfirm() returns (request: Option<Request>, ghost i: nat)
      requires Valid()
      ensures request == None <==> Permitted(events) == []
      ensures request.Some? ==> Chosen(Permitted(events), request.value) && Addresses(request.value, Permitted(events), i)
    {
      request, i := None, 0;
      if size > 0 {
        request, i := StartAssociate();
      }
    }

    /** Scan for the entry of highest link quality, keeping the earlier one on a tie; `i` is the beacon chosen. */
    method StartAssociate() returns (request: Option<Request>, ghost i: nat)
      requires Valid()
      ensures request == None <==> Permitted(events) == []
      ensures request.Some? ==> Chosen(Permitted(events), request.value) && Addresses(request.value, Permitted(events), i)
    {
      if size == 0 {
        return None, 0;
      }
      ghost var pans := beacons[..size];
      var best := 0;
      for i := 0 to size
        invariant best < size && best <= i
        invariant forall j :: 0 <= j < i ==> pans[j].lqi <= pans[best].lqi
        invariant forall j :: 0 <= j < best ==> pans[j].lqi < pans[best].lqi
      {
        if beacons[i].lqi > beacons[best].lqi {
          best := i;
        }
      }
      assert FirstStrongest(pans, best);
      request, i := Some(RequestTo(beacons[best])), best;
      assert ChosenAt(Permitted(events), best, request.value);
      ChosenAddresses(Permitted(events), best, request.value);
    }
  }

  /**
   * The request goes to beacon `i`, the first strongest of the first 15: its channel and PAN, and its address, of eight
   * bytes for an extended one and the first two for any other.
   */
  ghost predicate Addresses(r: Request, heard: seq<Beacon>, i: nat) {
    && i < |heard| && i < 15
    && (forall j :: 0 <= j < |heard| && j < 15 ==> heard[j].lqi <= heard[i].lqi)
    && (forall j :: 0 <= j < i ==> heard[j].lqi < heard[i].lqi)
    && r.channel == heard[i].channel && r.panId == heard[i].panId
    && (heard[i].addr.mode == 3 ==> r.mode == 3 && r.address == heard[i].addr.bytes)
    && (heard[i].addr.mode != 3 ==> r.mode == 2 && r.address == [heard[i].addr.bytes[0], heard[i].addr.bytes[1]])
  }

  lemma ChosenAddresses(heard: seq<Beacon>, i: nat, r: Request)
    requires ChosenAt(heard, i, r)
    ensures Addresses(r, heard, i)
  {
    var t := Stored(heard);
    forall j | 0 <= j < |heard| && j < 15
      ensures heard[j].lqi <= heard[i].lqi && (j < i ==> heard[j].lqi < heard[i].lqi)
    {
      assert t[j] == PanOf(heard[j]);
    }
  }

  /** The request is for the first strongest of the beacons that found room in the table. */
  ghost predicate Chosen(heard: seq<Beacon>, r: Request) {
    exists i: nat :: ChosenAt(heard, i, r)
  }

  ghost predicate ChosenAt(heard: seq<Beacon>, i: nat, r: Request) {
    FirstStrongest(Stored(heard), i) && r == RequestTo(PanOf(heard[i]))
  }

  /** There is only one such request. */
  lemma ChosenOnce(heard: seq<Beacon>, r: Request, r': Request)
    requires Chosen(heard, r) && Chosen(heard, r')
    ensures r == r'
  {
    var i: nat :| ChosenAt(heard, i, r);
    var j: nat :| ChosenAt(heard, j, r');
    FirstStrongestUnique(Stored(heard), i, j);
  }

  /** In any run, there is one request to make, and it is for a beacon that permitted association in the current scan. */
  lemma ChosenWasHeard(events: seq<Event>, r: Request) returns (b: Beacon, i: nat)
    requires Chosen(Permitted(events), r)
    ensures HeardInScan(events, b) && Addresses(r, Permitted(events), i) && b == Permitted(events)[i]
    ensures r.channel == b.channel && r.panId == b.panId
    ensures b.addr.mode == 3 ==> r.mode == 3 && r.address == b.addr.bytes
    ensures b.addr.mode != 3 ==> r.mode == 2 && r.address == b.addr.bytes[..2]
    ensures forall r' :: Chosen(Permitted(events), r') ==> r' == r
  {
    var heard := Permitted(events);
    i :| ChosenAt(heard, i, r);
    b := heard[i];
    assert b in heard;
    PermittedMembers(events, b);
    ChosenAddresses(heard, i, r);
    forall r' | Chosen(heard, r')
      ensures r' == r
    {
      ChosenOnce(heard, r, r');
    }
  }
}
