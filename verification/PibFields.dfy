/** The scalar PIB attributes: byte fields of the PIB record, reached through a row table. */
module PibFields {
  import opened Bits

  // Attribute identifiers.
  const PHY_CURRENT_CHANNEL: byte := 0x00
  const ATTRIBUTE_START: byte := 0x40
  const BEACON_PAYLOAD: byte := 0x45
  const TX_POWER: byte := 0x5F
  const KEY_TABLE: byte := 0x71
  const DEVICE_TABLE: byte := 0x73
  const SECURITY_LEVEL_TABLE: byte := 0x75
  const ATTRIBUTE_STOP: byte := 0x7F

  // ---------------------------------------------------------------- record layout

  /** The fields of the PIB record, as positions in declaration order. */
  type Field = i: nat | i < FIELDS

  const FIELDS: nat := 49

  const BeaconTxTime: Field := 0
  const CoordExtAddress: Field := 1
  const ExtAddress: Field := 2
  const AckWaitDuration: Field := 3
  const CoordShortAddress: Field := 4
  const PanId: Field := 5
  const ShortAddress: Field := 6
  const SuperframeOrder: Field := 7
  const TransactionPersistenceTime: Field := 8
  const FrameTotalWaitTime: Field := 9
  const SyncSymbolOffset: Field := 10
  const BeaconPayload: Field := 11
  const BeaconPayloadLen: Field := 12
  const AssociationPermit: Field := 13
  const AssociatedPanCoord: Field := 14
  const AutoReq: Field := 15
  const BattLifeExt: Field := 16
  const BattLifeExtPeriods: Field := 17
  const BeaconOrder: Field := 18
  const BeaconSeqNum: Field := 19
  const SeqNum: Field := 20
  const FrameRetryNum: Field := 21
  const RespWaitTime: Field := 22
  const MaxCsmaBackoffs: Field := 23
  const PromiscuousMode: Field := 24
  const TimeStampSupported: Field := 25
  const SecurityEnabled: Field := 26
  const GtsPermit: Field := 27
  const MinBe: Field := 28
  const MaxBe: Field := 29
  const PhyPageCur: Field := 30
  const PhyChannelCur: Field := 31
  const RxOnWhenIdle: Field := 32
  const TxPower: Field := 33
  const Resv: Field := 34
  const KeyTable: Field := 35
  const DevTable: Field := 36
  const SecLvlTable: Field := 37
  const KeyTableEntries: Field := 38
  const DevTableEntries: Field := 39
  const SecLvlTableEntries: Field := 40
  const AutoReqSecLvl: Field := 41
  const FrameCounter: Field := 42
  const AutoReqKeySource: Field := 43
  const AutoReqKeyIdMode: Field := 44
  const AutoReqKeyIndex: Field := 45
  const PanCoordShortAddr: Field := 46
  const DefaultKeySource: Field := 47
  const PanCoordExtAddr: Field := 48

  /** Bytes of the field at a position; every field is naturally aligned, so there is no padding. */
  function Size(i: nat): (n: nat)
    ensures n > 0
  {
    if i == 0 then 4
    else if i <= 2 then 8
    else if i <= 10 then 2
    else if i == 11 then 15
    else if i <= 33 then 1
    else if i == 34 then 3
    else if i <= 37 then 4
    else if i <= 41 then 1
    else if i == 42 then 4
    else if i == 43 then 8
    else if i <= 45 then 1
    else if i == 46 then 2
    else 8
  }

  function Offset(i: nat): nat {
    if i == 0 then 0 else Offset(i - 1) + Size(i - 1)
  }

  lemma {:induction false} OffsetsIncrease(f: nat, g: nat)
    requires f < g
    ensures Offset(f) + Size(f) <= Offset(g)
  {
    if f + 1 < g {
      OffsetsIncrease(f, g - 1);
    }
  }

  const PIB_SIZE: nat := 124

  /** The offsets in closed form, one piece for each group of fields of one size. */
  function Placed(i: nat): nat {
    if i == 0 then 0
    else if i <= 3 then 8 * i - 4
    else if i <= 11 then 2 * i + 14
    else if i <= 34 then i + 39
    else if i <= 38 then 4 * i - 64
    else if i <= 42 then i + 50
    else if i == 43 then 96
    else if i <= 46 then i + 60
    else 8 * i - 268
  }

  lemma {:induction false} OffsetPlaced(i: nat)
    requires i <= FIELDS
    ensures Offset(i) == Placed(i)
  {
    if i > 0 {
      OffsetPlaced(i - 1);
    }
  }

  /** The fields fill the record; the tables' counts are at 88 to 90. */
  lemma RecordFilled()
    ensures Offset(38) == 88 && Offset(39) == 89 && Offset(40) == 90 && Offset(FIELDS) == PIB_SIZE
  {
    OffsetPlaced(38);
    OffsetPlaced(39);
    OffsetPlaced(40);
    OffsetPlaced(FIELDS);
  }

  // ---------------------------------------------------------------- the attribute row table

  /** A row names a field and how many of its bytes the attribute covers. */
  datatype Row = Row(field: Field, len: byte)

  const ROWS: nat := 46

  /** The table of attribute rows: 32 plain attributes, then the security attributes. */
  function PibTable(i: nat): Row
    requires i < ROWS
  {
    match i
    case 0 => Row(AckWaitDuration, 1)
    case 1 => Row(AssociationPermit, 1)
    case 2 => Row(AutoReq, 1)
    case 3 => Row(BattLifeExt, 1)
    case 4 => Row(BattLifeExtPeriods, 1)
    case 5 => Row(BeaconPayload, 15)
    case 6 => Row(BeaconPayloadLen, 1)
    case 7 => Row(BeaconOrder, 1)
    case 8 => Row(BeaconTxTime, 4)
    case 9 => Row(BeaconSeqNum, 1)
    case 10 => Row(CoordExtAddress, 8)
    case 11 => Row(CoordShortAddress, 2)
    case 12 => Row(SeqNum, 1)
    case 13 => Row(GtsPermit, 1)
    case 14 => Row(MaxCsmaBackoffs, 1)
    case 15 => Row(MinBe, 1)
    case 16 => Row(PanId, 2)
    case 17 => Row(PromiscuousMode, 1)
    case 18 => Row(RxOnWhenIdle, 1)
    case 19 => Row(ShortAddress, 2)
    case 20 => Row(SuperframeOrder, 1)
    case 21 => Row(TransactionPersistenceTime, 2)
    case 22 => Row(AssociatedPanCoord, 1)
    case 23 => Row(MaxBe, 1)
    case 24 => Row(FrameTotalWaitTime, 2)
    case 25 => Row(FrameRetryNum, 1)
    case 26 => Row(RespWaitTime, 1)
    case 27 => Row(SyncSymbolOffset, 1)
    case 28 => Row(TimeStampSupported, 1)
    case 29 => Row(SecurityEnabled, 1)
    case 30 => Row(ExtAddress, 8)
    case 31 => Row(TxPower, 1)
    case 32 => Row(KeyTable, 4)
    case 33 => Row(KeyTableEntries, 1)
    case 34 => Row(DevTable, 4)
    case 35 => Row(DevTableEntries, 1)
    case 36 => Row(SecLvlTable, 4)
    case 37 => Row(SecLvlTableEntries, 1)
    case 38 => Row(FrameCounter, 4)
    case 39 => Row(AutoReqSecLvl, 1)
    case 40 => Row(AutoReqKeyIdMode, 1)
    case 41 => Row(AutoReqKeySource, 8)
    case 42 => Row(AutoReqKeyIndex, 1)
    case 43 => Row(DefaultKeySource, 8)
    case 44 => Row(PanCoordExtAddr, 8)
    case _ => Row(PanCoordShortAddr, 2)
  }

  /** The row of the field at a position, ROWS if it has none. */
  function RowAt(n: nat): nat {
    match n
    case 0 => 8
    case 1 => 10
    case 2 => 30
    case 3 => 0
    case 4 => 11
    case 5 => 16
    case 6 => 19
    case 7 => 20
    case 8 => 21
    case 9 => 24
    case 10 => 27
    case 11 => 5
    case 12 => 6
    case 13 => 1
    case 14 => 22
    case 15 => 2
    case 16 => 3
    case 17 => 4
    case 18 => 7
    case 19 => 9
    case 20 => 12
    case 21 => 25
    case 22 => 26
    case 23 => 14
    case 24 => 17
    case 25 => 28
    case 26 => 29
    case 27 => 13
    case 28 => 15
    case 29 => 23
    case 30 => ROWS
    case 31 => ROWS
    case 32 => 18
    case 33 => 31
    case 34 => ROWS
    case 35 => 32
    case 36 => 34
    case 37 => 36
    case 38 => 33
    case 39 => 35
    case 40 => 37
    case 41 => 39
    case 42 => 38
    case 43 => 41
    case 44 => 40
    case 45 => 42
    case 46 => 45
    case 47 => 43
    case 48 => 44
    case _ => ROWS
  }

  /** Row `i` is the one row of its field, and stays inside it. */
  ghost predicate RowRight(i: nat)
    requires i < ROWS
  {
    RowAt(PibTable(i).field) == i && 0 < PibTable(i).len <= Size(PibTable(i).field)
  }

  lemma RowsRight0(i: nat)
    requires 0 <= i < 8
    ensures RowRight(i)
  {
  }

  lemma RowsRight1(i: nat)
    requires 8 <= i < 16
    ensures RowRight(i)
  {
  }

  lemma RowsRight2(i: nat)
    requires 16 <= i < 24
    ensures RowRight(i)
  {
  }

  lemma RowsRight3(i: nat)
    requires 24 <= i < 32
    ensures RowRight(i)
  {
  }

  lemma RowsRight4(i: nat)
    requires 32 <= i < 39
    ensures RowRight(i)
  {
  }

  lemma RowsRight5(i: nat)
    requires 39 <= i < ROWS
    ensures RowRight(i)
  {
  }

  lemma RowsRight(i: nat)
    requires i < ROWS
    ensures RowRight(i)
  {
    if i < 8 {
      RowsRight0(i);
    } else if i < 16 {
      RowsRight1(i);
    } else if i < 24 {
      RowsRight2(i);
    } else if i < 32 {
      RowsRight3(i);
    } else if i < 39 {
      RowsRight4(i);
    } else {
      RowsRight5(i);
    }
  }

  function Start(i: nat): (o: nat)
    requires i < ROWS
    ensures o + PibTable(i).len <= PIB_SIZE
  {
    RowsRight(i);
    var f := PibTable(i).field;
    OffsetsIncrease(f, FIELDS);
    RecordFilled();
    Offset(f)
  }

  ghost predicate RowAtBytes(i: nat, at: nat, len: nat) {
    i < ROWS && Start(i) == at && PibTable(i).len == len
  }

  lemma StartPlaced(i: nat)
    requires i < ROWS
    ensures Start(i) == Placed(PibTable(i).field)
  {
    RowsRight(i);
    OffsetPlaced(PibTable(i).field);
  }

  lemma Place(i: nat, f: Field, len: byte, at: nat)
    requires i < ROWS && PibTable(i) == Row(f, len) && Placed(f) == at
    ensures RowAtBytes(i, at, len)
  {
    StartPlaced(i);
  }

  /** Where PAN identifier, short and extended address lie, and the beacon payload. */
  lemma AddressPlaces()
    ensures RowAtBytes(0x50 - 0x40, 24, 2) && RowAtBytes(0x53 - 0x40, 26, 2) && RowAtBytes(0x5E - 0x40, 12, 8) && RowAtBytes(0x45 - 0x40, 36, 15)
  {
    Place(16, PanId, 2, 24);
    Place(19, ShortAddress, 2, 26);
    Place(30, ExtAddress, 8, 12);
    Place(5, BeaconPayload, 15, 36);
  }

  /** Where the tables' pointers and counts lie. */
  lemma PointerPlaces()
    ensures RowAtBytes(32, 76, 4) && RowAtBytes(34, 80, 4) && RowAtBytes(36, 84, 4)
  {
    Place(32, KeyTable, 4, 76);
    Place(34, DevTable, 4, 80);
    Place(36, SecLvlTable, 4, 84);
  }

  /** Different rows cover disjoint byte ranges of the record. */
  lemma RowsDisjoint(i: nat, j: nat)
    requires i < ROWS && j < ROWS && i != j
    ensures Start(i) + PibTable(i).len <= Start(j) || Start(j) + PibTable(j).len <= Start(i)
  {
    RowsRight(i);
    RowsRight(j);
    var f, g := PibTable(i).field, PibTable(j).field;
    assert RowAt(f) == i && RowAt(g) == j;
    if f < g {
      OffsetsIncrease(f, g);
    } else {
      OffsetsIncrease(g, f);
    }
  }

  // ---------------------------------------------------------------- set and get, as functions of the record bytes

  predicate InRange(attr: byte) {
    ATTRIBUTE_START <= attr <= ATTRIBUTE_STOP
  }

  predicate TableAttr(attr: byte) {
    attr == KEY_TABLE || attr == DEVICE_TABLE || attr == SECURITY_LEVEL_TABLE
  }

  /** Set skips the gap between the last plain identifier and the key table identifier. */
  function SetRow(attr: byte): (i: nat)
    requires InRange(attr)
  {
    if attr >= KEY_TABLE then attr - ATTRIBUTE_START - (KEY_TABLE - TX_POWER - 1) else attr - ATTRIBUTE_START
  }

  /** Get does not skip it. */
  function GetRow(attr: byte): (i: nat)
    requires InRange(attr)
  {
    attr - ATTRIBUTE_START
  }

  datatype SetReq = SetReq(attr: byte, value: seq<byte>, len: byte)

  /** What a caller owes: a value buffer of the stated length, and an identifier that names a row of the table. */
  predicate Proper(q: SetReq) {
    && |q.value| >= q.len && (q.attr == TX_POWER || q.attr == PHY_CURRENT_CHANNEL ==> q.value != [])
    && (InRange(q.attr) && !TableAttr(q.attr) && q.attr != TX_POWER ==> SetRow(q.attr) < ROWS)
  }

  function Accepted(q: SetReq): bool
    requires Proper(q)
  {
    if q.attr == TX_POWER || q.attr == PHY_CURRENT_CHANNEL then true
    else if !InRange(q.attr) || TableAttr(q.attr) then false
    else q.len <= PibTable(SetRow(q.attr)).len
  }

  /** Where a field starts in the record. */
  function FieldOffset(f: Field): (o: nat)
    ensures o < PIB_SIZE
  {
    OffsetsIncrease(f, FIELDS);
    RecordFilled();
    Offset(f)
  }

  function Overwrite(mem: seq<byte>, at: nat, bytes: seq<byte>): (r: seq<byte>)
    requires at + |bytes| <= |mem|
    ensures |r| == |mem|
    ensures forall i :: 0 <= i < |mem| ==> r[i] == if at <= i < at + |bytes| then bytes[i - at] else mem[i]
  {
    mem[..at] + bytes + mem[at + |bytes|..]
  }

  /** The record after a scalar set request; table attributes do not touch it. */
  function SetEffect(mem: seq<byte>, q: SetReq): (r: seq<byte>)
    requires |mem| == PIB_SIZE && Proper(q)
    ensures |r| == PIB_SIZE
  {
    if !Accepted(q) || q.attr == TX_POWER then mem
    else if q.attr == PHY_CURRENT_CHANNEL then Overwrite(mem, FieldOffset(PhyChannelCur), q.value[..1])
    else Overwrite(mem, Start(SetRow(q.attr)), q.value[..q.len])
  }

  function RowBytes(mem: seq<byte>, i: nat): (v: seq<byte>)
    requires |mem| == PIB_SIZE && i < ROWS
  {
    mem[Start(i)..Start(i) + PibTable(i).len]
  }

  /** The length a get reports: the row's, except that the beacon payload is cut to its stored length. */
  function ReportedLen(mem: seq<byte>, attr: byte): byte
    requires |mem| == PIB_SIZE && InRange(attr) && GetRow(attr) < ROWS
  {
    var len := PibTable(GetRow(attr)).len;
    var stored := mem[FieldOffset(BeaconPayloadLen)];
    if attr == BEACON_PAYLOAD && stored <= len then stored else len
  }

  lemma ChannelOutsideRows(i: nat)
    requires i < ROWS
    ensures FieldOffset(PhyChannelCur) < Start(i) || Start(i) + PibTable(i).len <= FieldOffset(PhyChannelCur)
  {
    RowsRight(i);
    var f, g := PibTable(i).field, PhyChannelCur;
    if f < g {
      OffsetsIncrease(f, g);
    } else {
      assert f != g;
      OffsetsIncrease(g, f);
    }
  }

  /** A set request changes no row but its own. */
  lemma SetKeepsOtherRows(mem: seq<byte>, q: SetReq, i: nat)
    requires |mem| == PIB_SIZE && Proper(q) && i < ROWS
    requires InRange(q.attr) && !TableAttr(q.attr) && q.attr != TX_POWER ==> SetRow(q.attr) != i
    ensures RowBytes(SetEffect(mem, q), i) == RowBytes(mem, i)
  {
    if Accepted(q) && q.attr != TX_POWER {
      if q.attr == PHY_CURRENT_CHANNEL {
        ChannelOutsideRows(i);
        OverwriteElsewhere(mem, FieldOffset(PhyChannelCur), q.value[..1], Start(i), PibTable(i).len);
      } else {
        var row := SetRow(q.attr);
        RowsDisjoint(row, i);
        OverwriteElsewhere(mem, Start(row), q.value[..q.len], Start(i), PibTable(i).len);
      }
    }
  }

  lemma OverwriteElsewhere(mem: seq<byte>, at: nat, bytes: seq<byte>, start: nat, len: nat)
    requires at + |bytes| <= |mem| && start + len <= |mem|
    requires at + |bytes| <= start || start + len <= at
    ensures Overwrite(mem, at, bytes)[start..start + len] == mem[start..start + len]
  {
  }

  // ---------------------------------------------------------------- requests of all kinds

  /** Where the entry count of a table lies: it is a byte of the record, and so also the row of scalar attributes. */
  function CountField(attr: byte): Field
    requires TableAttr(attr)
  {
    if attr == KEY_TABLE then KeyTableEntries else if attr == DEVICE_TABLE then DevTableEntries else SecLvlTableEntries
  }

  /** Where those bytes are. */
  function CountOffset(attr: byte): (o: nat)
    requires TableAttr(attr)
    ensures o < PIB_SIZE
  {
    if attr == KEY_TABLE then 88 else if attr == DEVICE_TABLE then 89 else 90
  }

  lemma CountOffsets(attr: byte)
    requires TableAttr(attr)
    ensures CountOffset(attr) == FieldOffset(CountField(attr))
  {
    RecordFilled();
  }

  function CountRow(attr: byte): (i: nat)
    requires TableAttr(attr)
    ensures i < ROWS
  {
    if attr == KEY_TABLE then 33 else if attr == DEVICE_TABLE then 35 else 37
  }

  function EntryCount(mem: seq<byte>, attr: byte): byte
    requires |mem| == PIB_SIZE && TableAttr(attr)
  {
    mem[CountOffset(attr)]
  }

  function WithCount(mem: seq<byte>, attr: byte, n: byte): (r: seq<byte>)
    requires |mem| == PIB_SIZE && TableAttr(attr)
    ensures |r| == PIB_SIZE
  {
    Overwrite(mem, CountOffset(attr), [n])
  }

  /** A request: a scalar set, a set on a table, or a delete on a table. */
  datatype Request = Scalar(q: SetReq) | SetTable(attr: byte, index: byte) | DelTable(attr: byte, index: byte)

  predicate ProperRequest(r: Request) {
    match r
    case Scalar(q) => Proper(q) && !TableAttr(q.attr)
    case SetTable(attr, _) => TableAttr(attr)
    case DelTable(attr, _) => TableAttr(attr)
  }

  /** The entry count after a table request: an append counts up, a delete counts down, in eight bits. */
  function NewCount(n: byte, r: Request): byte
    requires !r.Scalar?
  {
    match r
    case SetTable(_, index) => if index != n then n else if n == 255 then 0 else n + 1
    case DelTable(_, index) => if index < n then n - 1 else n
  }

  /** The record bytes after any request, table requests being made while the tables are in order. */
  function RecordEffect(mem: seq<byte>, r: Request): (t: seq<byte>)
    requires |mem| == PIB_SIZE && ProperRequest(r)
    ensures |t| == PIB_SIZE
  {
    if r.Scalar? then SetEffect(mem, r.q) else WithCount(mem, r.attr, NewCount(EntryCount(mem, r.attr), r))
  }

  /** What a request makes of the bytes `v` of row `i`: no other byte of the record matters. */
  function RowEffect(i: nat, v: seq<byte>, r: Request): seq<byte>
    requires i < ROWS && |v| == PibTable(i).len && ProperRequest(r)
  {
    RowsRight(i);
    match r
    case Scalar(q) =>
      if q.attr != TX_POWER && InRange(q.attr) && SetRow(q.attr) == i && q.len <= |v| then q.value[..q.len] + v[q.len..] else v
    case _ => if CountRow(r.attr) == i then [NewCount(v[0], r)] else v
  }

  lemma ScalarRow(mem: seq<byte>, q: SetReq, i: nat)
    requires |mem| == PIB_SIZE && ProperRequest(Scalar(q)) && i < ROWS
    ensures RowBytes(SetEffect(mem, q), i) == RowEffect(i, RowBytes(mem, i), Scalar(q))
  {
    if q.attr != TX_POWER && InRange(q.attr) && SetRow(q.attr) == i {
      if q.len <= PibTable(i).len {
        OverwriteWithin(mem, Start(i), q.value[..q.len], PibTable(i).len);
      }
    } else {
      SetKeepsOtherRows(mem, q, i);
    }
  }

  lemma RowAfter(mem: seq<byte>, r: Request, i: nat)
    requires |mem| == PIB_SIZE && ProperRequest(r) && i < ROWS
    ensures RowBytes(RecordEffect(mem, r), i) == RowEffect(i, RowBytes(mem, i), r)
  {
    if r.Scalar? {
      ScalarRow(mem, r.q, i);
    } else {
      var n := NewCount(EntryCount(mem, r.attr), r);
      CountHere(mem, r.attr, n);
      if CountRow(r.attr) != i {
        CountElsewhere(mem, r.attr, n, i);
      }
    }
  }

  lemma OverwriteWithin(mem: seq<byte>, at: nat, bytes: seq<byte>, len: nat)
    requires at + len <= |mem| && |bytes| <= len
    ensures Overwrite(mem, at, bytes)[at..at + len] == bytes + mem[at..at + len][|bytes|..]
  {
  }

  lemma CountPlace(attr: byte)
    requires TableAttr(attr)
    ensures PibTable(CountRow(attr)) == Row(CountField(attr), 1) && CountOffset(attr) == FieldOffset(CountField(attr)) == Start(CountRow(attr))
  {
    CountOffsets(attr);
    CountRowIs(attr);
  }

  lemma CountRowIs(attr: byte)
    requires TableAttr(attr)
    ensures PibTable(CountRow(attr)) == Row(CountField(attr), 1)
  {
    if attr == KEY_TABLE {
      assert PibTable(33) == Row(KeyTableEntries, 1);
    } else if attr == DEVICE_TABLE {
      assert PibTable(35) == Row(DevTableEntries, 1);
    } else {
      assert PibTable(37) == Row(SecLvlTableEntries, 1);
    }
  }

  lemma OneByte(mem: seq<byte>, at: nat, n: byte)
    requires at < |mem|
    ensures mem[at..at + 1] == [mem[at]] && Overwrite(mem, at, [n])[at..at + 1] == [n]
  {
  }

  lemma CountHere(mem: seq<byte>, attr: byte, n: byte)
    requires |mem| == PIB_SIZE && TableAttr(attr)
    ensures RowBytes(WithCount(mem, attr, n), CountRow(attr)) == [n]
    ensures RowBytes(mem, CountRow(attr)) == [EntryCount(mem, attr)]
  {
    CountPlace(attr);
    OneByte(mem, CountOffset(attr), n);
  }

  /** The count byte lies in no other row. */
  lemma CountApart(attr: byte, i: nat)
    requires TableAttr(attr) && i < ROWS && i != CountRow(attr)
    ensures CountOffset(attr) < Start(i) || Start(i) + PibTable(i).len <= CountOffset(attr)
  {
    CountPlace(attr);
    RowsDisjoint(CountRow(attr), i);
  }

  lemma CountElsewhere(mem: seq<byte>, attr: byte, n: byte, i: nat)
    requires |mem| == PIB_SIZE && TableAttr(attr) && i < ROWS && i != CountRow(attr)
    ensures RowBytes(WithCount(mem, attr, n), i) == RowBytes(mem, i)
  {
    CountApart(attr, i);
    var at, start, len := CountOffset(attr), Start(i), PibTable(i).len;
    OverwriteElsewhere(mem, at, [n], start, len);
  }

  // ---------------------------------------------------------------- runs of requests

  /**
   * The record, and the tables as they really are: where their list headers lie and how many nodes they
   * have. A table request goes through the pointer and the count it finds in the record.
   */
  datatype Live = Live(mem: seq<byte>, tables: TableBytes)

  ghost predicate InOrder(s: Live) {
    |s.mem| == PIB_SIZE && TablesAre(s.mem, s.tables)
  }

  /** Scalar requests always only write the record; table requests are what they should be while the tables are in order. */
  ghost predicate MayFollow(s: Live, r: Request) {
    |s.mem| == PIB_SIZE && ProperRequest(r) && (r.Scalar? || InOrder(s))
  }

  ghost function Effect(s: Live, r: Request): (t: Live)
    requires MayFollow(s, r)
    ensures |t.mem| == PIB_SIZE
  {
    Live(RecordEffect(s.mem, r),
         if r.Scalar? then s.tables else WithTableCount(s.tables, r.attr, NewCount(EntryCount(s.mem, r.attr), r)))
  }

  /** A run in which every table request finds the tables in order. */
  ghost predicate Governed(s: Live, rs: seq<Request>)
    decreases |rs|
  {
    |s.mem| == PIB_SIZE && (rs != [] ==> MayFollow(s, rs[0]) && Governed(Effect(s, rs[0]), rs[1..]))
  }

  ghost function After(s: Live, rs: seq<Request>): (t: Live)
    requires Governed(s, rs)
    ensures |t.mem| == PIB_SIZE
    decreases |rs|
  {
    if rs == [] then s else After(Effect(s, rs[0]), rs[1..])
  }

  /** Every row evolves by itself. */
  lemma RowsAreIndependent(s: Live, r: Request, i: nat)
    requires MayFollow(s, r) && i < ROWS
    ensures RowBytes(Effect(s, r).mem, i) == RowEffect(i, RowBytes(s.mem, i), r)
  {
    RowAfter(s.mem, r, i);
  }

  /** A table request keeps the tables in order, and a scalar one does exactly when it is not harmful. */
  lemma OrderKept(s: Live, r: Request)
    requires InOrder(s) && ProperRequest(r)
    ensures InOrder(Effect(s, r)) <==> !(r.Scalar? && Harmful(s.mem, r.q))
  {
    if r.Scalar? {
      TablesSurvive(s.mem, r.q, s.tables);
    } else {
      CountTables(s.mem, s.tables, r.attr, NewCount(EntryCount(s.mem, r.attr), r));
    }
  }

  /** A request for anything but the tables' own bytes. */
  predicate Ordinary(r: Request) {
    ProperRequest(r) && (r.Scalar? ==> !RawTable(r.q.attr))
  }

  /** Runs that leave the raw identifiers alone are governed, and end in order. */
  lemma {:induction false} OrdinaryRunGoverned(s: Live, rs: seq<Request>)
    requires InOrder(s) && forall r :: r in rs ==> Ordinary(r)
    ensures Governed(s, rs) && InOrder(After(s, rs))
    decreases |rs|
  {
    if rs != [] {
      assert Ordinary(rs[0]);
      OrderKept(s, rs[0]);
      OrdinaryRunGoverned(Effect(s, rs[0]), rs[1..]);
    }
  }

  // ---------------------------------------------------------------- the law, and where it stops

  /** A full-length request for a scalar attribute that is kept in the record and read back from where it was written. */
  predicate Plain(q: SetReq) {
    && Proper(q) && ATTRIBUTE_START <= q.attr < KEY_TABLE && q.attr != TX_POWER
    && q.len == PibTable(SetRow(q.attr)).len
  }

  /** A get of the attribute returns the value of request `q`; the beacon payload is reported up to the stored payload length. */
  predicate GetGives(mem: seq<byte>, q: SetReq)
    requires |mem| == PIB_SIZE && Plain(q)
  {
    && RowBytes(mem, GetRow(q.attr)) == q.value[..q.len]
    && (q.attr != BEACON_PAYLOAD ==> ReportedLen(mem, q.attr) == q.len)
    && (q.attr == BEACON_PAYLOAD ==>
          ReportedLen(mem, q.attr) == (var n := mem[FieldOffset(BeaconPayloadLen)]; if n <= q.len then n else q.len))
  }

  /**
   * What destroys the value of `q`: an accepted set through the same identifier or one that names the
   * same row, of different bytes; and for the three attributes whose row is an entry count,
   * an append to the table or a delete from it at the stored count.
   */
  predicate Disturbs(q: SetReq, r: Request)
    requires Plain(q) && ProperRequest(r)
  {
    match r
    case Scalar(s) =>
      && s.attr != TX_POWER && InRange(s.attr) && (s.attr == q.attr || Aliased(q.attr, s.attr))
      && s.len <= q.len && s.value[..s.len] != q.value[..s.len]
    case SetTable(attr, index) => Aliased(q.attr, attr + 1) && index == q.value[0]
    case DelTable(attr, index) => Aliased(q.attr, attr + 1) && index < q.value[0]
  }

  /** Below the key table identifier `a` names the same record row as `b` above it: set skips a gap between them. */
  predicate Aliased(a: byte, b: byte) {
    a < KEY_TABLE <= b && b - a == KEY_TABLE - TX_POWER - 1
  }

  /** Each table's entry count is the row of the identifier that follows the table's. */
  lemma RowsOfIdentifiers(a: byte, b: byte)
    requires InRange(a) && a < KEY_TABLE && InRange(b) && b != a
    ensures SetRow(a) == GetRow(a)
    ensures SetRow(b) == SetRow(a) <==> Aliased(a, b)
    ensures TableAttr(b) ==> (CountRow(b) == SetRow(a) <==> Aliased(a, b + 1))
  {
  }

  /** A get gives the value exactly when its row holds it. */
  lemma GivesByRow(mem: seq<byte>, q: SetReq)
    requires |mem| == PIB_SIZE && Plain(q)
    ensures GetGives(mem, q) <==> RowBytes(mem, SetRow(q.attr)) == q.value[..q.len]
  {
  }

  lemma ScalarDisturbs(q: SetReq, s: SetReq)
    requires Plain(q) && ProperRequest(Scalar(s))
    ensures RowEffect(SetRow(q.attr), q.value[..q.len], Scalar(s)) == q.value[..q.len] <==> !Disturbs(q, Scalar(s))
  {
    if InRange(s.attr) && s.attr != q.attr {
      RowsOfIdentifiers(q.attr, s.attr);
    }
    if s.len <= q.len {
      SplicedEqual(q.value[..q.len], s.value[..s.len]);
      assert q.value[..q.len][..s.len] == q.value[..s.len];
    }
  }

  lemma TableDisturbs(q: SetReq, r: Request)
    requires Plain(q) && ProperRequest(r) && !r.Scalar?
    ensures RowEffect(SetRow(q.attr), q.value[..q.len], r) == q.value[..q.len] <==> !Disturbs(q, r)
  {
    RowsOfIdentifiers(q.attr, r.attr);
    CountPlace(r.attr);
  }

  /** While the value is there, one request keeps it exactly when it does not disturb it. */
  lemma OneRequest(s: Live, q: SetReq, r: Request)
    requires MayFollow(s, r) && Plain(q) && GetGives(s.mem, q)
    ensures GetGives(Effect(s, r).mem, q) <==> !Disturbs(q, r)
  {
    GivesByRow(s.mem, q);
    GivesByRow(Effect(s, r).mem, q);
    RowsAreIndependent(s, r, SetRow(q.attr));
    if r.Scalar? {
      ScalarDisturbs(q, r.q);
    } else {
      TableDisturbs(q, r);
    }
  }

  lemma SplicedEqual(v: seq<byte>, w: seq<byte>)
    requires |w| <= |v|
    ensures w + v[|w|..] == v <==> w == v[..|w|]
  {
    if w + v[|w|..] == v {
      assert w == (w + v[|w|..])[..|w|];
    } else {
      assert v == v[..|w|] + v[|w|..];
    }
  }

  lemma SetGives(mem: seq<byte>, q: SetReq)
    requires |mem| == PIB_SIZE && Plain(q)
    ensures Accepted(q) && GetGives(SetEffect(mem, q), q)
  {
    RowsOfIdentifiers(q.attr, KEY_TABLE);
    RowAfter(mem, Scalar(q), SetRow(q.attr));
  }

  /** Get gives the value of `q` at every point of a run. */
  ghost predicate GivesThroughout(s: Live, q: SetReq, rs: seq<Request>)
    requires Plain(q) && Governed(s, rs)
    decreases |rs|
  {
    GetGives(s.mem, q) && (rs != [] ==> GivesThroughout(Effect(s, rs[0]), q, rs[1..]))
  }

  ghost predicate Undisturbed(q: SetReq, rs: seq<Request>)
    requires Plain(q)
  {
    forall r :: r in rs ==> ProperRequest(r) && !Disturbs(q, r)
  }

  lemma {:induction false} GivesWhileUndisturbed(s: Live, q: SetReq, rs: seq<Request>)
    requires Plain(q) && Governed(s, rs) && GetGives(s.mem, q)
    ensures GivesThroughout(s, q, rs) <==> Undisturbed(q, rs)
    ensures Undisturbed(q, rs) ==> GetGives(After(s, rs).mem, q)
    decreases |rs|
  {
    if rs != [] {
      OneRequest(s, q, rs[0]);
      assert forall r :: r in rs <==> r == rs[0] || r in rs[1..];
      if !Disturbs(q, rs[0]) {
        GivesWhileUndisturbed(Effect(s, rs[0]), q, rs[1..]);
      }
    }
  }

  /**
   * A full-length set of a plain attribute, then any scalar and table requests, accepted or not, of which
   * the table requests find the tables in order: get gives the value back at every point
   * exactly when none of them disturbs it.
   */
  lemma SetThenGet(s: Live, q: SetReq, later: seq<Request>)
    requires |s.mem| == PIB_SIZE && Plain(q) && Governed(Effect(s, Scalar(q)), later)
    ensures Accepted(q)
    ensures GivesThroughout(Effect(s, Scalar(q)), q, later) <==> Undisturbed(q, later)
    ensures Undisturbed(q, later) ==> GetGives(After(Effect(s, Scalar(q)), later).mem, q)
  {
    SetGives(s.mem, q);
    GivesWhileUndisturbed(Effect(s, Scalar(q)), q, later);
  }

  /** From tables in order, an ordinary attribute reads back what was set over any run that leaves it and the raw identifiers alone. */
  lemma OrdinarySetThenGet(s: Live, q: SetReq, later: seq<Request>)
    requires InOrder(s) && Plain(q) && q.attr < TX_POWER
    requires forall r :: r in later ==> Ordinary(r) && (r.Scalar? ==> r.q.attr != q.attr)
    ensures Governed(Effect(s, Scalar(q)), later) && GetGives(After(Effect(s, Scalar(q)), later).mem, q)
  {
    OrderKept(s, Scalar(q));
    OrdinaryRunGoverned(Effect(s, Scalar(q)), later);
    forall r | r in later
      ensures ProperRequest(r) && !Disturbs(q, r)
    {
      OrdinaryAttribute(q, r);
    }
    SetThenGet(s, q, later);
  }

  /** An attribute whose row no other identifier and no table names is disturbed only through its own identifier. */
  lemma OrdinaryAttribute(q: SetReq, r: Request)
    requires Plain(q) && ProperRequest(r) && q.attr < TX_POWER && (r.Scalar? ==> r.q.attr != q.attr)
    ensures !Disturbs(q, r)
  {
  }

  /**
   * Where get reads the row that set wrote: exactly below the key table identifier. At and above
   * it, get computes a row past the end of the table.
   */
  lemma GetReadsWhatSetWrote(attr: byte)
    requires InRange(attr)
    ensures GetRow(attr) == SetRow(attr) <==> attr < KEY_TABLE
    ensures attr >= KEY_TABLE ==> GetRow(attr) >= ROWS
    ensures SetRow(attr) < ROWS <==> attr !in [0x6E, 0x6F, 0x70, ATTRIBUTE_STOP]
  {
  }

  /** The current channel is byte 70 of the record, and no other request writes it. */
  lemma ChannelKept(s: Live, r: Request)
    requires MayFollow(s, r) && (r.Scalar? ==> r.q.attr != PHY_CURRENT_CHANNEL)
    ensures Effect(s, r).mem[70] == s.mem[70]
  {
    ChannelPlace();
    if r.Scalar? {
      if Accepted(r.q) && r.q.attr != TX_POWER {
        ChannelOutsideRows(SetRow(r.q.attr));
      }
    }
  }

  lemma ChannelPlace()
    ensures FieldOffset(PhyChannelCur) == 70 && FieldOffset(BeaconPayloadLen) == 51
  {
    OffsetPlaced(PhyChannelCur);
    OffsetPlaced(BeaconPayloadLen);
  }

  /** A channel set is read back over any run of other requests; and it writes that byte only. */
  lemma ChannelReadBack(s: Live, q: SetReq, later: seq<Request>)
    requires |s.mem| == PIB_SIZE && Proper(q) && q.attr == PHY_CURRENT_CHANNEL && Governed(Effect(s, Scalar(q)), later)
    requires forall r :: r in later && r.Scalar? ==> r.q.attr != PHY_CURRENT_CHANNEL
    ensures After(Effect(s, Scalar(q)), later).mem[70] == q.value[0]
    ensures Effect(s, Scalar(q)).mem == s.mem[70 := q.value[0]]
  {
    ChannelPlace();
    ChannelStays(Effect(s, Scalar(q)), later);
  }

  lemma {:induction false} ChannelStays(s: Live, rs: seq<Request>)
    requires Governed(s, rs) && forall r :: r in rs && r.Scalar? ==> r.q.attr != PHY_CURRENT_CHANNEL
    ensures After(s, rs).mem[70] == s.mem[70]
    decreases |rs|
  {
    if rs != [] {
      ChannelKept(s, rs[0]);
      ChannelStays(Effect(s, rs[0]), rs[1..]);
    }
  }

  /**
   * What a scalar set leaves in the record, byte by byte: nothing for the transmit power, byte 70 for the channel, the
   * value at the start of the row for an accepted attribute, and nothing for anything else.
   */
  ghost predicate WrittenRight(before: seq<byte>, after: seq<byte>, attr: byte, value: seq<byte>, len: byte, ok: bool)
    requires |before| == |after| == PIB_SIZE && len <= |value|
  {
    if attr == 0x5F then ok && after == before
    else if attr == 0x00 then ok && value != [] && after == before[70 := value[0]]
    else if attr < 0x40 || attr > 0x7F || attr in [0x71, 0x73, 0x75] then !ok && after == before
    else
      var row := if attr > 0x70 then attr - 0x51 else attr - 0x40;
      row < ROWS && (ok <==> len <= PibTable(row).len) && CopiedTo(before, after, Start(row), if ok then value[..len] else [])
  }

  ghost predicate CopiedTo(before: seq<byte>, after: seq<byte>, at: nat, bytes: seq<byte>)
    requires |before| == |after|
  {
    forall i :: 0 <= i < |before| ==> after[i] == if at <= i < at + |bytes| then bytes[i - at] else before[i]
  }

  lemma ChannelWritten(mem: seq<byte>, value: seq<byte>)
    requires |mem| == PIB_SIZE && value != []
    ensures Overwrite(mem, FieldOffset(PhyChannelCur), value[..1]) == mem[70 := value[0]]
  {
    ChannelPlace();
    var a, b := Overwrite(mem, 70, value[..1]), mem[70 := value[0]];
    assert forall i :: 0 <= i < PIB_SIZE ==> a[i] == b[i];
  }

  lemma RowWritten(mem: seq<byte>, q: SetReq, row: nat)
    requires |mem| == PIB_SIZE && Proper(q) && InRange(q.attr) && !TableAttr(q.attr) && q.attr != TX_POWER && row == SetRow(q.attr)
    ensures Accepted(q) <==> q.len <= PibTable(row).len
    ensures CopiedTo(mem, SetEffect(mem, q), Start(row), if Accepted(q) then q.value[..q.len] else [])
  {
  }

  lemma EffectWritesRight(mem: seq<byte>, q: SetReq)
    requires |mem| == PIB_SIZE && Proper(q)
    ensures WrittenRight(mem, SetEffect(mem, q), q.attr, q.value, q.len, Accepted(q))
  {
    if q.attr == PHY_CURRENT_CHANNEL {
      ChannelWritten(mem, q.value);
    } else if InRange(q.attr) && !TableAttr(q.attr) && q.attr != TX_POWER {
      RowWritten(mem, q, SetRow(q.attr));
    }
  }

  /** The transmit power that a request asks for. */
  function Power(q: SetReq): byte
    requires Proper(q) && q.attr == TX_POWER
  {
    if q.value[0] > 11 then 11 else q.value[0]
  }

  /** While table requests find the tables in order, no request of any kind writes the record's transmit power. */
  lemma {:induction false} PowerNeverWritten(s: Live, rs: seq<Request>)
    requires Governed(s, rs)
    ensures RowBytes(After(s, rs).mem, GetRow(TX_POWER)) == RowBytes(s.mem, GetRow(TX_POWER))
    decreases |rs|
  {
    if rs != [] {
      RowsAreIndependent(s, rs[0], GetRow(TX_POWER));
      PowerNeverWritten(Effect(s, rs[0]), rs[1..]);
    }
  }

  /** So after such a run that includes a set of the transmit power, get returns that value exactly when the record held it from the start. */
  lemma PowerReadBack(s: Live, before: seq<Request>, q: SetReq, later: seq<Request>)
    requires Proper(q) && q.attr == TX_POWER && Governed(s, before + [Scalar(q)] + later)
    ensures RowBytes(After(s, before + [Scalar(q)] + later).mem, GetRow(TX_POWER)) == [Power(q)]
       <==> RowBytes(s.mem, GetRow(TX_POWER)) == [Power(q)]
  {
    PowerNeverWritten(s, before + [Scalar(q)] + later);
  }

  // ---------------------------------------------------------------- the tables' own bytes

  /** What the record holds of the security tables: for each a list pointer and an entry count. */
  datatype TableBytes = TableBytes(keyList: seq<byte>, keys: seq<byte>, devList: seq<byte>, devices: seq<byte>, lvlList: seq<byte>, levels: seq<byte>)

  /** The bytes of row `i` among them. */
  function Part(t: TableBytes, i: nat): seq<byte> {
    if i == 32 then t.keyList else if i == 33 then t.keys else if i == 34 then t.devList
    else if i == 35 then t.devices else if i == 36 then t.lvlList else t.levels
  }

  ghost predicate RowIs(mem: seq<byte>, i: nat, v: seq<byte>)
    requires |mem| == PIB_SIZE && i < ROWS
  {
    RowBytes(mem, i) == v
  }

  ghost predicate TablesAre(mem: seq<byte>, t: TableBytes)
    requires |mem| == PIB_SIZE
  {
    forall i :: 32 <= i < 38 ==> RowIs(mem, i, Part(t, i))
  }

  /** The identifiers through which a scalar set reaches those bytes. */
  predicate RawTable(attr: byte) {
    0x60 <= attr <= 0x65 || attr in [0x72, 0x74, 0x76]
  }

  lemma RawRows(attr: byte)
    requires InRange(attr) && !TableAttr(attr)
    ensures 32 <= SetRow(attr) < 38 <==> RawTable(attr)
  {
  }

  /** A scalar set that changes a table's pointer or entry count under its feet. */
  predicate Harmful(mem: seq<byte>, q: SetReq)
    requires |mem| == PIB_SIZE && ProperRequest(Scalar(q))
  {
    RawTable(q.attr) && q.len <= PibTable(SetRow(q.attr)).len && q.value[..q.len] != RowBytes(mem, SetRow(q.attr))[..q.len]
  }

  lemma RowSurvives(mem: seq<byte>, q: SetReq, i: nat)
    requires |mem| == PIB_SIZE && ProperRequest(Scalar(q)) && i < ROWS && 32 <= i < 38
    ensures RowBytes(SetEffect(mem, q), i) == RowBytes(mem, i) <==> !(Harmful(mem, q) && SetRow(q.attr) == i)
  {
    ScalarRow(mem, q, i);
    if InRange(q.attr) && SetRow(q.attr) == i && q.len <= PibTable(i).len {
      RawRows(q.attr);
      SplicedEqual(RowBytes(mem, i), q.value[..q.len]);
    }
  }

  /** A scalar set leaves the tables' bytes as they are exactly when it is not harmful. */
  lemma TablesSurvive(mem: seq<byte>, q: SetReq, t: TableBytes)
    requires |mem| == PIB_SIZE && ProperRequest(Scalar(q)) && TablesAre(mem, t)
    ensures TablesAre(SetEffect(mem, q), t) <==> !Harmful(mem, q)
  {
    forall i | 32 <= i < 38
      ensures RowIs(SetEffect(mem, q), i, Part(t, i)) <==> !(Harmful(mem, q) && SetRow(q.attr) == i)
    {
      assert RowIs(mem, i, Part(t, i));
      RowSurvives(mem, q, i);
    }
    if Harmful(mem, q) {
      RawRows(q.attr);
      assert !RowIs(SetEffect(mem, q), SetRow(q.attr), Part(t, SetRow(q.attr)));
    }
  }

  /** Through each of the raw identifiers some set does harm, whatever the record holds. */
  lemma RawIdentifiersHarm(mem: seq<byte>, attr: byte) returns (q: SetReq)
    requires |mem| == PIB_SIZE && RawTable(attr)
    ensures ProperRequest(Scalar(q)) && q.attr == attr && Harmful(mem, q)
  {
    RawRows(attr);
    RowsRight(SetRow(attr));
    var held := RowBytes(mem, SetRow(attr))[0];
    var other: byte := if held == 0 then 1 else 0;
    q := SetReq(attr, [other], 1);
    assert RowBytes(mem, SetRow(attr))[..1][0] == held && q.value[..q.len][0] == other;
  }

  lemma CountRowAfter(mem: seq<byte>, attr: byte, n: byte, i: nat)
    requires |mem| == PIB_SIZE && TableAttr(attr) && i < ROWS
    ensures RowBytes(WithCount(mem, attr, n), i) == if i == CountRow(attr) then [n] else RowBytes(mem, i)
  {
    if i == CountRow(attr) {
      CountHere(mem, attr, n);
    } else {
      CountElsewhere(mem, attr, n, i);
    }
  }

  function WithTableCount(t: TableBytes, attr: byte, n: byte): TableBytes {
    if attr == KEY_TABLE then t.(keys := [n]) else if attr == DEVICE_TABLE then t.(devices := [n]) else t.(levels := [n])
  }

  /** Writing one table's count leaves the rest of the tables' bytes alone. */
  lemma CountTables(mem: seq<byte>, t: TableBytes, attr: byte, n: byte)
    requires |mem| == PIB_SIZE && TableAttr(attr) && TablesAre(mem, t)
    ensures TablesAre(WithCount(mem, attr, n), WithTableCount(t, attr, n))
  {
    forall i | 32 <= i < 38
      ensures RowIs(WithCount(mem, attr, n), i, Part(WithTableCount(t, attr, n), i))
    {
      assert RowIs(mem, i, Part(t, i));
      CountRowAfter(mem, attr, n, i);
    }
  }

  /** The count read from the record is the one byte of its row. */
  lemma CountIs(mem: seq<byte>, t: TableBytes, attr: byte)
    requires |mem| == PIB_SIZE && TableAttr(attr) && TablesAre(mem, t)
    ensures [EntryCount(mem, attr)] == Part(t, CountRow(attr)) == RowBytes(mem, CountRow(attr))
  {
    CountHere(mem, attr, 0);
    assert RowIs(mem, CountRow(attr), Part(t, CountRow(attr)));
  }

  /** All three counts at once, as bytes and as rows read by a get. */
  lemma CountsAre(mem: seq<byte>, t: TableBytes, keys: byte, devices: byte, levels: byte)
    requires |mem| == PIB_SIZE && TablesAre(mem, t) && t.keys == [keys] && t.devices == [devices] && t.levels == [levels]
    ensures EntryCount(mem, KEY_TABLE) == keys && EntryCount(mem, DEVICE_TABLE) == devices && EntryCount(mem, SECURITY_LEVEL_TABLE) == levels
    ensures RowBytes(mem, 33) == [keys] && RowBytes(mem, 35) == [devices] && RowBytes(mem, 37) == [levels]
  {
    CountIs(mem, t, KEY_TABLE);
    CountIs(mem, t, DEVICE_TABLE);
    CountIs(mem, t, SECURITY_LEVEL_TABLE);
  }

  lemma PointerRow(row: nat)
    requires row in [32, 34, 36]
    ensures PibTable(row).len == 4
  {
    assert PibTable(32).len == 4 && PibTable(34).len == 4 && PibTable(36).len == 4;
  }

  lemma PointerAfter(mem: seq<byte>, row: nat, list: seq<byte>, i: nat)
    requires |mem| == PIB_SIZE && row in [32, 34, 36] && |list| == 4 && i < ROWS
    ensures PibTable(row).len == 4
    ensures RowBytes(Overwrite(mem, Start(row), list), i) == if i == row then list else RowBytes(mem, i)
  {
    PointerRow(row);
    if i == row {
      OverwriteWithin(mem, Start(row), list, 4);
    } else {
      RowsDisjoint(row, i);
      OverwriteElsewhere(mem, Start(row), list, Start(i), PibTable(i).len);
    }
  }

  function WithPointer(t: TableBytes, row: nat, list: seq<byte>): TableBytes {
    if row == 32 then t.(keyList := list) else if row == 34 then t.(devList := list) else t.(lvlList := list)
  }

  lemma PartWithPointer(t: TableBytes, row: nat, list: seq<byte>, i: nat)
    requires row in [32, 34, 36] && 32 <= i < 38
    ensures Part(WithPointer(t, row, list), i) == if i == row then list else Part(t, i)
  {
  }

  lemma PointerWritten(mem: seq<byte>, row: nat, list: seq<byte>, t: TableBytes)
    requires |mem| == PIB_SIZE && row in [32, 34, 36] && |list| == 4 && TablesAre(mem, t)
    ensures PibTable(row).len == 4
    ensures TablesAre(Overwrite(mem, Start(row), list), WithPointer(t, row, list))
  {
    PointerRow(row);
    forall i | 32 <= i < 38
      ensures RowIs(Overwrite(mem, Start(row), list), i, Part(WithPointer(t, row, list), i))
    {
      assert RowIs(mem, i, Part(t, i));
      PartWithPointer(t, row, list, i);
      PointerAfter(mem, row, list, i);
    }
  }

  lemma ZeroTables(mem: seq<byte>)
    requires |mem| == PIB_SIZE && forall i :: 0 <= i < PIB_SIZE ==> mem[i] == 0
    ensures var z := [0, 0, 0, 0]; TablesAre(mem, TableBytes(z, [0], z, [0], z, [0]))
  {
    var z := [0, 0, 0, 0];
    forall i | 32 <= i < 38
      ensures RowIs(mem, i, Part(TableBytes(z, [0], z, [0], z, [0]), i))
    {
      if i in [32, 34, 36] {
        PointerRow(i);
      } else {
        CountPlace(if i == 33 then KEY_TABLE else if i == 35 then DEVICE_TABLE else SECURITY_LEVEL_TABLE);
      }
    }
  }

  // ---------------------------------------------------------------- the record in memory

  class PibRecord {
    const mem: array<byte>
    var radioTxPower: byte

    /** A cleared record that points to the three lists. */
    constructor (keyList: seq<byte>, devList: seq<byte>, lvlList: seq<byte>)
      requires |keyList| == |devList| == |lvlList| == 4
      ensures Valid() && fresh(mem)
      ensures TablesAre(mem[..], TableBytes(keyList, [0], devList, [0], lvlList, [0]))
      ensures EntryCount(mem[..], KEY_TABLE) == EntryCount(mem[..], DEVICE_TABLE) == EntryCount(mem[..], SECURITY_LEVEL_TABLE) == 0
    {
      mem := new byte[PIB_SIZE](i => 0);
      radioTxPower := 0;
      new;
      ghost var z := [0, 0, 0, 0];
      ZeroTables(mem[..]);
      SetPointer(32, keyList, TableBytes(z, [0], z, [0], z, [0]));
      SetPointer(34, devList, TableBytes(keyList, [0], z, [0], z, [0]));
      SetPointer(36, lvlList, TableBytes(keyList, [0], devList, [0], z, [0]));
      CountsAre(mem[..], TableBytes(keyList, [0], devList, [0], lvlList, [0]), 0, 0, 0);
    }

    method SetPointer(row: nat, list: seq<byte>, ghost t: TableBytes)
      requires Valid() && row in [32, 34, 36] && |list| == 4 && TablesAre(mem[..], t)
      modifies mem
      ensures TablesAre(mem[..], WithPointer(t, row, list))
    {
      PointerWritten(mem[..], row, list, t);
      CopyIn(Start(row), list);
    }

    ghost predicate Valid() {
      mem.Length == PIB_SIZE
    }

    /** memcpy into the record. */
    method CopyIn(at: nat, bytes: seq<byte>)
      requires Valid() && at + |bytes| <= PIB_SIZE
      modifies mem
      ensures mem[..] == Overwrite(old(mem[..]), at, bytes)
    {
      for i := 0 to |bytes|
        invariant forall k :: 0 <= k < mem.Length ==> mem[k] == if at <= k < at + i then bytes[k - at] else old(mem[k])
      {
        mem[at + i] := bytes[i];
      }
    }

    method Count(attr: byte) returns (n: byte)
      requires Valid() && TableAttr(attr)
      ensures n == EntryCount(mem[..], attr)
    {
      n := mem[CountOffset(attr)];
    }

    /** The entry count of a table is a byte of the record. */
    method SetCount(attr: byte, n: byte)
      requires Valid() && TableAttr(attr)
      modifies mem
      ensures mem[..] == WithCount(old(mem[..]), attr, n)
    {
      mem[CountOffset(attr)] := n;
    }

    /** The part of the set routine that is not about tables. */
    method SetScalar(q: SetReq) returns (ok: bool)
      requires Valid() && Proper(q)
      modifies this, mem
      ensures ok == Accepted(q) && mem[..] == SetEffect(old(mem[..]), q)
      ensures WrittenRight(old(mem[..]), mem[..], q.attr, q.value, q.len, ok)
      ensures radioTxPower == if q.attr != TX_POWER then old(radioTxPower) else if q.value[0] > 11 then 11 else q.value[0]
    {
      EffectWritesRight(mem[..], q);
      if q.attr == TX_POWER {
        radioTxPower := if q.value[0] > 11 then 11 else q.value[0];
        return true;
      } else if q.attr == PHY_CURRENT_CHANNEL {
        CopyIn(FieldOffset(PhyChannelCur), q.value[..1]);
        return true;
      }
      if q.attr > ATTRIBUTE_STOP || q.attr < ATTRIBUTE_START || TableAttr(q.attr) {
        return false;
      }
      var offset := if q.attr >= KEY_TABLE then KEY_TABLE - TX_POWER - 1 else 0;
      var i := q.attr - ATTRIBUTE_START - offset;
      assert i == SetRow(q.attr);
      var len := PibTable(i).len;
      ok := q.len <= len;
      if ok {
        CopyIn(Start(i), q.value[..q.len]);
      }
    }

    method GetScalar(attr: byte) returns (ok: bool, value: seq<byte>, len: byte)
      requires Valid() && (InRange(attr) ==> !TableAttr(attr) && GetRow(attr) < ROWS)
      ensures ok <==> attr == PHY_CURRENT_CHANNEL || InRange(attr)
      ensures attr == 0x00 ==> value == [mem[70]] && len == 1
      ensures 0x40 <= attr < 0x71 ==>
                var row := attr - 0x40;
                && |value| == PibTable(row).len && (forall k :: 0 <= k < |value| ==> value[k] == mem[Start(row) + k])
                && len == if attr == 0x45 && mem[51] <= PibTable(row).len then mem[51] else PibTable(row).len
      ensures InRange(attr) ==> value == RowBytes(mem[..], GetRow(attr)) && len == ReportedLen(mem[..], attr)
    {
      if attr == PHY_CURRENT_CHANNEL {
        ChannelPlace();
        return true, [mem[FieldOffset(PhyChannelCur)]], 1;
      }
      if attr > ATTRIBUTE_STOP || attr < ATTRIBUTE_START {
        return false, [], 0;
      }
      ok := true;
      value := ReadRow(attr - ATTRIBUTE_START);
      len := ReadLen(attr);
    }

    method ReadRow(i: nat) returns (value: seq<byte>)
      requires Valid() && i < ROWS
      ensures value == RowBytes(mem[..], i)
      ensures |value| == PibTable(i).len && forall k :: 0 <= k < |value| ==> value[k] == mem[Start(i) + k]
    {
      value := mem[Start(i)..Start(i) + PibTable(i).len];
    }

    /** The row's length, but for the beacon payload no more than is stored. */
    method ReadLen(attr: byte) returns (len: byte)
      requires Valid() && InRange(attr) && GetRow(attr) < ROWS
      ensures len == ReportedLen(mem[..], attr)
      ensures len == var full := PibTable(attr - 0x40).len; if attr == 0x45 && mem[51] <= full then mem[51] else full
    {
      ChannelPlace();
      len := PibTable(attr - ATTRIBUTE_START).len;
      var stored := mem[FieldOffset(BeaconPayloadLen)];
      if attr == BEACON_PAYLOAD && stored <= len {
        len := stored;
      }
    }
  }
}
