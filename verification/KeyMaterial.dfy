/** Conservation of the four pools behind the key table over whole runs, and what sharing nodes does to it. */
module KeyMaterial {
  import opened Bits
  import opened TnMem
  import opened SecTables
  import opened RawLists
  import opened KeyLists
  import opened KeyStore

  /** For the proof: who has the nodes of each kind. */
  datatype Shares = Shares(lookups: Owners, keyDevs: Owners, usages: Owners)

  /** A key in the table has its sublists set up; a key has sublists only while its slot is in use. */
  ghost predicate KeyLive(m: Mark, live: bool) {
    match m case Vacant => !live case Held => true case Listed(_) => live
  }

  /** The sublists are well kept: no node is in two of them. */
  ghost predicate Tidy(a: Snapshot, m: Shares) {
    && Safe(a) && Represents(a.subs.lookups, m.lookups) && Represents(a.subs.keyDevs, m.keyDevs) && Represents(a.subs.usages, m.usages)
    && m.lookups.live == m.keyDevs.live == m.usages.live
    && forall k :: 0 <= k < |a.keys.mark| ==> KeyLive(a.keys.mark[k], m.lookups.live[k])
  }

  /** In each of the four pools: vacant + held + in a table or list = capacity. */
  ghost predicate Balanced(a: Snapshot, m: Shares) {
    && |SlotsOf(a.keys.mark, Vacant)| + |SlotsOf(a.keys.mark, Held)| + |a.keys.spine| == |a.keys.mark|
    && |SlotsOf(m.lookups.mark, Vacant)| + |SlotsOf(m.lookups.mark, Held)| + Total(m.lookups.spines) == |a.subs.lookups.used|
    && |SlotsOf(m.keyDevs.mark, Vacant)| + |SlotsOf(m.keyDevs.mark, Held)| + Total(m.keyDevs.spines) == |a.subs.keyDevs.used|
    && |SlotsOf(m.usages.mark, Vacant)| + |SlotsOf(m.usages.mark, Held)| + Total(m.usages.spines) == |a.subs.usages.used|
  }

  lemma TidyBalanced(a: Snapshot, m: Shares)
    requires Tidy(a, m)
    ensures Balanced(a, m)
  {
    TableConserved(a.keys);
    ListsConserved(a.subs.lookups, m.lookups);
    ListsConserved(a.subs.keyDevs, m.keyDevs);
    ListsConserved(a.subs.usages, m.usages);
  }

  // ---------------------------------------------------------------- steps

  datatype Act =
    | AllocKey(k: int)
    | AllocLookup(n: int) | AllocKeyDev(n: int) | AllocUsage(n: int)
    | Describe(k: int, ids: seq<int>, devs: seq<int>, uses: seq<int>)
    | SetKeyAt(index: byte, value: int, ok: bool)
    | DelKeyAt(index: byte, ok: bool)

  ghost predicate Taken(a: Raw, b: Raw, n: int) {
    0 <= n < |a.used| && !a.used[n] && b == a.(used := a.used[n := true])
  }

  ghost predicate Described(a: Sublists, b: Sublists, k: nat, ids: seq<int>, devs: seq<int>, uses: seq<int>) {
    SetUp(a.lookups, b.lookups, k, ids) && SetUp(a.keyDevs, b.keyDevs, k, devs) && SetUp(a.usages, b.usages, k, uses)
  }

  /** What each operation on the store does; the methods of `Store` promise these steps. */
  ghost predicate Does(a: Snapshot, act: Act, b: Snapshot) {
    && Safe(a) && Safe(b)
    && match act
       case AllocKey(k) => 0 <= k < |a.keys.mark| && a.keys.mark[k] == Vacant && b == a.(keys := a.keys.(mark := a.keys.mark[k := Held]))
       case AllocLookup(n) => Taken(a.subs.lookups, b.subs.lookups, n) && b == a.(subs := a.subs.(lookups := b.subs.lookups))
       case AllocKeyDev(n) => Taken(a.subs.keyDevs, b.subs.keyDevs, n) && b == a.(subs := a.subs.(keyDevs := b.subs.keyDevs))
       case AllocUsage(n) => Taken(a.subs.usages, b.subs.usages, n) && b == a.(subs := a.subs.(usages := b.subs.usages))
       case Describe(k, ids, devs, uses) =>
         0 <= k < |a.keys.mark| && a.keys.mark[k] == Held && b.keys == a.keys && Described(a.subs, b.subs, k, ids, devs, uses)
       case SetKeyAt(index, value, ok) => 0 <= value < |a.keys.mark| && a.keys.mark[value] == Held && KeySet(a, b, index, value, ok)
       case DelKeyAt(index, ok) => KeyDeleted(a, b, index, ok)
  }

  /** Every key slot has its part in each of the three shares. */
  ghost predicate Fits(a: Snapshot, m: Shares) {
    && |a.keys.mark| == |m.lookups.live| == |m.lookups.spines| == |m.keyDevs.live| == |m.keyDevs.spines| == |m.usages.live| == |m.usages.spines|
    && |m.lookups.mark| == |a.subs.lookups.used| && |m.keyDevs.mark| == |a.subs.keyDevs.used| && |m.usages.mark| == |a.subs.usages.used|
  }

  /** The key slot an act is about, where it names one. */
  ghost predicate InRange(a: Snapshot, act: Act) {
    match act
    case Describe(k, _, _, _) => 0 <= k < |a.keys.mark|
    case SetKeyAt(_, value, _) => 0 <= value < |a.keys.mark|
    case _ => true
  }

  /** The caller's part: a key is described once, with nodes it holds, and set only when described. */
  ghost predicate Careful(a: Snapshot, m: Shares, act: Act)
    requires Fits(a, m) && InRange(a, act)
  {
    match act
    case Describe(k, ids, devs, uses) =>
      !m.lookups.live[k] && AllHeld(m.lookups.mark, ids) && AllHeld(m.keyDevs.mark, devs) && AllHeld(m.usages.mark, uses)
    case SetKeyAt(_, value, _) => m.lookups.live[value]
    case _ => true
  }

  ghost function RetireAll(m: Shares, k: nat): Shares
    requires k < |m.lookups.live| == |m.lookups.spines| && k < |m.keyDevs.live| == |m.keyDevs.spines| && k < |m.usages.live| == |m.usages.spines|
  {
    Shares(Retired(m.lookups, k), Retired(m.keyDevs, k), Retired(m.usages, k))
  }

  /** Who has which node after a step. */
  ghost function After(a: Snapshot, m: Shares, act: Act, b: Snapshot): Shares
    requires Fits(a, m) && Does(a, act, b)
  {
    match act
    case AllocKey(k) => m
    case AllocLookup(n) => m.(lookups := Remarked(m.lookups, n, Held))
    case AllocKeyDev(n) => m.(keyDevs := Remarked(m.keyDevs, n, Held))
    case AllocUsage(n) => m.(usages := Remarked(m.usages, n, Held))
    case Describe(k, ids, devs, uses) => Shares(Given(m.lookups, k, ids), Given(m.keyDevs, k, devs), Given(m.usages, k, uses))
    case SetKeyAt(index, _, _) => if index < |a.keys.spine| then RetireAll(m, a.keys.spine[index]) else m
    case DelKeyAt(index, _) => if index < |a.keys.spine| then RetireAll(m, a.keys.spine[index]) else m
  }

  lemma ReleaseAllTidy(a: Snapshot, m: Shares, k: nat)
    requires Tidy(a, m) && k < |a.keys.mark| && m.lookups.live[k]
    ensures var u, q := ReleaseAll(a.subs, k), RetireAll(m, k);
            && Represents(u.lookups, q.lookups) && Represents(u.keyDevs, q.keyDevs) && Represents(u.usages, q.usages)
            && FreedAll(a.subs, k) == a.subs.lookups.entries[k] as int + a.subs.keyDevs.entries[k] as int + a.subs.usages.entries[k] as int
  {
    ReleaseRepresents(a.subs.lookups, m.lookups, k);
    ReleaseRepresents(a.subs.keyDevs, m.keyDevs, k);
    ReleaseRepresents(a.subs.usages, m.usages, k);
  }

  lemma TakeTidy(a: Raw, b: Raw, o: Owners, n: int)
    requires Represents(a, o) && Taken(a, b, n)
    ensures Represents(b, Remarked(o, n, Held))
  {
    RemarkRepresents(a, o, n, Held);
  }

  /** The key that a set or delete addresses is in the table, so it has its sublists. */
  lemma ListedLive(a: Snapshot, m: Shares, index: nat)
    requires Tidy(a, m) && index < |a.keys.spine|
    ensures var k := a.keys.spine[index]; 0 <= k < |a.keys.mark| && a.keys.mark[k] == Listed(0) && m.lookups.live[k]
  {
    var k := a.keys.spine[index];
    assert KeyLive(a.keys.mark[k], m.lookups.live[k]);
  }

  lemma LiveAfter(a: Snapshot, m: Shares, b: Snapshot, live: seq<bool>)
    requires Tidy(a, m) && |b.keys.mark| == |a.keys.mark| == |live|
    requires forall k :: 0 <= k < |live| ==> (b.keys.mark[k] == a.keys.mark[k] && live[k] == m.lookups.live[k]) || KeyLive(b.keys.mark[k], live[k])
    ensures forall k :: 0 <= k < |live| ==> KeyLive(b.keys.mark[k], live[k])
  {
    forall k | 0 <= k < |live|
      ensures KeyLive(b.keys.mark[k], live[k])
    {
      assert KeyLive(a.keys.mark[k], m.lookups.live[k]);
    }
  }

  lemma DescribeTidy(a: Snapshot, m: Shares, act: Act, b: Snapshot)
    requires Tidy(a, m) && Does(a, act, b) && act.Describe? && Careful(a, m, act)
    ensures Tidy(b, After(a, m, act, b))
  {
    SetUpRepresents(a.subs.lookups, b.subs.lookups, m.lookups, act.k, act.ids);
    SetUpRepresents(a.subs.keyDevs, b.subs.keyDevs, m.keyDevs, act.k, act.devs);
    SetUpRepresents(a.subs.usages, b.subs.usages, m.usages, act.k, act.uses);
    LiveAfter(a, m, b, m.lookups.live[act.k := true]);
  }

  lemma SetTidy(a: Snapshot, m: Shares, act: Act, b: Snapshot)
    requires Tidy(a, m) && Does(a, act, b) && act.SetKeyAt? && Careful(a, m, act)
    ensures Tidy(b, After(a, m, act, b))
  {
    if act.index < |a.keys.spine| {
      var k := a.keys.spine[act.index];
      ListedLive(a, m, act.index);
      ReleaseAllTidy(a, m, k);
      LiveAfter(a, m, b, m.lookups.live[k := false]);
    } else {
      LiveAfter(a, m, b, m.lookups.live);
    }
  }

  lemma DelTidy(a: Snapshot, m: Shares, act: Act, b: Snapshot)
    requires Tidy(a, m) && Does(a, act, b) && act.DelKeyAt?
    ensures Tidy(b, After(a, m, act, b))
  {
    if act.index < |a.keys.spine| {
      var k := a.keys.spine[act.index];
      ListedLive(a, m, act.index);
      ReleaseAllTidy(a, m, k);
      LiveAfter(a, m, b, m.lookups.live[k := false]);
    }
  }

  lemma StepTidy(a: Snapshot, m: Shares, act: Act, b: Snapshot)
    requires Tidy(a, m) && Does(a, act, b) && Careful(a, m, act)
    ensures Tidy(b, After(a, m, act, b))
  {
    match act
    case AllocKey(k) => LiveAfter(a, m, b, m.lookups.live);
    case AllocLookup(n) => TakeTidy(a.subs.lookups, b.subs.lookups, m.lookups, n);
    case AllocKeyDev(n) => TakeTidy(a.subs.keyDevs, b.subs.keyDevs, m.keyDevs, n);
    case AllocUsage(n) => TakeTidy(a.subs.usages, b.subs.usages, m.usages, n);
    case Describe(_, _, _, _) => DescribeTidy(a, m, act, b);
    case SetKeyAt(_, _, _) => SetTidy(a, m, act, b);
    case DelKeyAt(_, _) => DelTidy(a, m, act, b);
  }

  // ---------------------------------------------------------------- runs

  /** `run` are the states a sequence of acts passes through, each act careful by the shares of its state. */
  ghost predicate CarefulRun(run: seq<Snapshot>, acts: seq<Act>, m: Shares)
    decreases |acts|
  {
    && |run| == |acts| + 1
    && (acts != [] ==>
          && Fits(run[0], m) && Does(run[0], acts[0], run[1]) && Careful(run[0], m, acts[0])
          && CarefulRun(run[1..], acts[1..], After(run[0], m, acts[0], run[1])))
  }

  ghost predicate SameCapacity(a: Snapshot, b: Snapshot) {
    && |b.keys.mark| == |a.keys.mark| && |b.subs.lookups.used| == |a.subs.lookups.used|
    && |b.subs.keyDevs.used| == |a.subs.keyDevs.used| && |b.subs.usages.used| == |a.subs.usages.used|
  }

  lemma StepCapacity(a: Snapshot, act: Act, b: Snapshot)
    requires Does(a, act, b)
    ensures SameCapacity(a, b)
  {
  }

  /** Whatever careful operations are run from a tidy state, the last state is tidy and each of its pools is conserved. */
  lemma {:induction false} RunConserved(run: seq<Snapshot>, acts: seq<Act>, m: Shares) returns (last: Shares)
    requires CarefulRun(run, acts, m) && Tidy(run[0], m)
    ensures Tidy(run[|run| - 1], last) && Balanced(run[|run| - 1], last) && SameCapacity(run[0], run[|run| - 1])
    decreases |acts|
  {
    if acts == [] {
      last := m;
      TidyBalanced(run[0], m);
    } else {
      StepTidy(run[0], m, acts[0], run[1]);
      StepCapacity(run[0], acts[0], run[1]);
      last := RunConserved(run[1..], acts[1..], After(run[0], m, acts[0], run[1]));
    }
  }

  // ---------------------------------------------------------------- from a new store

  ghost function NobodyYet(num: nat): Owners {
    Owners(seq(MAC_KEY_TABLE_MAX_LEN, i => []), seq(num, i => Vacant), seq(MAC_KEY_TABLE_MAX_LEN, i => false))
  }

  ghost function NoShares(): Shares {
    Shares(NobodyYet(MAC_KEYID_LOOKUP_TABLE_MAX_LEN), NobodyYet(MAC_KEY_DEV_TABLE_MAX_LEN), NobodyYet(MAC_KEY_USAGE_TABLE_MAX_LEN))
  }

  lemma EmptyRepresents(num: nat)
    requires num <= 255
    ensures Represents(EmptyRaw(num, MAC_KEY_TABLE_MAX_LEN), NobodyYet(num))
  {
    var r, o := EmptyRaw(num, MAC_KEY_TABLE_MAX_LEN), NobodyYet(num);
    assert forall k, n :: NodeOk(o, k, n);
    assert r.used == Busy(o.mark);
  }

  /** What the constructor of the store leaves is tidy, with every node vacant. */
  lemma NewStoreTidy(a: Snapshot)
    requires Consistent(a.keys) && a.keys.mark == seq(MAC_KEY_TABLE_MAX_LEN, i => Vacant) && a.subs == EmptySubs()
    ensures Tidy(a, NoShares())
  {
    EmptyRepresents(MAC_KEYID_LOOKUP_TABLE_MAX_LEN);
    EmptyRepresents(MAC_KEY_DEV_TABLE_MAX_LEN);
    EmptyRepresents(MAC_KEY_USAGE_TABLE_MAX_LEN);
  }

  // The operations of the store are the steps above.

  method TakeKey(store: Store, ghost m: Shares) returns (k: int)
    requires store.Valid() && Tidy(store.State(), m) && SlotsOf(store.keys.st.mark, Vacant) != {}
    modifies store.keys`st, store.keys.pool`count
    ensures store.Valid() && Does(old(store.State()), AllocKey(k), store.State()) && Tidy(store.State(), m)
  {
    ghost var a := store.State();
    k := store.keys.Alloc();
    StepTidy(a, m, AllocKey(k), store.State());
  }

  method TakeLookup(store: Store, ghost m: Shares) returns (n: int)
    requires store.Valid() && Tidy(store.State(), m) && Spare(store.lookups.pool.count)
    modifies store.lookups.pool`count
    ensures store.Valid() && Does(old(store.State()), AllocLookup(n), store.State())
    ensures Tidy(store.State(), m.(lookups := Remarked(m.lookups, n, Held)))
  {
    ghost var a := store.State();
    n := store.lookups.Alloc();
    StepTidy(a, m, AllocLookup(n), store.State());
  }

  method TakeKeyDev(store: Store, ghost m: Shares) returns (n: int)
    requires store.Valid() && Tidy(store.State(), m) && Spare(store.keyDevs.pool.count)
    modifies store.keyDevs.pool`count
    ensures store.Valid() && Does(old(store.State()), AllocKeyDev(n), store.State())
    ensures Tidy(store.State(), m.(keyDevs := Remarked(m.keyDevs, n, Held)))
  {
    ghost var a := store.State();
    n := store.keyDevs.Alloc();
    StepTidy(a, m, AllocKeyDev(n), store.State());
  }

  method TakeUsage(store: Store, ghost m: Shares) returns (n: int)
    requires store.Valid() && Tidy(store.State(), m) && Spare(store.usages.pool.count)
    modifies store.usages.pool`count
    ensures store.Valid() && Does(old(store.State()), AllocUsage(n), store.State())
    ensures Tidy(store.State(), m.(usages := Remarked(m.usages, n, Held)))
  {
    ghost var a := store.State();
    n := store.usages.Alloc();
    StepTidy(a, m, AllocUsage(n), store.State());
  }

  ghost predicate Spare(count: seq<bool>) {
    exists i :: 0 <= i < |count| && !count[i]
  }

  method DescribeKey(store: Store, ghost m: Shares, k: int, ids: seq<int>, devs: seq<int>, uses: seq<int>)
    requires store.Valid() && Tidy(store.State(), m) && store.keys.Holds(k) && Distinct(ids) && Distinct(devs) && Distinct(uses)
    requires !m.lookups.live[k] && AllHeld(m.lookups.mark, ids) && AllHeld(m.keyDevs.mark, devs) && AllHeld(m.usages.mark, uses)
    modifies store.lookups, store.lookups.pool`next, store.keyDevs, store.keyDevs.pool`next, store.usages, store.usages.pool`next
    ensures store.Valid() && Does(old(store.State()), Describe(k, ids, devs, uses), store.State())
    ensures Tidy(store.State(), Shares(Given(m.lookups, k, ids), Given(m.keyDevs, k, devs), Given(m.usages, k, uses)))
  {
    ghost var a := store.State();
    store.SetMaterial(k, ids, devs, uses);
    StepTidy(a, m, Describe(k, ids, devs, uses), store.State());
  }

  method PutKey(store: Store, ghost m: Shares, index: byte, value: int) returns (ok: bool)
    requires store.Valid() && Tidy(store.State(), m) && store.keys.Holds(value) && m.lookups.live[value]
    modifies store.keys, store.keys.pool, store.lookups, store.lookups.pool, store.keyDevs, store.keyDevs.pool, store.usages, store.usages.pool
    ensures store.Valid() && Does(old(store.State()), SetKeyAt(index, value, ok), store.State())
    ensures Tidy(store.State(), After(old(store.State()), m, SetKeyAt(index, value, ok), store.State()))
    ensures index >= |old(store.keys.st.spine)| ==> Tidy(store.State(), m)
  {
    ghost var a := store.State();
    ok := store.SetKey(index, value);
    StepTidy(a, m, SetKeyAt(index, value, ok), store.State());
  }

  method DropKey(store: Store, ghost m: Shares, index: byte) returns (ok: bool)
    requires store.Valid() && Tidy(store.State(), m)
    modifies store.keys, store.keys.pool, store.lookups, store.lookups.pool, store.keyDevs, store.keyDevs.pool, store.usages, store.usages.pool
    ensures store.Valid() && Does(old(store.State()), DelKeyAt(index, ok), store.State())
    ensures Tidy(store.State(), After(old(store.State()), m, DelKeyAt(index, ok), store.State()))
  {
    ghost var a := store.State();
    ok := store.DelKey(index);
    StepTidy(a, m, DelKeyAt(index, ok), store.State());
  }

  /** A new store takes a key with a node of each kind, puts it in the table and deletes it: balanced throughout, and nothing is lost. */
  method LifeOfAKey() returns (store: Store)
    ensures store.Valid() && store.keys.st.spine == []
    ensures Tidy(store.State(), NoShares()) && Balanced(store.State(), NoShares())
  {
    store := new Store();
    NewStoreTidy(store.State());
    var k, id, d, u := TakeOneOfEach(store);
    UseKey(store, k, id, d, u);
    TidyBalanced(store.State(), NoShares());
  }

  method UseKey(store: Store, k: int, id: int, d: int, u: int)
    requires store.Valid() && store.keys.Holds(k) && store.keys.st.spine == []
    requires 0 <= id < MAC_KEYID_LOOKUP_TABLE_MAX_LEN && 0 <= d < MAC_KEY_DEV_TABLE_MAX_LEN && 0 <= u < MAC_KEY_USAGE_TABLE_MAX_LEN
    requires Tidy(store.State(), OneOfEachHeld(id, d, u))
    modifies store.keys, store.keys.pool, store.lookups, store.lookups.pool, store.keyDevs, store.keyDevs.pool, store.usages, store.usages.pool
    ensures store.Valid() && store.keys.st.spine == [] && Tidy(store.State(), NoShares())
  {
    ghost var m := OneOfEachHeld(id, d, u);
    DescribeKey(store, m, k, [id], [d], [u]);
    PutAndDrop(store, Shares(Given(m.lookups, k, [id]), Given(m.keyDevs, k, [d]), Given(m.usages, k, [u])), k);
    GivenAndRetired(MAC_KEYID_LOOKUP_TABLE_MAX_LEN, k, id);
    GivenAndRetired(MAC_KEY_DEV_TABLE_MAX_LEN, k, d);
    GivenAndRetired(MAC_KEY_USAGE_TABLE_MAX_LEN, k, u);
  }

  method PutAndDrop(store: Store, ghost m: Shares, k: int)
    requires store.Valid() && Tidy(store.State(), m) && store.keys.Holds(k) && store.keys.st.spine == [] && m.lookups.live[k]
    modifies store.keys, store.keys.pool, store.lookups, store.lookups.pool, store.keyDevs, store.keyDevs.pool, store.usages, store.usages.pool
    ensures store.Valid() && store.keys.st.spine == [] && Tidy(store.State(), RetireAll(m, k))
  {
    var put := PutKey(store, m, 0, k);
    assert put && store.keys.st.spine == [k];
    var dropped := DropKey(store, m, 0);
    assert dropped;
  }

  /** Giving a node to a key and releasing the key leaves the node vacant as it was. */
  lemma GivenAndRetired(num: nat, k: nat, n: nat)
    requires k < MAC_KEY_TABLE_MAX_LEN && n < num
    ensures Retired(Given(Remarked(NobodyYet(num), n, Held), k, [n]), k) == NobodyYet(num)
  {
    var o, q := NobodyYet(num), Retired(Given(Remarked(NobodyYet(num), n, Held), k, [n]), k);
    assert q.spines == o.spines && q.live == o.live;
    assert |q.mark| == |o.mark| && forall i :: 0 <= i < num ==> q.mark[i] == o.mark[i];
  }

  ghost function OneOfEachHeld(id: int, d: int, u: int): Shares
    requires 0 <= id < MAC_KEYID_LOOKUP_TABLE_MAX_LEN && 0 <= d < MAC_KEY_DEV_TABLE_MAX_LEN && 0 <= u < MAC_KEY_USAGE_TABLE_MAX_LEN
  {
    var m := NoShares();
    Shares(Remarked(m.lookups, id, Held), Remarked(m.keyDevs, d, Held), Remarked(m.usages, u, Held))
  }

  method TakeOneOfEach(store: Store) returns (k: int, id: int, d: int, u: int)
    requires store.Valid() && Tidy(store.State(), NoShares()) && store.Subs() == EmptySubs()
    requires store.keys.st.spine == [] && store.keys.st.mark == seq(MAC_KEY_TABLE_MAX_LEN, i => Vacant)
    modifies store.keys`st, store.keys.pool`count, store.lookups.pool`count, store.keyDevs.pool`count, store.usages.pool`count
    ensures store.Valid() && store.keys.Holds(k) && store.keys.st.spine == []
    ensures 0 <= id < MAC_KEYID_LOOKUP_TABLE_MAX_LEN && 0 <= d < MAC_KEY_DEV_TABLE_MAX_LEN && 0 <= u < MAC_KEY_USAGE_TABLE_MAX_LEN
    ensures Tidy(store.State(), OneOfEachHeld(id, d, u))
  {
    ghost var m := NoShares();
    assert 0 in SlotsOf(store.keys.st.mark, Vacant);
    assert !store.lookups.pool.count[0] && !store.keyDevs.pool.count[0] && !store.usages.pool.count[0];
    k := TakeKey(store, m);
    id := TakeLookup(store, m);
    m := m.(lookups := Remarked(m.lookups, id, Held));
    d := TakeKeyDev(store, m);
    m := m.(keyDevs := Remarked(m.keyDevs, d, Held));
    u := TakeUsage(store, m);
  }

  // ---------------------------------------------------------------- keys that share nodes

  lemma OneNodeApart(a: Raw, b: Raw, c: Raw, j: nat, k: nat, d0: int, d1: int)
    requires SetUp(a, b, j, [d0]) && SetUp(b, c, k, [d1]) && j != k && d0 != d1 && InBounds(c) && AllUsed(a.used, [d0, d1])
    ensures ReleaseFreed(c, j) == 1 && ReleaseFreed(Release(c, j), k) == 1
  {
    assert d0 in [d0, d1] && d1 in [d0, d1] && d0 !in [d1];
    ChainNodes(b.next, b.head[j], [d0]);
    ChainNodes(c.next, c.head[k], [d1]);
    assert b.next[[d0][0]] == Link([d0], 0);
    assert Recorded(c, j) == [d0] && Recorded(c, k) == [d1];
    BothReturnedExactlyWhenApart(c, j, k);
  }

  lemma CoordinatorKeysShare(a: Sublists, b: Sublists, c: Sublists, j: nat, k: nat, id: int, uses: seq<int>, d0: int, d1: int)
    requires Described(a, b, j, [id], [d0], uses) && Described(b, c, k, [id], [d1], uses) && SafeLists(c, |c.lookups.head|)
    requires j != k && d0 != d1 && |uses| == 2
    requires AllUsed(a.lookups.used, [id]) && AllUsed(a.keyDevs.used, [d0, d1]) && AllUsed(a.usages.used, uses)
    ensures FreedAll(c, j) == 4 && FreedAll(ReleaseAll(c, j), k) == 1
    ensures c.lookups.entries[k] as int + c.keyDevs.entries[k] as int + c.usages.entries[k] as int == 4
  {
    SameNodesFreedOnce(a.lookups, b.lookups, c.lookups, j, k, [id]);
    SameNodesFreedOnce(a.usages, b.usages, c.usages, j, k, uses);
    OneNodeApart(a.keyDevs, b.keyDevs, c.keyDevs, j, k, d0, d1);
  }

  /**
   * Two keys as the coordinator builds them: one lookup node and two usage nodes common to both, a
   * key-device node each. Both record four nodes; freeing the first returns four and freeing the second only one.
   */
  method FreeTwoCoordinatorKeys(store: Store, j: nat, k: nat, id: int, uses: seq<int>, d0: int, d1: int) returns (n1: nat, n2: nat)
    requires store.Valid() && store.keys.Holds(j) && store.keys.Holds(k) && j != k
    requires d0 != d1 && |uses| == 2 && uses[0] != uses[1]
    requires AllUsed(store.lookups.pool.count, [id]) && AllUsed(store.keyDevs.pool.count, [d0, d1]) && AllUsed(store.usages.pool.count, uses)
    modifies store.keys`st, store.keys.pool`count, store.lookups, store.lookups.pool, store.keyDevs, store.keyDevs.pool, store.usages, store.usages.pool
    ensures store.Valid() && n1 == 4 && n2 == 1
  {
    assert id in [id] && d0 in [d0, d1] && d1 in [d0, d1];
    ghost var a := store.Subs();
    store.SetMaterial(j, [id], [d0], uses);
    ghost var b := store.Subs();
    store.SetMaterial(k, [id], [d1], uses);
    ghost var c := store.Subs();
    CoordinatorKeysShare(a, b, c, j, k, id, uses, d0, d1);
    n1 := store.KeyFree(j);
    n2 := store.KeyFree(k);
  }
}
