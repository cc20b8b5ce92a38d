/** The sublists of well-kept keys, which share no node, and the class that holds one kind of sublist. */
module KeyLists {
  import opened Bits
  import opened TnMem
  import opened RawLists

  /** For the proof: the spine of each key's list, who has each node, and which keys have their lists set up. */
  datatype Owners = Owners(spines: seq<seq<int>>, mark: seq<Mark>, live: seq<bool>)

  /** Key `k`'s header and count describe its spine; a key not set up lists nothing. */
  ghost predicate KeyOk(r: Raw, o: Owners, k: nat)
    requires k < |o.live| == |o.spines| == |r.head| == |r.entries|
  {
    if o.live[k] then Chain(r.next, r.head[k], o.spines[k]) && r.entries[k] == |o.spines[k]| else o.spines[k] == []
  }

  ghost predicate InList(o: Owners, k: int, n: int) {
    0 <= k < |o.spines| && n in o.spines[k]
  }

  /** A node is in a key's list exactly when it is marked so; hence lists share no node. */
  ghost predicate NodeOk(o: Owners, k: int, n: int) {
    InList(o, k, n) <==> 0 <= n < |o.mark| && o.mark[n] == Listed(k)
  }

  /** The memory is that of well-kept lists. */
  ghost predicate Represents(r: Raw, o: Owners) {
    && InBounds(r) && |o.mark| == |r.next| && |r.head| == |o.spines| == |o.live|
    && r.used == Busy(o.mark)
    && (forall k :: 0 <= k < |o.live| ==> KeyOk(r, o, k))
    && (forall k, n :: NodeOk(o, k, n))
  }

  // ---------------------------------------------------------------- steps

  lemma ListsDisjoint(r: Raw, o: Owners, j: int, k: int)
    requires Represents(r, o) && 0 <= j < |o.spines| && 0 <= k < |o.spines| && j != k
    ensures Apart(o.spines[j], o.spines[k])
  {
    forall n | n in o.spines[j]
      ensures n !in o.spines[k]
    {
      assert NodeOk(o, j, n) && NodeOk(o, k, n);
    }
  }

  /** A list keeps its shape when links are written only in nodes it does not contain. */
  lemma ChainElsewhere(next: seq<int>, next': seq<int>, head: int, spine: seq<int>, written: seq<int>)
    requires Chain(next, head, spine) && |next'| == |next| && Apart(spine, written)
    requires forall j :: 0 <= j < |next| && j !in written ==> next'[j] == next[j]
    ensures Chain(next', head, spine)
  {
    forall i | 0 <= i < |spine|
      ensures next'[spine[i]] == next[spine[i]]
    {
      assert spine[i] in spine;
    }
    ChainFrame(next, next', head, spine);
  }

  ghost function Remarked(o: Owners, n: int, m: Mark): Owners
    requires 0 <= n < |o.mark|
  {
    o.(mark := o.mark[n := m])
  }

  /** Allocating or freeing an unlisted node leaves the lists well kept. */
  lemma RemarkRepresents(r: Raw, o: Owners, n: int, m: Mark)
    requires Represents(r, o) && 0 <= n < |o.mark| && !o.mark[n].Listed? && !m.Listed?
    ensures Represents(r.(used := r.used[n := m != Vacant]), Remarked(o, n, m))
  {
    var t, q := r.(used := r.used[n := m != Vacant]), Remarked(o, n, m);
    BusyUpdate(o.mark, n, m);
    forall k | 0 <= k < |q.live|
      ensures KeyOk(t, q, k)
    {
      assert KeyOk(r, o, k);
    }
    forall k, i
      ensures NodeOk(q, k, i)
    {
      assert NodeOk(o, k, i);
    }
  }

  /** All nodes of key `k` vacant. */
  function Released(mark: seq<Mark>, k: int): (r: seq<Mark>)
    ensures |r| == |mark| && forall n :: 0 <= n < |mark| ==> r[n] == if mark[n] == Listed(k) then Vacant else mark[n]
  {
    seq(|mark|, n requires 0 <= n < |mark| => if mark[n] == Listed(k) then Vacant else mark[n])
  }

  ghost function Retired(o: Owners, k: nat): Owners
    requires k < |o.live| == |o.spines|
  {
    Owners(o.spines[k := []], Released(o.mark, k), o.live[k := false])
  }

  lemma RetiredNodes(r: Raw, o: Owners, k: nat)
    requires Represents(r, o) && k < |o.live|
    ensures forall j, n :: NodeOk(Retired(o, k), j, n)
  {
    forall j, n
      ensures NodeOk(Retired(o, k), j, n)
    {
      assert NodeOk(o, j, n);
    }
  }

  /** What a well-kept key's list is in memory. */
  lemma WellKeptWhole(r: Raw, o: Owners, k: nat)
    requires Represents(r, o) && k < |o.live| && o.live[k]
    ensures Recorded(r, k) == o.spines[k] && Whole(r, k)
  {
    assert KeyOk(r, o, k);
    ChainNodes(r.next, r.head[k], o.spines[k]);
    forall n | n in o.spines[k]
      ensures 0 <= n < |r.used| && r.used[n]
    {
      assert NodeOk(o, k, n);
    }
  }

  lemma ReleaseMarks(r: Raw, o: Owners, k: nat)
    requires Represents(r, o) && k < |o.live| && o.live[k]
    ensures Release(r, k).used == Busy(Retired(o, k).mark)
  {
    WellKeptWhole(r, o, k);
    RoundsOfWhole(r, k, r.entries[k]);
    var u, v := Release(r, k).used, Busy(Retired(o, k).mark);
    assert |u| == |v|;
    forall n | 0 <= n < |u|
      ensures u[n] == v[n]
    {
      assert NodeOk(o, k, n);
    }
  }

  /** Releasing a well-kept key frees each of its nodes, as many as it recorded, and leaves the others well kept. */
  lemma ReleaseRepresents(r: Raw, o: Owners, k: nat)
    requires Represents(r, o) && k < |o.live| && o.live[k]
    ensures Represents(Release(r, k), Retired(o, k)) && ReleaseFreed(r, k) == r.entries[k]
  {
    var t, q := Release(r, k), Retired(o, k);
    WellKeptWhole(r, o, k);
    FreedExactly(r, k, r.entries[k]);
    RoundsOfWhole(r, k, r.entries[k]);
    ReleaseMarks(r, o, k);
    RetiredNodes(r, o, k);
    forall j | 0 <= j < |q.live|
      ensures KeyOk(t, q, j)
    {
      assert KeyOk(r, o, j);
      if q.live[j] {
        ListsDisjoint(r, o, j, k);
        ChainElsewhere(r.next, t.next, r.head[j], o.spines[j], o.spines[k]);
      }
    }
  }

  /** The marks after the nodes `items` have been given to key `k`. */
  function Assigned(mark: seq<Mark>, items: seq<int>, k: int): (r: seq<Mark>)
    ensures |r| == |mark| && forall n :: 0 <= n < |mark| ==> r[n] == if n in items then Listed(k) else mark[n]
  {
    seq(|mark|, n requires 0 <= n < |mark| => if n in items then Listed(k) else mark[n])
  }

  ghost function Given(o: Owners, k: nat, items: seq<int>): Owners
    requires k < |o.live| == |o.spines|
  {
    Owners(o.spines[k := items], Assigned(o.mark, items, k), o.live[k := true])
  }

  ghost predicate AllHeld(mark: seq<Mark>, items: seq<int>) {
    forall n :: n in items ==> 0 <= n < |mark| && mark[n] == Held
  }

  /** A key set up with held nodes, which no other key has, is well kept. */
  lemma SetUpRepresents(a: Raw, b: Raw, o: Owners, k: nat, items: seq<int>)
    requires Represents(a, o) && SetUp(a, b, k, items) && InBounds(b) && !o.live[k] && AllHeld(o.mark, items)
    ensures Represents(b, Given(o, k, items))
  {
    var q := Given(o, k, items);
    assert KeyOk(a, o, k);
    assert b.used == Busy(q.mark);
    forall j | 0 <= j < |q.live|
      ensures KeyOk(b, q, j)
    {
      assert KeyOk(a, o, j);
      if j != k && o.live[j] {
        forall n | n in o.spines[j]
          ensures n !in items
        {
          assert NodeOk(o, j, n);
        }
        ChainElsewhere(a.next, b.next, a.head[j], o.spines[j], items);
      }
    }
    forall j, n
      ensures NodeOk(q, j, n)
    {
      assert NodeOk(o, j, n);
    }
  }

  // ---------------------------------------------------------------- counting

  function Total(spines: seq<seq<int>>): nat {
    if spines == [] then 0 else Total(spines[..|spines| - 1]) + |spines[|spines| - 1]|
  }

  /** Nodes listed by the first `k` keys. */
  function ListedBelow(mark: seq<Mark>, k: nat): (r: set<int>)
    ensures forall n :: n in r <==> 0 <= n < |mark| && mark[n].Listed? && 0 <= mark[n].key < k
  {
    set n | 0 <= n < |mark| && mark[n].Listed? && 0 <= mark[n].key < k
  }

  lemma KeyElems(r: Raw, o: Owners, k: nat)
    requires Represents(r, o) && k < |o.spines|
    ensures Elems(o.spines[k]) == SlotsOf(o.mark, Listed(k))
    ensures |SlotsOf(o.mark, Listed(k))| == |o.spines[k]|
  {
    assert KeyOk(r, o, k);
    DistinctCount(o.spines[k]);
    var a, b := Elems(o.spines[k]), SlotsOf(o.mark, Listed(k));
    forall n
      ensures n in a <==> n in b
    {
      assert NodeOk(o, k, n);
      assert n in a <==> n in o.spines[k];
    }
  }

  lemma {:induction false} CountListed(r: Raw, o: Owners, k: nat)
    requires Represents(r, o) && k <= |o.spines|
    ensures |ListedBelow(o.mark, k)| == Total(o.spines[..k])
  {
    if k == 0 {
      assert ListedBelow(o.mark, 0) == {};
    } else {
      CountListed(r, o, k - 1);
      KeyElems(r, o, k - 1);
      assert o.spines[..k][..k - 1] == o.spines[..k - 1];
      var a, b := ListedBelow(o.mark, k - 1), SlotsOf(o.mark, Listed(k - 1));
      assert ListedBelow(o.mark, k) == a + b && a !! b;
    }
  }

  /** Every slot is vacant, held by a caller, or in exactly one key's list. */
  lemma ListsConserved(r: Raw, o: Owners)
    requires Represents(r, o)
    ensures |SlotsOf(o.mark, Vacant)| + |SlotsOf(o.mark, Held)| + Total(o.spines) == |r.used|
  {
    CountListed(r, o, |o.spines|);
    assert o.spines[..|o.spines|] == o.spines;
    forall n | 0 <= n < |o.mark| && o.mark[n].Listed?
      ensures 0 <= o.mark[n].key < |o.spines|
    {
      assert NodeOk(o, o.mark[n].key, n);
    }
    PartitionCount(o.mark, SlotsOf(o.mark, Vacant), SlotsOf(o.mark, Held), ListedBelow(o.mark, |o.spines|));
  }

  // ---------------------------------------------------------------- the lists in memory

  class KeyList<T(0)> {
    const pool: Pool<T>
    var head: seq<int>        // list header in each key slot
    var entries: seq<byte>    // entry count in each key slot

    constructor (num: nat, keys: nat, blank: T)
      requires num <= 255
      ensures Valid() && fresh(pool)
      ensures Mem() == EmptyRaw(num, keys)
    {
      pool := new Pool<T>(num, blank);
      head := seq(keys, i => NULL);
      entries := seq(keys, i => 0);
    }

    ghost function Mem(): Raw
      reads this, pool
    {
      Raw(pool.next, pool.count, head, entries)
    }

    /** Pointers stay inside the pool: all that the release loop relies on. */
    ghost predicate Valid()
      reads this, pool
    {
      pool.Valid() && InBounds(Mem())
    }

    method Alloc() returns (item: int)
      requires Valid()
      modifies pool`count
      ensures Valid()
      ensures item == NULL ==> Mem() == old(Mem()) && forall i :: 0 <= i < pool.Num() ==> pool.count[i]
      ensures item != NULL ==> 0 <= item < pool.Num() && !old(pool.count)[item] && Mem() == old(Mem()).(used := old(pool.count)[item := true])
    {
      item := pool.Alloc();
    }

    /** One round of the release loop after its test: pop the first node and free it; NULL is refused by the pool. */
    method PopFree(k: nat) returns (freed: bool)
      requires Valid() && k < |head|
      modifies this`head, pool`count, pool`next
      ensures Valid() && Mem() == Round(old(Mem()), k)
      ensures freed == (old(head[k]) != NULL && old(pool.count)[old(head[k])])
    {
      var h, item := Pop(pool, head[k]);
      head := head[k := h];
      var ret := pool.Free(item);
      freed := ret == 0;
    }

    /** The loop test `entries--`: reads the count and decrements it, wrapping at zero. */
    method PostDecrement(k: nat) returns (n: byte)
      requires k < |entries|
      modifies this`entries
      ensures n == old(entries[k]) && entries == old(entries)[k := if n == 0 then 255 else n - 1]
    {
      n := entries[k];
      entries := entries[k := if n == 0 then 255 else n - 1];
    }

    /**
     * `while (entries--) free(pop(list))`, on lists that may share nodes or be shorter than their count.
     * `freed` counts the frees that the pool accepted.
     */
    method FreeAll(k: nat) returns (freed: nat)
      requires Valid() && k < |head|
      modifies this, pool`count, pool`next
      ensures Valid() && Mem() == Release(old(Mem()), k) && freed == ReleaseFreed(old(Mem()), k)
    {
      ghost var r := Mem();
      freed := 0;
      var n := PostDecrement(k);
      while n != 0
        invariant Valid() && |head| == |r.head| && |pool.next| == |r.next|
        invariant entries == r.entries[k := if n == 0 then 255 else n - 1]
        invariant Rounds(Mem().(entries := r.entries), k, n) == Rounds(r, k, r.entries[k])
        invariant freed + Freed(Mem().(entries := r.entries), k, n) == ReleaseFreed(r, k)
        decreases n
      {
        ghost var m := Mem().(entries := r.entries);
        var ok := PopFree(k);
        assert Mem().(entries := r.entries) == Round(m, k);
        freed := freed + if ok then 1 else 0;
        n := PostDecrement(k);
      }
    }

    /** The sublist part of setting up a key: reset its list, then add the nodes one by one at the end. */
    method Fill(k: nat, items: seq<int>)
      requires Valid() && k < |head| && Distinct(items)
      requires forall n :: n in items ==> 0 <= n < pool.Num()
      modifies this, pool`next
      ensures Valid() && SetUp(old(Mem()), Mem(), k, items)
    {
      DistinctCount(items);
      forall n | n in Elems(items)
        ensures n in Slots(pool.Num())
      {
        assert n in items;
      }
      SubsetCount(Elems(items), Slots(pool.Num()));
      ghost var r := Mem();
      head, entries := head[k := NULL], entries[k := 0];
      assert items[..0] == [];
      for i := 0 to |items|
        invariant Valid() && SetUp(r, Mem(), k, items[..i])
      {
        assert items[i] in items && items[..i + 1] == items[..i] + [items[i]];
        Attach(k, items[i], items[..i]);
        assert items[..i + 1] == items[..i] + [items[i]];
      }
      assert items[..|items|] == items;
    }

    method Attach(k: nat, item: int, ghost spine: seq<int>)
      requires Valid() && k < |head| && Chain(pool.next, head[k], spine)
      requires 0 <= item < pool.Num() && item !in spine && entries[k] == |spine| < 255
      modifies this, pool`next
      ensures Valid() && pool.count == old(pool.count) && |pool.next| == |old(pool.next)|
      ensures entries == old(entries)[k := |spine| + 1] && |head| == |old(head)|
      ensures forall j :: 0 <= j < |head| && j != k ==> head[j] == old(head)[j]
      ensures Chain(pool.next, head[k], spine + [item])
      ensures forall j :: 0 <= j < pool.Num() && j != item && j !in spine ==> pool.next[j] == old(pool.next)[j]
    {
      ghost var next := pool.next;
      var h := Add(pool, head[k], item, spine);
      head := head[k := h];
      entries := entries[k := entries[k] + 1];
      forall i | 0 <= i < |pool.next|
        ensures Pointer(pool.next[i], |pool.next|)
      {
        if i in spine + [item] {
          var j :| 0 <= j < |spine + [item]| && (spine + [item])[j] == i;
          assert pool.next[(spine + [item])[j]] == Link(spine + [item], j);
        } else {
          assert pool.next[i] == next[i];
        }
      }
    }
  }
}
