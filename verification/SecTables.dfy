/** The MAC security tables: linked lists over node pools, each with a separate 8-bit entry count. */
module SecTables {
  import opened Bits
  import opened TnMem

  /**
   * A table as values. As it stands in memory: the list header, the entry count kept beside it,
   * and the links of its pool. For the proof: the table as a plain sequence (`spine`) and who has
   * each slot of the pool.
   */
  datatype Table = Table(head: int, entries: int, next: seq<int>, spine: seq<int>, mark: seq<Mark>)

  ghost predicate Consistent(t: Table) {
    && |t.mark| == |t.next| <= 255
    && Chain(t.next, t.head, t.spine)
    && t.entries == |t.spine|
    && (forall i :: 0 <= i < |t.spine| ==> t.mark[t.spine[i]] == Listed(0))
    && (forall n :: 0 <= n < |t.mark| ==> Accounted(t, n))
  }

  /** A slot is vacant, held, or listed, and then it really is in the table. */
  ghost predicate Accounted(t: Table, n: nat) {
    n < |t.mark| && match t.mark[n] case Vacant => true case Held => true case Listed(k) => k == 0 && n in t.spine
  }

  ghost function EmptyTable(next: seq<int>): (t: Table)
    requires |next| <= 255
    ensures Consistent(t)
  {
    Table(NULL, 0, next, [], seq(|next|, i => Vacant))
  }

  type GoodTable = t: Table | Consistent(t) ghost witness EmptyTable([])

  lemma ListedElems(t: Table)
    requires Consistent(t)
    ensures Elems(t.spine) == SlotsOf(t.mark, Listed(0))
  {
    var listed := SlotsOf(t.mark, Listed(0));
    forall n | n in Elems(t.spine)
      ensures n in listed
    {
      var i :| 0 <= i < |t.spine| && t.spine[i] == n;
      assert t.mark[t.spine[i]] == Listed(0);
    }
    forall n | n in listed
      ensures n in Elems(t.spine)
    {
      assert Accounted(t, n);
    }
  }

  /** Every slot is vacant, held by a caller, or in the table. */
  lemma TableConserved(t: Table)
    requires Consistent(t)
    ensures |SlotsOf(t.mark, Vacant)| + |SlotsOf(t.mark, Held)| + |t.spine| == |t.mark|
  {
    DistinctCount(t.spine);
    ListedElems(t);
    forall n | 0 <= n < |t.mark|
      ensures t.mark[n] in {Vacant, Held, Listed(0)}
    {
      assert Accounted(t, n);
    }
    PartitionCount(t.mark, SlotsOf(t.mark, Vacant), SlotsOf(t.mark, Held), SlotsOf(t.mark, Listed(0)));
  }

  /** A held node leaves room for itself in the table, so the entry count cannot wrap. */
  lemma RoomForOneMore(t: Table, value: int)
    requires Consistent(t) && 0 <= value < |t.mark| && t.mark[value] == Held
    ensures |t.spine| < |t.mark| && value !in t.spine
  {
    TableConserved(t);
    assert SlotsOf(t.mark, Held) != {} by {
      assert value in SlotsOf(t.mark, Held);
    }
  }

  // ---------------------------------------------------------------- steps on values

  lemma RemarkConsistent(t: Table, n: int, m: Mark)
    requires Consistent(t) && 0 <= n < |t.mark| && t.mark[n] != Listed(0) && (m == Vacant || m == Held)
    ensures Consistent(t.(mark := t.mark[n := m]))
  {
    var r := t.(mark := t.mark[n := m]);
    forall i | 0 <= i < |r.mark|
      ensures Accounted(r, i)
    {
      assert Accounted(t, i);
    }
  }

  ghost function Appended(t: Table, value: int, next': seq<int>, head': int): Table
    requires 0 <= value < |t.mark|
  {
    t.(head := head', entries := t.entries + 1, next := next', spine := t.spine + [value], mark := t.mark[value := Listed(0)])
  }

  lemma AppendConsistent(t: Table, value: int, next': seq<int>, head': int)
    requires Consistent(t) && |next'| == |t.next| && 0 <= value < |t.mark| && t.mark[value] == Held
    requires Chain(next', head', t.spine + [value])
    ensures Consistent(Appended(t, value, next', head'))
  {
    var r := Appended(t, value, next', head');
    RoomForOneMore(t, value);
    assert r.spine[|t.spine|] == value;
    forall n | 0 <= n < |r.mark|
      ensures Accounted(r, n)
    {
      assert Accounted(t, n);
    }
  }

  ghost function Replaced(t: Table, at: nat, value: int, next': seq<int>, head': int): Table
    requires 0 <= value < |t.mark| && at < |t.spine| && 0 <= t.spine[at] < |t.mark|
  {
    t.(head := head', next := next', spine := t.spine[at := value], mark := t.mark[value := Listed(0)][t.spine[at] := Held])
  }

  lemma ReplaceConsistent(t: Table, at: nat, value: int, next': seq<int>, head': int)
    requires Consistent(t) && |next'| == |t.next| && 0 <= value < |t.mark| && t.mark[value] == Held
    requires at < |t.spine| && Chain(next', head', t.spine[at := value])
    ensures Consistent(Replaced(t, at, value, next', head'))
  {
    var r := Replaced(t, at, value, next', head');
    assert r.spine[at] == value;
    forall n | 0 <= n < |r.mark|
      ensures Accounted(r, n)
    {
      assert Accounted(t, n);
      if r.mark[n] == Listed(0) && n != value {
        var i :| 0 <= i < |t.spine| && t.spine[i] == n;
        assert r.spine[i] == n;
      }
    }
  }

  ghost function Deleted(t: Table, at: nat, next': seq<int>, head': int): Table
    requires at < |t.spine| && 0 <= t.spine[at] < |t.mark|
  {
    t.(head := head', entries := t.entries - 1, next := next', spine := Without(t.spine, at), mark := t.mark[t.spine[at] := Held])
  }

  lemma DeleteConsistent(t: Table, at: nat, next': seq<int>, head': int)
    requires Consistent(t) && |next'| == |t.next|
    requires at < |t.spine| && Chain(next', head', Without(t.spine, at))
    ensures Consistent(Deleted(t, at, next', head'))
  {
    var r := Deleted(t, at, next', head');
    WithoutMembers(t.spine, at);
    forall i | 0 <= i < |r.spine|
      ensures 0 <= r.spine[i] < |r.mark| && r.mark[r.spine[i]] == Listed(0)
    {
      assert r.spine[i] in r.spine;
    }
    forall n | 0 <= n < |r.mark|
      ensures Accounted(r, n)
    {
      assert Accounted(t, n);
    }
  }

  lemma WithoutMembers(s: seq<int>, at: nat)
    requires at < |s| && Distinct(s)
    ensures forall n :: n in Without(s, at) <==> n in s && n != s[at]
  {
    var t := Without(s, at);
    forall n | n in s && n != s[at]
      ensures n in t
    {
      var i :| 0 <= i < |s| && s[i] == n;
      assert t[if i < at then i else i - 1] == n;
    }
  }

  /** Removing a node and inserting another at its place is a sequence update. */
  lemma ReplaceShape(s: seq<int>, at: nat, v: int)
    requires at < |s|
    ensures at > 0 ==> WithAfter(Without(s, at), at - 1, v) == s[at := v]
    ensures at == 0 ==> [v] + Without(s, at) == s[at := v]
    ensures v !in s ==> v !in Without(s, at)
  {
  }

  // ---------------------------------------------------------------- the table in memory

  class SecTable<T(0)> {
    const pool: Pool<T>
    var head: int
    var entries: byte
    ghost var st: GoodTable

    constructor (num: nat, blank: T)
      requires num <= 255
      ensures Valid() && st.spine == [] && st.mark == seq(num, i => Vacant) && fresh(pool)
    {
      pool := new Pool<T>(num, blank);
      head, entries := NULL, 0;
      new;
      st := EmptyTable(pool.next);
      assert pool.count == Busy(st.mark);
    }

    /** List and pool hold the (consistent) table value. */
    ghost predicate Shape()
      reads this, pool
    {
      pool.Valid() && st.head == head && st.next == pool.next && pool.count == Busy(st.mark)
    }

    /** And so does the entry count kept beside them. */
    ghost predicate Valid()
      reads this, pool
    {
      Shape() && st.entries == entries
    }

    ghost predicate Holds(item: int)
      reads this
    {
      0 <= item < |st.mark| && st.mark[item] == Held
    }

    method Alloc() returns (item: int)
      requires Valid()
      modifies this`st, pool`count
      ensures Valid()
      ensures item == NULL ==> st == old(st) && SlotsOf(st.mark, Vacant) == {}
      ensures item != NULL ==> 0 <= item < |old(st.mark)| && old(st.mark)[item] == Vacant
      ensures item != NULL ==> st == old(st).(mark := old(st.mark)[item := Held])
    {
      item := pool.Alloc();
      if item != NULL {
        BusyUpdate(st.mark, item, Held);
        RemarkConsistent(st, item, Held);
        st := st.(mark := st.mark[item := Held]);
      }
    }

    /** Gives a held node back to the pool; the pool accepts it. */
    method Free(item: int) returns (ret: int)
      requires Valid() && Holds(item)
      modifies this`st, pool`count
      ensures Valid() && ret == 0
      ensures st == old(st).(mark := old(st.mark)[item := Vacant])
    {
      BusyUpdate(st.mark, item, Vacant);
      ret := pool.Free(item);
      RemarkConsistent(st, item, Vacant);
      st := st.(mark := st.mark[item := Vacant]);
    }

    /** The index walk: node number `index` and its predecessor. */
    method Walk(index: byte) returns (prev: int, item: int)
      requires Valid() && index < |st.spine|
      ensures item == st.spine[index]
      ensures prev == if index == 0 then NULL else st.spine[index - 1]
    {
      prev, item := NULL, head;
      var n: nat := index;
      ghost var k: nat := 0;
      while n > 0
        invariant k + n == index
        invariant item == st.spine[k]
        invariant prev == if k == 0 then NULL else st.spine[k - 1]
      {
        assert pool.next[st.spine[k]] == Link(st.spine, k);
        prev := item;
        item := pool.next[item];
        n := n - 1;
        k := k + 1;
      }
    }

    method GetEntry(index: byte) returns (ok: bool, item: int)
      requires Valid()
      ensures ok <==> index < |st.spine|
      ensures item == if ok then st.spine[index] else NULL
    {
      if index >= entries {
        return false, NULL;
      }
      var _, it := Walk(index);
      return true, it;
    }

    /** Set at the end appends, below the end replaces and hands the old node back, beyond the end fails. */
    method SetEntry(index: byte, value: int) returns (ok: bool, evicted: int)
      requires Valid() && Holds(value)
      modifies this, pool`next
      ensures Valid()
      ensures ok <==> index <= |old(st.spine)|
      ensures !ok ==> evicted == NULL && st == old(st)
      ensures index == |old(st.spine)| ==>
                && evicted == NULL && st.spine == old(st.spine) + [value]
                && st.mark == old(st.mark)[value := Listed(0)]
      ensures index < |old(st.spine)| ==>
                && evicted == old(st.spine)[index]
                && st.spine == old(st.spine)[index := value]
                && st.mark == old(st.mark)[value := Listed(0)][evicted := Held]
    {
      ok, evicted := true, NULL;
      if index > entries {
        ok := false;
      } else if index == entries {
        Append(value);
      } else {
        evicted := Replace(index, value);
      }
    }

    method Append(value: int)
      requires Valid() && Holds(value)
      modifies this, pool`next
      ensures Valid() && st.spine == old(st.spine) + [value] && st.mark == old(st.mark)[value := Listed(0)]
    {
      ghost var t: Table := st;
      RoomForOneMore(t, value);
      BusyUpdate(t.mark, value, Listed(0));
      head := Add(pool, head, value, t.spine);
      entries := entries + 1;
      AppendConsistent(t, value, pool.next, head);
      st := Appended(t, value, pool.next, head);
    }

    /** Splice the old node out, link the new one after the tracked predecessor or at the head. */
    method Relink(index: byte, value: int) returns (item: int)
      requires Valid() && Holds(value) && index < |st.spine|
      modifies this`head, pool`next
      ensures |pool.next| == |old(pool.next)|
      ensures Chain(pool.next, head, st.spine[index := value]) && item == st.spine[index]
    {
      ghost var s := st.spine;
      ghost var t := Without(s, index);
      var prev;
      prev, item := Walk(index);
      ReplaceShape(s, index, value);
      RoomForOneMore(st, value);
      head := Remove(pool, head, item, s, index);
      if prev != NULL {
        Insert(pool, head, prev, value, t, index - 1);
      } else {
        head := Push(pool, head, value, t);
      }
    }

    method Replace(index: byte, value: int) returns (item: int)
      requires Valid() && Holds(value) && index < |st.spine|
      modifies this, pool`next
      ensures Valid() && item == old(st.spine)[index] && st.spine == old(st.spine)[index := value]
      ensures st.mark == old(st.mark)[value := Listed(0)][item := Held]
    {
      ghost var t: Table := st;
      item := Relink(index, value);
      ReplaceConsistent(t, index, value, pool.next, head);
      BusyUpdate(t.mark, value, Listed(0));
      BusyUpdate(t.mark[value := Listed(0)], item, Held);
      st := Replaced(t, index, value, pool.next, head);
    }

    /** Delete removes only the addressed entry and hands its node back. */
    method DelEntry(index: byte) returns (ok: bool, removed: int)
      requires Valid()
      modifies this, pool`next
      ensures Valid()
      ensures ok <==> index < |old(st.spine)|
      ensures !ok ==> removed == NULL && st == old(st)
      ensures ok ==> removed == old(st.spine)[index] && st.spine == Without(old(st.spine), index)
      ensures ok ==> 0 <= removed < |old(st.mark)| && st.mark == old(st.mark)[removed := Held]
    {
      if index >= entries {
        return false, NULL;
      }
      ghost var t: Table := st;
      var _, item := Walk(index);
      head := Remove(pool, head, item, t.spine, index);
      entries := entries - 1;
      DeleteConsistent(t, index, pool.next, head);
      BusyUpdate(t.mark, item, Held);
      st := Deleted(t, index, pool.next, head);
      return true, item;
    }
  }
}
