/**
 * Fixed-capacity node pools and the linked lists threaded through them. A pool is an array
 * of equal slots, so a node pointer is a slot number; the `next` link is the first member
 * of every node type.
 */
module TnMem {

  const NULL: int := -1

  /** `count`, `next` and `desc` are the columns of the slot array; their length never changes. */
  class Pool<T(0)> {
    var count: seq<bool>   // slot handed out?
    var next: seq<int>     // link of each slot
    var desc: seq<T>       // descriptor stored in each slot

    /** tn_mem_init: every slot free. */
    constructor (num: nat, blank: T)
      ensures Valid() && Num() == num && count == seq(num, i => false) && next == seq(num, i => NULL)
    {
      count := seq(num, i => false);
      next := seq(num, i => NULL);
      desc := seq(num, i => blank);
    }

    ghost predicate Valid()
      reads this
    {
      |count| == |next| == |desc|
    }

    ghost function Num(): nat
      reads this
    {
      |count|
    }

    /** First free slot, or NULL when there is none. */
    method Alloc() returns (item: int)
      requires Valid()
      modifies this`count
      ensures Valid()
      ensures item == NULL ==> count == old(count) && forall j :: 0 <= j < |count| ==> count[j]
      ensures item != NULL ==> 0 <= item < |old(count)| && !old(count)[item] && count == old(count)[item := true]
    {
      for i := 0 to |count|
        invariant forall j :: 0 <= j < i ==> count[j]
        invariant count == old(count)
      {
        if !count[i] {
          count := count[i := true];
          return i;
        }
      }
      item := NULL;
    }

    /** Returns 0 and frees the slot, or -1 when the pointer is not a slot in use. */
    method Free(item: int) returns (ret: int)
      requires Valid()
      modifies this`count
      ensures Valid()
      ensures ret == if 0 <= item < |old(count)| && old(count)[item] then 0 else -1
      ensures count == if ret == 0 then old(count)[item := false] else old(count)
    {
      ret := -1;
      if 0 <= item < |count| && count[item] {
        count := count[item := false];
        ret := 0;
      }
    }
  }

  // ---------------------------------------------------------------- who has a slot

  /** A slot is vacant, held by a caller, or in the list of one key (key 0 for a table of its own). */
  datatype Mark = Vacant | Held | Listed(key: int)

  function Busy(mark: seq<Mark>): (count: seq<bool>)
    ensures |count| == |mark| && forall i :: 0 <= i < |mark| ==> count[i] == (mark[i] != Vacant)
  {
    seq(|mark|, i requires 0 <= i < |mark| => mark[i] != Vacant)
  }

  lemma BusyUpdate(mark: seq<Mark>, n: int, m: Mark)
    requires 0 <= n < |mark|
    ensures Busy(mark[n := m]) == Busy(mark)[n := m != Vacant]
    ensures (m == Vacant <==> mark[n] == Vacant) ==> Busy(mark[n := m]) == Busy(mark)
  {
  }

  /** The slots with a given mark, for counting. */
  function SlotsOf(mark: seq<Mark>, m: Mark): (r: set<int>)
    ensures forall i :: i in r <==> 0 <= i < |mark| && mark[i] == m
  {
    set i | 0 <= i < |mark| && mark[i] == m
  }

  function Slots(n: nat): (r: set<int>)
    ensures forall i :: i in r <==> 0 <= i < n
    ensures |r| == n
  {
    if n == 0 then {} else Slots(n - 1) + {n - 1}
  }

  /** Three disjoint sets that make up all slots account for every slot. */
  lemma PartitionCount(mark: seq<Mark>, a: set<int>, b: set<int>, c: set<int>)
    requires a !! b !! c
    requires forall n :: n in a + b + c <==> 0 <= n < |mark|
    ensures |a| + |b| + |c| == |mark|
  {
    assert a + b + c == Slots(|mark|);
    assert |a + b| == |a| + |b| && |a + b + c| == |a + b| + |c|;
  }

  // ---------------------------------------------------------------- list shape

  ghost predicate Distinct(s: seq<int>) {
    forall i, j :: 0 <= i < j < |s| ==> s[i] != s[j]
  }

  function Elems(s: seq<int>): set<int> {
    set i | 0 <= i < |s| :: s[i]
  }

  lemma {:induction false} DistinctCount(s: seq<int>)
    requires Distinct(s)
    ensures |Elems(s)| == |s|
  {
    if s == [] {
      assert Elems(s) == {};
    } else {
      var t := s[..|s| - 1];
      DistinctCount(t);
      var last := s[|s| - 1];
      forall x | x in Elems(s)
        ensures x in Elems(t) + {last}
      {
        var i :| 0 <= i < |s| && s[i] == x;
        if i < |t| {
          assert t[i] == x;
        }
      }
      forall x | x in Elems(t)
        ensures x in Elems(s) && x != last
      {
        var i :| 0 <= i < |t| && t[i] == x;
        assert s[i] == x;
      }
      assert last in Elems(s);
      assert Elems(s) == Elems(t) + {last};
    }
  }

  lemma SubsetCount(a: set<int>, b: set<int>)
    requires a <= b
    ensures |a| <= |b|
    ensures |a| == |b| ==> a == b
  {
    assert b == a + (b - a);
    assert |b| == |a| + |b - a|;
  }

  /** What follows node number `i` of a list. */
  function Link(spine: seq<int>, i: nat): int
    requires i < |spine|
  {
    if i + 1 < |spine| then spine[i + 1] else NULL
  }

  /** The nodes reachable from `head` through `next` are exactly `spine`, in order. */
  ghost predicate Chain(next: seq<int>, head: int, spine: seq<int>) {
    && Distinct(spine)
    && head == (if spine == [] then NULL else spine[0])
    && (forall i :: 0 <= i < |spine| ==> 0 <= spine[i] < |next|)
    && (forall i {:trigger Link(spine, i)} :: 0 <= i < |spine| ==> next[spine[i]] == Link(spine, i))
  }

  /** A list does not notice writes to links of other nodes. */
  lemma ChainFrame(next: seq<int>, next': seq<int>, head: int, spine: seq<int>)
    requires Chain(next, head, spine) && |next'| == |next|
    requires forall i :: 0 <= i < |spine| ==> next'[spine[i]] == next[spine[i]]
    ensures Chain(next', head, spine)
  {
  }

  /** The shape is a function of the heap: one head reaches only one spine. */
  lemma {:induction false} ChainUnique(next: seq<int>, head: int, s: seq<int>, t: seq<int>, i: nat)
    requires Chain(next, head, s) && Chain(next, head, t)
    requires i <= |s| && i <= |t| && s[..i] == t[..i]
    ensures s == t
    decreases |s| - i
  {
    if i > 0 {
      assert s[i - 1] == s[..i][i - 1] == t[..i][i - 1] == t[i - 1];
      assert Link(s, i - 1) == next[s[i - 1]] == Link(t, i - 1);
    }
    if i < |s| && i < |t| {
      assert s[..i + 1] == s[..i] + [s[i]] && t[..i + 1] == t[..i] + [t[i]];
      ChainUnique(next, head, s, t, i + 1);
    } else {
      assert i == |s| && i == |t|;
      assert s == s[..i] && t == t[..i];
    }
  }

  function WithAfter(spine: seq<int>, at: nat, item: int): (t: seq<int>)
    requires at < |spine|
    ensures |t| == |spine| + 1
    ensures forall i :: 0 <= i < |t| ==> t[i] == if i <= at then spine[i] else if i == at + 1 then item else spine[i - 1]
  {
    spine[..at + 1] + [item] + spine[at + 1..]
  }

  function Without(spine: seq<int>, at: nat): (t: seq<int>)
    requires at < |spine|
    ensures |t| == |spine| - 1
    ensures forall i :: 0 <= i < |t| ==> t[i] == spine[if i < at then i else i + 1]
  {
    spine[..at] + spine[at + 1..]
  }

  lemma WithAfterDistinct(spine: seq<int>, at: nat, item: int)
    requires at < |spine| && Distinct(spine) && item !in spine
    ensures Distinct(WithAfter(spine, at, item))
  {
    var t := WithAfter(spine, at, item);
    forall i, j | 0 <= i < j < |t|
      ensures t[i] != t[j]
    {
      var i', j' := if i <= at then i else i - 1, if j <= at then j else j - 1;
      if i != at + 1 && j != at + 1 {
        assert t[i] == spine[i'] && t[j] == spine[j'] && i' < j';
      }
    }
  }

  /** Relinking two nodes inserts after node number `at`. */
  lemma InsertChain(next: seq<int>, next': seq<int>, head: int, spine: seq<int>, at: nat, item: int)
    requires Chain(next, head, spine) && at < |spine| && |next'| == |next|
    requires 0 <= item < |next| && item !in spine
    requires next'[item] == next[spine[at]] && next'[spine[at]] == item
    requires forall i :: 0 <= i < |spine| && i != at ==> next'[spine[i]] == next[spine[i]]
    ensures Chain(next', head, WithAfter(spine, at, item))
  {
    var t := WithAfter(spine, at, item);
    WithAfterDistinct(spine, at, item);
    assert next[spine[at]] == Link(spine, at);
    forall i | 0 <= i < |t|
      ensures 0 <= t[i] < |next'| && next'[t[i]] == Link(t, i)
    {
      if i < at {
        assert next[spine[i]] == Link(spine, i);
      } else if i > at + 1 {
        assert next[spine[i - 1]] == Link(spine, i - 1);
      }
    }
  }

  /** Bypassing node number `at` from its predecessor (or from the head) removes it. */
  lemma RemoveChain(next: seq<int>, next': seq<int>, head: int, spine: seq<int>, at: nat)
    requires Chain(next, head, spine) && at < |spine| && |next'| == |next|
    requires at > 0 ==> next'[spine[at - 1]] == next[spine[at]]
    requires forall i :: 0 <= i < |spine| && i != at && i != at - 1 ==> next'[spine[i]] == next[spine[i]]
    ensures Chain(next', if at == 0 then next[spine[0]] else head, Without(spine, at))
  {
    var t := Without(spine, at);
    assert next[spine[at]] == Link(spine, at);
    forall i | 0 <= i < |t|
      ensures 0 <= t[i] < |next'| && next'[t[i]] == Link(t, i)
    {
      var k := if i < at then i else i + 1;
      assert next[spine[k]] == Link(spine, k);
    }
  }

  // ---------------------------------------------------------------- list operations

  /** tn_list_push: new first node. */
  method Push<T(0)>(p: Pool<T>, head: int, item: int, ghost spine: seq<int>) returns (head': int)
    requires p.Valid() && Chain(p.next, head, spine)
    requires 0 <= item < p.Num() && item !in spine
    modifies p`next
    ensures |p.next| == |old(p.next)|
    ensures Chain(p.next, head', [item] + spine)
    ensures forall j :: 0 <= j < p.Num() && j != item ==> p.next[j] == old(p.next[j])
  {
    ghost var next := p.next;
    p.next := p.next[item := head];
    head' := item;
    forall i | 0 <= i < |spine|
      ensures p.next[spine[i]] == Link([item] + spine, i + 1)
    {
      assert next[spine[i]] == Link(spine, i);
    }
  }

  /** tn_list_add: walk to the tail and link the new node there. */
  method Add<T(0)>(p: Pool<T>, head: int, item: int, ghost spine: seq<int>) returns (head': int)
    requires p.Valid() && Chain(p.next, head, spine)
    requires 0 <= item < p.Num() && item !in spine
    modifies p`next
    ensures |p.next| == |old(p.next)|
    ensures Chain(p.next, head', spine + [item])
    ensures forall j :: 0 <= j < p.Num() && j != item && j !in spine ==> p.next[j] == old(p.next[j])
  {
    p.next := p.next[item := NULL];
    if head == NULL {
      head' := item;
    } else {
      var tail := head;
      ghost var i := 0;
      while p.next[tail] != NULL
        invariant 0 <= i < |spine| && tail == spine[i] && p.next == old(p.next)[item := NULL]
        decreases |spine| - i
      {
        assert p.next[spine[i]] == Link(spine, i);
        tail := p.next[tail];
        i := i + 1;
      }
      assert p.next[spine[i]] == Link(spine, i);
      assert i == |spine| - 1;
      p.next := p.next[tail := item];
      head' := head;
      forall k | 0 <= k < |spine|
        ensures p.next[spine[k]] == Link(spine + [item], k)
      {
        assert old(p.next)[spine[k]] == Link(spine, k);
      }
    }
  }

  /** tn_list_insert: link `item` right after `prev`, which is node number `at` of the list. */
  method Insert<T(0)>(p: Pool<T>, head: int, prev: int, item: int, ghost spine: seq<int>, ghost at: nat)
    requires p.Valid() && Chain(p.next, head, spine)
    requires 0 <= item < p.Num() && item !in spine
    requires at < |spine| && spine[at] == prev
    modifies p`next
    ensures |p.next| == |old(p.next)|
    ensures Chain(p.next, head, WithAfter(spine, at, item))
    ensures forall j :: 0 <= j < p.Num() && j != item && j !in spine ==> p.next[j] == old(p.next[j])
  {
    ghost var next := p.next;
    p.next := p.next[item := p.next[prev]];
    p.next := p.next[prev := item];
    InsertChain(next, p.next, head, spine, at, item);
  }

  /** tn_list_remove: find the node's predecessor and splice the node out. */
  method Remove<T(0)>(p: Pool<T>, head: int, item: int, ghost spine: seq<int>, ghost at: nat) returns (head': int)
    requires p.Valid() && Chain(p.next, head, spine)
    requires at < |spine| && spine[at] == item
    modifies p`next
    ensures |p.next| == |old(p.next)|
    ensures Chain(p.next, head', Without(spine, at))
    ensures forall j :: 0 <= j < p.Num() && j !in spine ==> p.next[j] == old(p.next[j])
  {
    ghost var next := p.next;
    if head == item {
      assert at == 0;
      head' := p.next[item];
    } else {
      var r := head;
      ghost var i := 0;
      while p.next[r] != item
        invariant 0 <= i < at && r == spine[i]
        decreases at - i
      {
        assert next[spine[i]] == Link(spine, i);
        r := p.next[r];
        i := i + 1;
      }
      assert next[spine[i]] == Link(spine, i);
      assert i == at - 1;
      p.next := p.next[r := p.next[item]];
      head' := head;
    }
    p.next := p.next[item := NULL];
    RemoveChain(next, p.next, head, spine, at);
  }

  /** tn_list_pop: unlink and return the first node, whatever list it may also be in. */
  method Pop<T(0)>(p: Pool<T>, head: int) returns (head': int, item: int)
    requires p.Valid() && (head == NULL || 0 <= head < p.Num())
    modifies p`next
    ensures item == head
    ensures head == NULL ==> head' == NULL && p.next == old(p.next)
    ensures head != NULL ==> head' == old(p.next)[head] && p.next == old(p.next)[head := NULL]
  {
    item := head;
    if head == NULL {
      head' := NULL;
    } else {
      head' := p.next[head];
      p.next := p.next[head := NULL];
    }
  }
}
