/**
 * One kind of sublist (key-id lookups, key devices or key usages) inside every key descriptor, as it
 * stands in memory. Nothing here assumes that lists are well formed or share no node: the program
 * keeps them by head, count and links alone, and frees them by popping as often as the count says.
 */
module RawLists {
  import opened Bits
  import opened TnMem

  /** Links and use flags of the pool, and in each key slot a list header and an 8-bit entry count. */
  datatype Raw = Raw(next: seq<int>, used: seq<bool>, head: seq<int>, entries: seq<byte>)

  /** A pointer into a pool of `n` slots, or NULL. */
  predicate Pointer(x: int, n: nat) {
    x == NULL || 0 <= x < n
  }

  ghost predicate InBounds(r: Raw) {
    && |r.next| == |r.used| <= 255 && |r.head| == |r.entries|
    && (forall i :: 0 <= i < |r.next| ==> Pointer(r.next[i], |r.next|))
    && (forall k :: 0 <= k < |r.head| ==> Pointer(r.head[k], |r.next|))
  }

  /** A cleared pool of `num` slots, and `keys` empty lists. */
  function EmptyRaw(num: nat, keys: nat): Raw {
    Raw(seq(num, i => NULL), seq(num, i => false), seq(keys, i => NULL), seq(keys, i => 0))
  }

  // ---------------------------------------------------------------- release: pop and free, as often as the count says

  /** Pop the first node of key `k` and free it; freeing a slot not in use, or NULL, changes nothing. */
  function Round(r: Raw, k: nat): (t: Raw)
    requires InBounds(r) && k < |r.head|
    ensures InBounds(t) && |t.next| == |r.next| && t.entries == r.entries
    ensures |t.head| == |r.head| && forall j :: 0 <= j < |r.head| && j != k ==> t.head[j] == r.head[j]
  {
    var x := r.head[k];
    if x == NULL then r
    else r.(head := r.head[k := r.next[x]], next := r.next[x := NULL], used := r.used[x := false])
  }

  function Rounds(r: Raw, k: nat, n: nat): (t: Raw)
    requires InBounds(r) && k < |r.head|
    ensures InBounds(t) && |t.next| == |r.next| && t.entries == r.entries
    ensures |t.head| == |r.head| && forall j :: 0 <= j < |r.head| && j != k ==> t.head[j] == r.head[j]
    decreases n
  {
    if n == 0 then r else Rounds(Round(r, k), k, n - 1)
  }

  /** `while (entries--) free(pop(list))`: afterwards the count has wrapped. */
  function Release(r: Raw, k: nat): (t: Raw)
    requires InBounds(r) && k < |r.head|
    ensures InBounds(t) && |t.next| == |r.next| && |t.head| == |r.head|
  {
    var t := Rounds(r, k, r.entries[k]);
    t.(entries := t.entries[k := 255])
  }

  /** How many of the first `n` frees find their slot in use. */
  function Freed(r: Raw, k: nat, n: nat): (f: nat)
    requires InBounds(r) && k < |r.head|
    ensures f <= n
    decreases n
  {
    if n == 0 then 0
    else (if r.head[k] != NULL && r.used[r.head[k]] then 1 else 0) + Freed(Round(r, k), k, n - 1)
  }

  /** Slots the release of key `k` returns to the pool. */
  function ReleaseFreed(r: Raw, k: nat): (f: nat)
    requires InBounds(r) && k < |r.head|
    ensures f <= r.entries[k]
  {
    Freed(r, k, r.entries[k])
  }

  // ---------------------------------------------------------------- when every recorded node is returned

  /** The first `n` nodes met from `h`, fewer when the links end. */
  function Nodes(next: seq<int>, h: int, n: nat): (s: seq<int>)
    ensures |s| <= n && forall i :: 0 <= i < |s| ==> 0 <= s[i] < |next|
    decreases n
  {
    if n == 0 || !(0 <= h < |next|) then [] else [h] + Nodes(next, next[h], n - 1)
  }

  function Recorded(r: Raw, k: nat): seq<int>
    requires k < |r.head| == |r.entries|
  {
    Nodes(r.next, r.head[k], r.entries[k])
  }

  ghost predicate AllUsed(used: seq<bool>, s: seq<int>) {
    forall x :: x in s ==> 0 <= x < |used| && used[x]
  }

  /** The list of key `k` really has as many nodes as its count says, no node twice, all in use. */
  ghost predicate Whole(r: Raw, k: nat)
    requires k < |r.head| == |r.entries|
  {
    |Recorded(r, k)| == r.entries[k] && Distinct(Recorded(r, k)) && AllUsed(r.used, Recorded(r, k))
  }

  ghost predicate WholeUpTo(r: Raw, h: int, n: nat) {
    var s := Nodes(r.next, h, n);
    |s| == n && Distinct(s) && AllUsed(r.used, s)
  }

  ghost predicate Apart(s: seq<int>, t: seq<int>) {
    forall x :: x in s ==> x !in t
  }

  /** Cutting links in some nodes: a walk that avoids those nodes is the same, any other still meets one of them. */
  lemma {:induction false} WalkAfterCut(next: seq<int>, next': seq<int>, h: int, n: nat, cut: seq<int>)
    requires |next'| == |next| && forall i :: 0 <= i < |next| && i !in cut ==> next'[i] == next[i]
    ensures Apart(Nodes(next, h, n), cut) ==> Nodes(next', h, n) == Nodes(next, h, n)
    ensures !Apart(Nodes(next, h, n), cut) ==> !Apart(Nodes(next', h, n), cut)
    decreases n
  {
    if n > 0 && 0 <= h < |next| {
      var s, t := Nodes(next, h, n), Nodes(next', h, n);
      assert s[0] == h && t[0] == h;
      if h !in cut {
        WalkAfterCut(next, next', next[h], n - 1, cut);
        assert s[1..] == Nodes(next, next[h], n - 1) && t[1..] == Nodes(next', next[h], n - 1);
        assert forall x :: x in s <==> x == h || x in s[1..];
        assert forall x :: x in t <==> x == h || x in t[1..];
      }
    }
  }

  lemma DistinctCons(x: int, s: seq<int>)
    ensures Distinct([x] + s) <==> x !in s && Distinct(s)
  {
    var t := [x] + s;
    if Distinct(t) {
      forall i | 0 <= i < |s|
        ensures s[i] != x
      {
        assert t[0] != t[i + 1];
      }
      forall i, j | 0 <= i < j < |s|
        ensures s[i] != s[j]
      {
        assert t[i + 1] != t[j + 1];
      }
    }
  }

  /** A list is whole up to `n` when its first node is in use and, that node freed, the rest is whole. */
  lemma WholeFirst(r: Raw, k: nat, n: nat)
    requires InBounds(r) && k < |r.head| && n > 0 && r.head[k] != NULL
    ensures var t := Round(r, k);
            && (WholeUpTo(r, r.head[k], n) <==> r.used[r.head[k]] && WholeUpTo(t, t.head[k], n - 1))
            && (WholeUpTo(r, r.head[k], n) ==> Nodes(r.next, r.head[k], n) == [r.head[k]] + Nodes(t.next, t.head[k], n - 1))
  {
    var x, t := r.head[k], Round(r, k);
    var s, u := Nodes(r.next, r.next[x], n - 1), Nodes(t.next, r.next[x], n - 1);
    WalkAfterCut(r.next, t.next, r.next[x], n - 1, [x]);
    DistinctCons(x, s);
    assert Nodes(r.next, x, n) == [x] + s;
    if x in s {
      assert !Apart(s, [x]);
      assert x in u && !t.used[x];
    } else {
      assert Apart(s, [x]);
      forall y | y in s
        ensures t.used[y] == r.used[y]
      {
      }
      assert AllUsed(r.used, [x] + s) <==> r.used[x] && AllUsed(r.used, s) by {
        assert forall y :: y in [x] + s <==> y == x || y in s;
      }
    }
  }

  /**
   * The frees all find their slot in use exactly when the nodes met are as many as were to be
   * freed, all different and all in use: on any memory whatever.
   */
  lemma {:induction false} FreedExactly(r: Raw, k: nat, n: nat)
    requires InBounds(r) && k < |r.head|
    ensures Freed(r, k, n) == n <==> WholeUpTo(r, r.head[k], n)
    decreases n
  {
    if n > 0 && r.head[k] != NULL {
      WholeFirst(r, k, n);
      FreedExactly(Round(r, k), k, n - 1);
    }
  }

  /** A whole list is released node by node: exactly its nodes are unlinked and out of use. */
  lemma {:induction false} RoundsOfWhole(r: Raw, k: nat, n: nat)
    requires InBounds(r) && k < |r.head| && WholeUpTo(r, r.head[k], n)
    ensures var s, t := Nodes(r.next, r.head[k], n), Rounds(r, k, n);
            && (forall i :: 0 <= i < |r.next| ==> t.used[i] == (r.used[i] && i !in s))
            && (forall i :: 0 <= i < |r.next| ==> t.next[i] == if i in s then NULL else r.next[i])
    decreases n
  {
    if n > 0 {
      var x, t := r.head[k], Round(r, k);
      WholeFirst(r, k, n);
      RoundsOfWhole(t, k, n - 1);
      assert forall y :: y in Nodes(r.next, x, n) <==> y == x || y in Nodes(t.next, t.head[k], n - 1);
    }
  }

  /**
   * Releasing two keys one after the other returns every node either of them records exactly when both
   * lists are whole and they share no node.
   */
  lemma BothReturnedExactlyWhenApart(r: Raw, j: nat, k: nat)
    requires InBounds(r) && j < |r.head| && k < |r.head| && j != k
    ensures ReleaseFreed(r, j) + ReleaseFreed(Release(r, j), k) == r.entries[j] as int + r.entries[k] as int
       <==> Whole(r, j) && Whole(r, k) && Apart(Recorded(r, j), Recorded(r, k))
  {
    var t := Release(r, j);
    assert t.head[k] == r.head[k] && t.entries[k] == r.entries[k];
    FreedExactly(r, j, r.entries[j]);
    FreedExactly(t, k, t.entries[k]);
    if Whole(r, j) {
      RoundsOfWhole(r, j, r.entries[j]);
      WalkAfterCut(r.next, t.next, r.head[k], r.entries[k], Recorded(r, j));
    }
  }

  // ---------------------------------------------------------------- setting up a key, with nodes other keys may have too

  /** mac_keyDesc_set on one sublist: key `k` gets a new list of `items`, in that order. Only their links are written. */
  ghost predicate SetUp(a: Raw, b: Raw, k: nat, items: seq<int>) {
    && k < |a.head| == |a.entries| && |items| <= 255
    && |b.next| == |a.next| && b.used == a.used
    && b.entries == a.entries[k := |items|]
    && |b.head| == |a.head| && (forall j :: 0 <= j < |a.head| && j != k ==> b.head[j] == a.head[j])
    && Chain(b.next, b.head[k], items)
    && (forall i :: 0 <= i < |a.next| && i !in items ==> b.next[i] == a.next[i])
  }

  lemma ChainTail(next: seq<int>, head: int, s: seq<int>)
    requires Chain(next, head, s) && s != []
    ensures head == s[0] && Chain(next, next[s[0]], s[1..])
  {
    assert next[s[0]] == Link(s, 0);
    forall i | 0 <= i < |s| - 1
      ensures next[s[1..][i]] == Link(s[1..], i)
    {
      assert next[s[i + 1]] == Link(s, i + 1);
    }
  }

  lemma {:induction false} ChainNodes(next: seq<int>, head: int, s: seq<int>)
    requires Chain(next, head, s)
    ensures Nodes(next, head, |s|) == s
    decreases |s|
  {
    if s != [] {
      ChainTail(next, head, s);
      ChainNodes(next, next[s[0]], s[1..]);
      assert Nodes(next, head, |s|) == [s[0]] + Nodes(next, next[s[0]], |s| - 1);
    }
  }

  lemma {:induction false} NothingLeft(r: Raw, k: nat, n: nat)
    requires InBounds(r) && k < |r.head| && r.head[k] == NULL
    ensures Freed(r, k, n) == 0
    decreases n
  {
    if n > 0 {
      NothingLeft(r, k, n - 1);
    }
  }

  /** Two keys set up with the same nodes each have a whole list, but the second release returns nothing. */
  lemma SameNodesFreedOnce(r: Raw, r1: Raw, r2: Raw, j: nat, k: nat, items: seq<int>)
    requires SetUp(r, r1, j, items) && SetUp(r1, r2, k, items) && j != k && InBounds(r2)
    requires items != [] && AllUsed(r.used, items)
    ensures Whole(r2, j) && Whole(r2, k) && r2.entries[j] == r2.entries[k] == |items|
    ensures ReleaseFreed(r2, j) == |items| && ReleaseFreed(Release(r2, j), k) == 0
  {
    ChainNodes(r2.next, r2.head[k], items);
    FreedExactly(r2, j, |items|);
    RoundsOfWhole(r2, j, |items|);
    var t := Release(r2, j);
    assert items[0] in items && t.head[k] == items[0] && !t.used[items[0]] && t.next[items[0]] == NULL;
    NothingLeft(Round(t, k), k, |items| - 1);
  }
}
