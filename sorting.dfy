/** `sortPlayer`: the list is sorted in place by the chosen key with a stable sort, or left
    as it is when no order is given. The specification is a stable insertion sort on
    sequences; the lemmas show that it orders by the key, keeps every record, and keeps
    records with equal keys in their original order. */
module Sorting {
  import opened Entity
  import opened Ordering

  /** Puts `x` after every element whose key is at most `x`'s, that is, just before the
      first element that compares greater. */
  function Insert(o: PlayerOrder, x: Player, s: seq<Player>): seq<Player> {
    if |s| == 0 || !KeyLe(o, s[0], x) then [x] + s else [s[0]] + Insert(o, x, s[1..])
  }

  /** Stable sort: each element in turn is inserted after the equal ones already placed. */
  function SortBy(o: PlayerOrder, s: seq<Player>): seq<Player> {
    if |s| == 0 then [] else Insert(o, s[|s| - 1], SortBy(o, s[..|s| - 1]))
  }

  /** What `sortPlayer` leaves in the list. */
  function SortPlayers(s: seq<Player>, order: Option<PlayerOrder>): seq<Player> {
    match order
    case None => s
    case Some(o) => SortBy(o, s)
  }

  predicate Sorted(o: PlayerOrder, s: seq<Player>) {
    forall i, j :: 0 <= i < j < |s| ==> KeyLe(o, s[i], s[j])
  }

  /** The elements of `s` whose key equals `k`'s, in their order in `s`. */
  function WithKey(o: PlayerOrder, s: seq<Player>, k: Player): seq<Player> {
    if |s| == 0 then [] else (if SameKey(o, s[0], k) then [s[0]] else []) + WithKey(o, s[1..], k)
  }

  lemma {:induction false} WithKeyAppend(o: PlayerOrder, s: seq<Player>, x: Player, k: Player)
    ensures WithKey(o, s + [x], k) == WithKey(o, s, k) + (if SameKey(o, x, k) then [x] else [])
  {
    if |s| != 0 {
      assert (s + [x])[1..] == s[1..] + [x];
      WithKeyAppend(o, s[1..], x, k);
    }
  }

  lemma {:induction false} WithKeyNone(o: PlayerOrder, s: seq<Player>, k: Player)
    requires forall i :: 0 <= i < |s| ==> !SameKey(o, s[i], k)
    ensures WithKey(o, s, k) == []
  {
    if |s| != 0 {
      WithKeyNone(o, s[1..], k);
    }
  }

  lemma {:induction false} InsertMultiset(o: PlayerOrder, x: Player, s: seq<Player>)
    ensures multiset(Insert(o, x, s)) == multiset(s) + multiset{x}
  {
    if |s| != 0 && KeyLe(o, s[0], x) {
      InsertMultiset(o, x, s[1..]);
      assert s == [s[0]] + s[1..];
    }
  }

  lemma {:induction false} InsertSorted(o: PlayerOrder, x: Player, s: seq<Player>)
    requires Sorted(o, s)
    ensures Sorted(o, Insert(o, x, s))
  {
    var r := Insert(o, x, s);
    if |s| == 0 {
    } else if !KeyLe(o, s[0], x) {
      KeyLeTotal(o, s[0], x);
      forall j | 1 <= j < |r| ensures KeyLe(o, r[0], r[j]) {
        if j > 1 {
          KeyLeTransitive(o, x, s[0], s[j - 1]);
        }
      }
    } else {
      var t := Insert(o, x, s[1..]);
      InsertSorted(o, x, s[1..]);
      InsertMultiset(o, x, s[1..]);
      forall j | 0 <= j < |t| ensures KeyLe(o, s[0], t[j]) {
        assert t[j] in multiset(t);
        assert t[j] == x || t[j] in multiset(s[1..]);
        if t[j] != x {
          var m :| 0 <= m < |s[1..]| && s[1..][m] == t[j];
          assert s[m + 1] == t[j];
        }
      }
      assert r == [s[0]] + t;
    }
  }

  /** Java's sort reorders and never drops or duplicates. */
  lemma {:induction false} SortByPermutation(o: PlayerOrder, s: seq<Player>)
    ensures multiset(SortBy(o, s)) == multiset(s)
  {
    if |s| != 0 {
      var init := s[..|s| - 1];
      SortByPermutation(o, init);
      InsertMultiset(o, s[|s| - 1], SortBy(o, init));
      assert s == init + [s[|s| - 1]];
    }
  }

  /** The result is non-decreasing in the chosen key. */
  lemma {:induction false} SortBySorted(o: PlayerOrder, s: seq<Player>)
    ensures Sorted(o, SortBy(o, s))
  {
    if |s| != 0 {
      SortBySorted(o, s[..|s| - 1]);
      InsertSorted(o, s[|s| - 1], SortBy(o, s[..|s| - 1]));
    }
  }

  lemma {:induction false} InsertStable(o: PlayerOrder, x: Player, s: seq<Player>, k: Player)
    requires Sorted(o, s)
    ensures WithKey(o, Insert(o, x, s), k) == WithKey(o, s, k) + (if SameKey(o, x, k) then [x] else [])
  {
    if |s| == 0 || !KeyLe(o, s[0], x) {
      assert Insert(o, x, s) == [x] + s;
      InsertFront(o, x, s, k);
    } else {
      var t := Insert(o, x, s[1..]);
      assert Insert(o, x, s) == [s[0]] + t;
      assert ([s[0]] + t)[1..] == t;
      var head := if SameKey(o, s[0], k) then [s[0]] else [];
      assert WithKey(o, [s[0]] + t, k) == head + WithKey(o, t, k);
      assert WithKey(o, s, k) == head + WithKey(o, s[1..], k);
      SortedTail(o, s);
      InsertStable(o, x, s[1..], k);
      assert head + (WithKey(o, s[1..], k) + (if SameKey(o, x, k) then [x] else []))
          == (head + WithKey(o, s[1..], k)) + (if SameKey(o, x, k) then [x] else []);
    }
  }

  lemma SortedTail(o: PlayerOrder, s: seq<Player>)
    requires Sorted(o, s) && |s| != 0
    ensures Sorted(o, s[1..])
  {
    forall i, j | 0 <= i < j < |s| - 1 ensures KeyLe(o, s[1..][i], s[1..][j]) {
      assert s[1..][i] == s[i + 1] && s[1..][j] == s[j + 1];
    }
  }

  /** `x` placed in front of a sorted list whose first key is greater: it comes first
      among the records with its key. */
  lemma InsertFront(o: PlayerOrder, x: Player, s: seq<Player>, k: Player)
    requires Sorted(o, s)
    requires |s| == 0 || !KeyLe(o, s[0], x)
    ensures WithKey(o, [x] + s, k) == WithKey(o, s, k) + (if SameKey(o, x, k) then [x] else [])
  {
    assert ([x] + s)[1..] == s;
    if SameKey(o, x, k) && |s| != 0 {
      forall i | 0 <= i < |s| ensures !SameKey(o, s[i], k) {
        GreaterKeyDiffers(o, s, x, k, i);
      }
      WithKeyNone(o, s, k);
    }
  }

  /** When `x` goes in front of a sorted list, no element of the list shares its key. */
  lemma GreaterKeyDiffers(o: PlayerOrder, s: seq<Player>, x: Player, k: Player, i: nat)
    requires Sorted(o, s) && i < |s|
    requires !KeyLe(o, s[0], x) && SameKey(o, x, k)
    ensures !SameKey(o, s[i], k)
  {
    if SameKey(o, s[i], k) {
      assert SameKey(o, s[i], x);
      KeyLeBothWays(o, s[i], x);
      if i > 0 {
        KeyLeTransitive(o, s[0], s[i], x);
      }
    }
  }

  /** Stability: for every key, the records with that key appear in the result in the same
      order as in the input. */
  lemma {:induction false} SortByStable(o: PlayerOrder, s: seq<Player>, k: Player)
    ensures WithKey(o, SortBy(o, s), k) == WithKey(o, s, k)
  {
    if |s| != 0 {
      var init, x := s[..|s| - 1], s[|s| - 1];
      SortByStable(o, init, k);
      SortBySorted(o, init);
      InsertStable(o, x, SortBy(o, init), k);
      WithKeyAppend(o, init, x, k);
      assert s == init + [x];
    }
  }

  /** No order: the list is returned as it came. An order: sorted, a permutation, stable. */
  lemma SortPlayersSpec(s: seq<Player>, order: Option<PlayerOrder>)
    ensures order.None? ==> SortPlayers(s, order) == s
    ensures order.Some? ==>
      var r := SortPlayers(s, order);
      && Sorted(order.value, r)
      && multiset(r) == multiset(s)
      && forall k :: WithKey(order.value, r, k) == WithKey(order.value, s, k)
  {
    if order.Some? {
      SortBySorted(order.value, s);
      SortByPermutation(order.value, s);
      forall k ensures WithKey(order.value, SortBy(order.value, s), k) == WithKey(order.value, s, k) {
        SortByStable(order.value, s, k);
      }
    }
  }

  /** Where `x` is inserted: after the prefix whose keys are at most its key. */
  lemma {:induction false} InsertAt(o: PlayerOrder, x: Player, s: seq<Player>, j: nat)
    requires j <= |s|
    requires forall k :: 0 <= k < j ==> KeyLe(o, s[k], x)
    requires forall k :: j <= k < |s| ==> !KeyLe(o, s[k], x)
    ensures Insert(o, x, s) == s[..j] + [x] + s[j..]
  {
    if j != 0 {
      InsertAt(o, x, s[1..], j - 1);
      assert s[1..][..j - 1] == s[1..j];
      assert s[1..][j - 1..] == s[j..];
      assert s[..j] == [s[0]] + s[1..j];
    }
  }

  /** `players.sort(cmp)` when an order is given; the list is left alone otherwise. */
  method SortPlayer(a: array<Player>, order: Option<PlayerOrder>)
    modifies a
    ensures a[..] == SortPlayers(old(a[..]), order)
  {
    if order.None? {
      return;
    }
    var o := order.value;
    ghost var s0 := a[..];
    var i := 0;
    while i < a.Length
      invariant 0 <= i <= a.Length
      invariant a[..i] == SortBy(o, s0[..i])
      invariant a[i..] == s0[i..]
    {
      SortBySorted(o, s0[..i]);
      assert a[i] == s0[i];
      InsertLast(a, i, o);
      assert s0[..i + 1][..i] == s0[..i];
      assert a[i + 1..] == s0[i + 1..];
      i := i + 1;
    }
    assert s0[..a.Length] == s0;
  }

  /** One step of the in-place insertion sort: the sorted prefix `a[..i]` grows by `a[i]`. */
  method InsertLast(a: array<Player>, i: nat, o: PlayerOrder)
    requires i < a.Length
    requires Sorted(o, a[..i])
    modifies a
    ensures a[..i + 1] == Insert(o, old(a[i]), old(a[..i]))
    ensures a[i + 1..] == old(a[i + 1..])
  {
    ghost var sorted := a[..i];
    var x := a[i];
    var j := ShiftGreater(a, i, o, x);
    a[j] := x;
    PrefixBelow(o, sorted, x, j);
    InsertAt(o, x, sorted, j);
    SpliceAt(sorted, x, j);
    assert a[..i + 1] == sorted[..j] + [x] + sorted[j..];
  }

  /** The elements of `s[..j] + [x] + s[j..]`, place by place. */
  lemma SpliceAt(s: seq<Player>, x: Player, j: nat)
    requires j <= |s|
    ensures var r := s[..j] + [x] + s[j..];
      && |r| == |s| + 1
      && (forall k :: 0 <= k < j ==> r[k] == s[k])
      && r[j] == x
      && (forall k :: j < k <= |s| ==> r[k] == s[k - 1])
  {
  }

  /** Moves each element of `a[..i]` whose key is greater than `x`'s one place up, from the
      end of the prefix downwards, and returns the slot left free for `x`. */
  method ShiftGreater(a: array<Player>, i: nat, o: PlayerOrder, x: Player) returns (j: nat)
    requires i < a.Length
    modifies a
    ensures j <= i
    ensures forall k :: 0 <= k < j ==> a[k] == old(a[k])
    ensures forall k :: j < k <= i ==> a[k] == old(a[k - 1])
    ensures forall k :: i < k < a.Length ==> a[k] == old(a[k])
    ensures forall k :: j <= k < i ==> !KeyLe(o, old(a[k]), x)
    ensures j == 0 || KeyLe(o, old(a[j - 1]), x)
  {
    ghost var s := a[..];
    j := i;
    while j > 0 && !KeyLe(o, a[j - 1], x)
      invariant 0 <= j <= i
      invariant forall k :: 0 <= k < j ==> a[k] == s[k]
      invariant forall k :: j < k <= i ==> a[k] == s[k - 1]
      invariant forall k :: i < k < a.Length ==> a[k] == s[k]
      invariant forall k :: j <= k < i ==> !KeyLe(o, s[k], x)
    {
      a[j] := a[j - 1];
      j := j - 1;
    }
  }


  /** Below the first place where the key is at most `x`'s, a sorted list is at most `x`. */
  lemma PrefixBelow(o: PlayerOrder, sorted: seq<Player>, x: Player, j: nat)
    requires Sorted(o, sorted) && j <= |sorted|
    requires j == 0 || KeyLe(o, sorted[j - 1], x)
    ensures forall k :: 0 <= k < j ==> KeyLe(o, sorted[k], x)
  {
    forall k | 0 <= k < j ensures KeyLe(o, sorted[k], x) {
      if k < j - 1 {
        KeyLeTransitive(o, sorted[k], sorted[j - 1], x);
      }
    }
  }
}
