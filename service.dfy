/** The list, count and create endpoints as the controller composes the service operations:
    a page of the sorted filtered records, the number of filtered records, and a new record
    built from a valid request body. */
module Service {
  import opened Entity
  import opened Validation
  import opened Filter
  import opened Ordering
  import opened Sorting
  import opened Paging
  import opened Update

  /** `getPage(sortPlayer(getAllPlayers(...), order), pageNumber, pageSize)` over the stored
      records; the sort works in place on a fresh list holding the filtered records. */
  method ListPlayers(stored: seq<Player>, c: Criteria, order: Option<PlayerOrder>,
                     pageNumber: Option<int>, pageSize: Option<int>) returns (r: PageResult)
    ensures r == GetPage(SortPlayers(Select(stored, c), order), pageNumber, pageSize)
  {
    var players := GetAllPlayers(stored, c);
    var a := new Player[|players|](i requires 0 <= i < |players| => players[i]);
    assert a[..] == players;
    SortPlayer(a, order);
    r := GetPage(a[..], pageNumber, pageSize);
  }

  /** A page holds records of the list it is cut from. */
  lemma PageWithin(t: seq<Player>, pageNumber: Option<int>, pageSize: Option<int>)
    ensures var r := GetPage(t, pageNumber, pageSize);
      r.Page? ==> forall x :: x in r.players ==> x in t
  {
    var r := GetPage(t, pageNumber, pageSize);
    if r.Page? {
      var from := FromOf(pageNumber, pageSize);
      forall x | x in r.players ensures x in t {
        var k :| 0 <= k < |r.players| && r.players[k] == x;
        assert t[from + k] == x;
      }
    }
  }

  /** A page of a sorted list is sorted. */
  lemma PageSorted(o: PlayerOrder, t: seq<Player>, pageNumber: Option<int>, pageSize: Option<int>)
    requires Sorted(o, t)
    ensures var r := GetPage(t, pageNumber, pageSize);
      r.Page? ==> Sorted(o, r.players)
  {
    var r := GetPage(t, pageNumber, pageSize);
    if r.Page? {
      var from := FromOf(pageNumber, pageSize);
      forall i, j | 0 <= i < j < |r.players| ensures KeyLe(o, r.players[i], r.players[j]) {
        assert r.players[i] == t[from + i] && r.players[j] == t[from + j];
      }
    }
  }

  /** Every listed record is stored and matches the criteria, a page never holds more than
      the page size, and with an order the page is non-decreasing in its key. */
  lemma ListedPage(stored: seq<Player>, c: Criteria, order: Option<PlayerOrder>,
                   pageNumber: Option<int>, pageSize: Option<int>)
    ensures var r := GetPage(SortPlayers(Select(stored, c), order), pageNumber, pageSize);
      r.Page? ==>
        && |r.players| <= SizeOf(pageSize)
        && (forall x :: x in r.players ==> x in stored && Matches(c, x))
        && (order.Some? ==> Sorted(order.value, r.players))
  {
    var s := Select(stored, c);
    var t := SortPlayers(s, order);
    SortPlayersSpec(s, order);
    SelectSoundAndComplete(stored, c);
    PageWithin(t, pageNumber, pageSize);
    forall x | x in t ensures x in s {
      assert x in multiset(t);
    }
    if order.Some? {
      PageSorted(order.value, t, pageNumber, pageSize);
    }
  }

  /** `getAllPlayers(...).size()`. */
  method CountPlayers(stored: seq<Player>, c: Criteria) returns (n: nat)
    ensures n == |Select(stored, c)|
  {
    var players := GetAllPlayers(stored, c);
    n := |players|;
  }

  /** Filtering never adds records; with no criteria every stored record is counted. */
  lemma {:induction false} CountBounds(stored: seq<Player>, c: Criteria)
    ensures |Select(stored, c)| <= |stored|
    ensures c == NoCriteria ==> |Select(stored, c)| == |stored|
  {
    if |stored| != 0 {
      CountBounds(stored[..|stored| - 1], c);
    }
    if c == NoCriteria {
      SelectNoCriteria(stored);
    }
  }

  /** Creating a player: an invalid body is refused; a valid one gets `banned` false when it
      has none, and level and untilNextLevel from its experience. `id` is the identifier
      the repository assigns when it saves the record. */
  method CreatePlayer(candidate: Option<Draft>, bounds: DateBounds, id: int) returns (r: Option<Player>)
    ensures r.Some? <==> IsPlayerValid(candidate, bounds)
    ensures r.Some? ==>
      var d := candidate.value;
      && r.value.id == id
      && r.value.name == d.name.value && r.value.title == d.title.value
      && r.value.race == d.race.value && r.value.profession == d.profession.value
      && r.value.birthday == d.birthday.value && r.value.experience == d.experience.value
      && r.value.banned == d.banned.GetOr(false)
      && WellFormed(r.value, bounds)
  {
    if !IsPlayerValid(candidate, bounds) {
      return None;
    }
    var d := candidate.value;
    var banned := if d.banned.None? then false else d.banned.value;
    var player := new PlayerEntity(Player(id, d.name.value, d.title.value, d.race.value, d.profession.value,
                                          d.birthday.value, banned, d.experience.value, 0, 0));
    SetExpAndLvl(player);
    r := Some(player.Record());
  }
}
