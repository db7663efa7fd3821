/** `getAllPlayers`: scan every stored record in order and keep those that pass each of the
    criteria that were supplied. */
module Filter {
  import opened Entity

  /** The eleven optional query parameters; `None` is a null parameter. `after` and `before`
      are timestamps. */
  datatype Criteria = Criteria(
    name: Option<string>,
    title: Option<string>,
    race: Option<Race>,
    profession: Option<Profession>,
    after: Option<int>,
    before: Option<int>,
    banned: Option<bool>,
    minExperience: Option<int>,
    maxExperience: Option<int>,
    minLevel: Option<int>,
    maxLevel: Option<int>)

  const NoCriteria := Criteria(None, None, None, None, None, None, None, None, None, None, None)

  /** `s.contains(sub)`: `sub` occurs in `s` as a contiguous run, case-sensitively. */
  predicate Contains(s: string, sub: string) {
    sub <= s || (|s| != 0 && Contains(s[1..], sub))
  }

  /** `sub` occurs in `s` starting at index `i`. */
  predicate OccursAt(s: string, sub: string, i: int) {
    0 <= i <= |s| - |sub| && s[i..i + |sub|] == sub
  }

  lemma {:induction false} ContainsIff(s: string, sub: string)
    ensures Contains(s, sub) <==> exists i :: OccursAt(s, sub, i)
  {
    if sub <= s {
      assert OccursAt(s, sub, 0);
    }
    if |s| != 0 {
      ContainsIff(s[1..], sub);
      if exists i :: OccursAt(s[1..], sub, i) {
        var i :| OccursAt(s[1..], sub, i);
        assert s[i + 1..i + 1 + |sub|] == s[1..][i..i + |sub|];
        assert OccursAt(s, sub, i + 1);
      }
      if exists i :: OccursAt(s, sub, i) {
        var i :| OccursAt(s, sub, i);
        if i == 0 {
          assert sub <= s;
        } else {
          assert s[1..][i - 1..i - 1 + |sub|] == s[i..i + |sub|];
          assert OccursAt(s[1..], sub, i - 1);
        }
      }
    }
  }

  /** The record passes every supplied criterion. The birthday bounds reject only a birthday
      strictly before `after` or strictly after `before`; the experience and level bounds
      reject only values strictly outside them. */
  predicate Matches(c: Criteria, p: Player) {
    && (c.name.Some? ==> Contains(p.name, c.name.value))
    && (c.title.Some? ==> Contains(p.title, c.title.value))
    && (c.race.Some? ==> p.race == c.race.value)
    && (c.profession.Some? ==> p.profession == c.profession.value)
    && (c.after.Some? ==> !(p.birthday < c.after.value))
    && (c.before.Some? ==> !(p.birthday > c.before.value))
    && (c.banned.Some? ==> p.banned == c.banned.value)
    && (c.minExperience.Some? ==> !(p.experience < c.minExperience.value))
    && (c.maxExperience.Some? ==> !(p.experience > c.maxExperience.value))
    && (c.minLevel.Some? ==> !(p.level < c.minLevel.value))
    && (c.maxLevel.Some? ==> !(p.level > c.maxLevel.value))
  }

  /** The records of `s` that match, in their order in `s`. */
  function Select(s: seq<Player>, c: Criteria): seq<Player> {
    if |s| == 0 then []
    else Select(s[..|s| - 1], c) + (if Matches(c, s[|s| - 1]) then [s[|s| - 1]] else [])
  }

  /** `a` is `b` with some elements removed, the rest in the same order. */
  predicate IsSubsequence(a: seq<Player>, b: seq<Player>) {
    if |a| == 0 then true
    else if |b| == 0 then false
    else if a[|a| - 1] == b[|b| - 1] then IsSubsequence(a[..|a| - 1], b[..|b| - 1])
    else IsSubsequence(a, b[..|b| - 1])
  }

  method GetAllPlayers(stored: seq<Player>, c: Criteria) returns (players: seq<Player>)
    ensures players == Select(stored, c)
  {
    players := [];
    for i := 0 to |stored|
      invariant players == Select(stored[..i], c)
    {
      var player := stored[i];
      assert stored[..i + 1][..i] == stored[..i];
      if c.name.Some? && !Contains(player.name, c.name.value) { continue; }
      if c.title.Some? && !Contains(player.title, c.title.value) { continue; }
      if c.race.Some? && player.race != c.race.value { continue; }
      if c.profession.Some? && player.profession != c.profession.value { continue; }
      if c.after.Some? && player.birthday < c.after.value { continue; }
      if c.before.Some? && player.birthday > c.before.value { continue; }
      if c.banned.Some? && player.banned != c.banned.value { continue; }
      if c.minExperience.Some? && player.experience < c.minExperience.value { continue; }
      if c.maxExperience.Some? && player.experience > c.maxExperience.value { continue; }
      if c.minLevel.Some? && player.level < c.minLevel.value { continue; }
      if c.maxLevel.Some? && player.level > c.maxLevel.value { continue; }
      players := players + [player];
    }
    assert stored[..|stored|] == stored;
  }

  /** The result keeps the stored order. */
  lemma {:induction false} SelectIsSubsequence(s: seq<Player>, c: Criteria)
    ensures IsSubsequence(Select(s, c), s)
  {
    if |s| != 0 {
      var init := s[..|s| - 1];
      SelectIsSubsequence(init, c);
      if Matches(c, s[|s| - 1]) {
        assert Select(s, c)[..|Select(s, c)| - 1] == Select(init, c);
      } else {
        assert Select(s, c) == Select(init, c);
        if |Select(init, c)| != 0 {
          SubsequenceOfLast(Select(init, c), init, s[|s| - 1]);
        }
      }
    }
  }

  lemma {:induction false} SubsequenceOfLast(a: seq<Player>, b: seq<Player>, x: Player)
    requires IsSubsequence(a, b)
    ensures IsSubsequence(a, b + [x])
    decreases |b|, 1
  {
    assert (b + [x])[..|b|] == b;
    if |a| != 0 && a[|a| - 1] == x {
      SubsequenceOfPrefix(a, b);
    }
  }

  lemma {:induction false} SubsequenceOfPrefix(a: seq<Player>, b: seq<Player>)
    requires |a| != 0 && IsSubsequence(a, b)
    ensures IsSubsequence(a[..|a| - 1], b)
    decreases |b|, 0
  {
    var init, bi, y := a[..|a| - 1], b[..|b| - 1], b[|b| - 1];
    assert bi + [y] == b;
    if a[|a| - 1] != y {
      SubsequenceOfPrefix(a, bi);
    }
    SubsequenceOfLast(init, bi, y);
  }

  /** Exactly the matching records are kept, each as often as it is stored; the others
      are dropped. */
  lemma {:induction false} SelectExact(s: seq<Player>, c: Criteria, x: Player)
    ensures multiset(Select(s, c))[x] == if Matches(c, x) then multiset(s)[x] else 0
  {
    if |s| != 0 {
      var init := s[..|s| - 1];
      SelectExact(init, c, x);
      assert s == init + [s[|s| - 1]];
    }
  }

  lemma SelectSoundAndComplete(s: seq<Player>, c: Criteria)
    ensures forall x :: x in Select(s, c) <==> x in s && Matches(c, x)
  {
    forall x ensures x in Select(s, c) <==> x in s && Matches(c, x) {
      SelectExact(s, c, x);
      assert x in Select(s, c) <==> x in multiset(Select(s, c));
    }
  }

  /** With no criteria every stored record is returned, in the stored order. */
  lemma {:induction false} SelectNoCriteria(s: seq<Player>)
    ensures Select(s, NoCriteria) == s
  {
    if |s| != 0 {
      SelectNoCriteria(s[..|s| - 1]);
    }
  }

  /** The birthday bounds are inclusive: a birthday equal to `after` or to `before` is kept. */
  lemma BirthdayBoundsInclusive(after: int, before: int, p: Player)
    ensures Matches(NoCriteria.(after := Some(after), before := Some(before)), p)
        <==> after <= p.birthday <= before
  {
  }

  /** `minLevel = maxLevel = L` keeps exactly the records at level `L`. */
  lemma {:induction false} SingleLevelSelect(s: seq<Player>, lvl: int)
    ensures forall x :: x in Select(s, NoCriteria.(minLevel := Some(lvl), maxLevel := Some(lvl)))
                       <==> x in s && x.level == lvl
  {
    SelectSoundAndComplete(s, NoCriteria.(minLevel := Some(lvl), maxLevel := Some(lvl)));
  }

  /** A name criterion keeps a record exactly when the criterion occurs in its name. */
  lemma NameCriterion(name: string, p: Player)
    ensures Matches(NoCriteria.(name := Some(name)), p)
        <==> exists i :: OccursAt(p.name, name, i)
  {
    ContainsIff(p.name, name);
  }
}
