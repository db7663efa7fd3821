/** The orders a player list can be sorted by, and the comparator the service hands to
    `List.sort`: `KeyLe(o, p, q)` is "compare(p, q) <= 0" and `SameKey(o, p, q)` is
    "compare(p, q) == 0" for the key `o` selects. */
module Ordering {
  import opened Entity
  import opened Utf16

  datatype PlayerOrder = Id | Name | Level | Birthday | Experience

  predicate KeyLe(o: PlayerOrder, p: Player, q: Player) {
    match o
    case Id => p.id <= q.id
    case Name => CompareLe(p.name, q.name)
    case Level => p.level <= q.level
    case Birthday => p.birthday <= q.birthday
    case Experience => p.experience <= q.experience
  }

  predicate SameKey(o: PlayerOrder, p: Player, q: Player) {
    match o
    case Id => p.id == q.id
    case Name => p.name == q.name
    case Level => p.level == q.level
    case Birthday => p.birthday == q.birthday
    case Experience => p.experience == q.experience
  }

  /** The comparator is a total preorder whose equivalence is `SameKey`: what a stable
      sort needs from it. */
  lemma KeyLeTotal(o: PlayerOrder, p: Player, q: Player)
    ensures KeyLe(o, p, q) || KeyLe(o, q, p)
  {
    if o == Name {
      CompareLeTotal(p.name, q.name);
    }
  }

  lemma KeyLeTransitive(o: PlayerOrder, p: Player, q: Player, r: Player)
    requires KeyLe(o, p, q) && KeyLe(o, q, r)
    ensures KeyLe(o, p, r)
  {
    if o == Name {
      CompareLeTransitive(p.name, q.name, r.name);
    }
  }

  lemma KeyLeBothWays(o: PlayerOrder, p: Player, q: Player)
    ensures KeyLe(o, p, q) && KeyLe(o, q, p) <==> SameKey(o, p, q)
  {
    if o == Name {
      CompareLeAntisymmetric(p.name, q.name);
    }
  }
}
