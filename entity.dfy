/** The player entity: the value a stored record holds, the mutable entity object the
    update path writes through its setters, and the request body whose fields may be absent. */
module Entity {

  /** A Java reference that may be null. */
  datatype Option<+T> = None | Some(value: T) {
    function GetOr(default: T): T {
      match this
      case Some(v) => v
      case None => default
    }
  }

  datatype Race = Human | Elf | Dwarf | Giant | Orc | Troll | Hobbit

  datatype Profession = Warrior | Rogue | Sorcerer | Clans | Paladin | Knight | Druid

  /** A stored player record. Timestamps (`birthday`) are milliseconds since the epoch,
      as `java.util.Date` holds them. */
  datatype Player = Player(
    id: int,
    name: string,
    title: string,
    race: Race,
    profession: Profession,
    birthday: int,
    banned: bool,
    experience: int,
    level: int,
    untilNextLevel: int)

  /** A player as it arrives in a request body: every client-settable field may be null.
      The body's id, level and untilNextLevel are never read by the service, so they are not here. */
  datatype Draft = Draft(
    name: Option<string>,
    title: Option<string>,
    race: Option<Race>,
    profession: Option<Profession>,
    birthday: Option<int>,
    banned: Option<bool>,
    experience: Option<int>)

  /** The managed entity object; its setters write one field at a time. */
  class PlayerEntity {
    var id: int
    var name: string
    var title: string
    var race: Race
    var profession: Profession
    var birthday: int
    var banned: bool
    var experience: int
    var level: int
    var untilNextLevel: int

    /** The record this object currently holds. */
    function Record(): Player
      reads this
    {
      Player(id, name, title, race, profession, birthday, banned, experience, level, untilNextLevel)
    }

    constructor (p: Player)
      ensures Record() == p
    {
      id, name, title, race, profession := p.id, p.name, p.title, p.race, p.profession;
      birthday, banned, experience := p.birthday, p.banned, p.experience;
      level, untilNextLevel := p.level, p.untilNextLevel;
    }
  }
}
