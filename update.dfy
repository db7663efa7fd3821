/** `updatePlayer` and `setExpAndLvl`: the entity object is written field by field through its
    setters. `updatePlayer` handles the fields of the request body in a fixed order and
    throws at the first supplied field that fails its rule, so the fields it handled before
    that one are already written when it throws, and the record is not saved. */
module Update {
  import opened Entity
  import opened Validation
  import opened Leveling

  /** The invariant of a stored record: every field meets its rule, and level and
      untilNextLevel are the ones its experience gives. */
  predicate WellFormed(p: Player, bounds: DateBounds) {
    && IsNameValid(Some(p.name))
    && IsTitleValid(Some(p.title))
    && IsDateValid(Some(p.birthday), bounds)
    && IsExpValid(Some(p.experience))
    && p.level == CurrentLevel(p.experience)
    && p.untilNextLevel == UntilNextLevel(p.experience, p.level)
  }

  /** The fields `updatePlayer` handles, in the order it handles them. */
  datatype Field = NameField | TitleField | RaceField | ProfessionField | BirthdayField | BannedField | ExperienceField

  function Rank(f: Field): nat {
    match f
    case NameField => 0
    case TitleField => 1
    case RaceField => 2
    case ProfessionField => 3
    case BirthdayField => 4
    case BannedField => 5
    case ExperienceField => 6
  }

  predicate Supplied(d: Draft, f: Field) {
    match f
    case NameField => d.name.Some?
    case TitleField => d.title.Some?
    case RaceField => d.race.Some?
    case ProfessionField => d.profession.Some?
    case BirthdayField => d.birthday.Some?
    case BannedField => d.banned.Some?
    case ExperienceField => d.experience.Some?
  }

  /** The field's rule; race, profession and banned have none. */
  predicate Accepted(d: Draft, f: Field, bounds: DateBounds) {
    match f
    case NameField => IsNameValid(d.name)
    case TitleField => IsTitleValid(d.title)
    case BirthdayField => IsDateValid(d.birthday, bounds)
    case ExperienceField => IsExpValid(d.experience)
    case _ => true
  }

  /** The field at which `updatePlayer` throws: the first, in handling order, that is supplied
      and fails its rule; `None` when it completes. */
  function FirstInvalid(d: Draft, bounds: DateBounds): (f: Option<Field>)
  {
    if d.name.Some? && !IsNameValid(d.name) then Some(NameField)
    else if d.title.Some? && !IsTitleValid(d.title) then Some(TitleField)
    else if d.birthday.Some? && !IsDateValid(d.birthday, bounds) then Some(BirthdayField)
    else if d.experience.Some? && !IsExpValid(d.experience) then Some(ExperienceField)
    else None
  }

  /** The stopping field is supplied and fails its rule, and every supplied field before it
      (every supplied field, when nothing fails) passes its rule. */
  lemma FirstInvalidSpec(d: Draft, bounds: DateBounds)
    ensures var f := FirstInvalid(d, bounds);
      && (f.Some? ==> Supplied(d, f.value) && !Accepted(d, f.value, bounds))
      && forall g :: Supplied(d, g) && (f.None? || Rank(g) < Rank(f.value)) ==> Accepted(d, g, bounds)
  {
  }

  /** Field `f` is absent, or present and meeting its rule: handling it does not throw. */
  predicate Passes(d: Draft, f: Field, bounds: DateBounds) {
    !Supplied(d, f) || Accepted(d, f, bounds)
  }

  /** `updatePlayer` gets as far as field `f`: no field handled before it threw. */
  predicate Reached(d: Draft, f: Field, bounds: DateBounds) {
    match f
    case NameField => true
    case TitleField => Passes(d, NameField, bounds)
    case BannedField | ExperienceField =>
      Passes(d, NameField, bounds) && Passes(d, TitleField, bounds) && Passes(d, BirthdayField, bounds)
    case _ => Passes(d, NameField, bounds) && Passes(d, TitleField, bounds)
  }

  /** `updatePlayer` reaches the supplied field `f` and writes it. */
  predicate Written(d: Draft, f: Field, bounds: DateBounds) {
    Supplied(d, f) && Reached(d, f, bounds) && Accepted(d, f, bounds)
  }

  /** A field is written exactly when it is supplied and comes before the field at which
      `updatePlayer` throws (every supplied field, when it does not throw). */
  lemma WrittenIff(d: Draft, f: Field, bounds: DateBounds)
    ensures var stop := FirstInvalid(d, bounds);
      Written(d, f, bounds) <==> Supplied(d, f) && (stop.None? || Rank(f) < Rank(stop.value))
  {
  }

  /** The record the entity holds once `updatePlayer` has returned or thrown: the written
      fields take the body's values, every other field keeps its old value. */
  function Patched(p: Player, d: Draft, bounds: DateBounds): Player {
    var leveled := Written(d, ExperienceField, bounds);
    assert leveled ==> Accepted(d, ExperienceField, bounds);
    Player(
      p.id,
      if Written(d, NameField, bounds) then d.name.value else p.name,
      if Written(d, TitleField, bounds) then d.title.value else p.title,
      if Written(d, RaceField, bounds) then d.race.value else p.race,
      if Written(d, ProfessionField, bounds) then d.profession.value else p.profession,
      if Written(d, BirthdayField, bounds) then d.birthday.value else p.birthday,
      if Written(d, BannedField, bounds) then d.banned.value else p.banned,
      if leveled then d.experience.value else p.experience,
      if leveled then CurrentLevel(d.experience.value) else p.level,
      if leveled then UntilNextLevel(d.experience.value, CurrentLevel(d.experience.value)) else p.untilNextLevel)
  }

  datatype UpdateOutcome = Saved(record: Player) | IllegalAccess

  /** `updatePlayer(oldPlayer, newPlayer)`: `Saved` carries the record handed to the
      repository and returned; `IllegalAccess` is the thrown exception, after which nothing
      is saved. Whether it returns or throws, the entity holds the patched record. */
  method UpdatePlayer(oldPlayer: PlayerEntity, newPlayer: Draft, bounds: DateBounds) returns (r: UpdateOutcome)
    modifies oldPlayer
    ensures oldPlayer.Record() == Patched(old(oldPlayer.Record()), newPlayer, bounds)
    ensures r.Saved? <==> FirstInvalid(newPlayer, bounds).None?
    ensures r.Saved? ==> r.record == oldPlayer.Record()
  {
    ghost var before := oldPlayer.Record();
    var thrown := UpdateName(oldPlayer, newPlayer.name);
    if thrown {
      ThrowAtName(before, newPlayer, bounds);
      return IllegalAccess;
    }
    thrown := UpdateTitle(oldPlayer, newPlayer.title);
    if thrown {
      ThrowAtTitle(before, newPlayer, bounds);
      return IllegalAccess;
    }
    UpdateRaceAndProfession(oldPlayer, newPlayer.race, newPlayer.profession);
    thrown := UpdateBirthday(oldPlayer, newPlayer.birthday, bounds);
    if thrown {
      ThrowAtBirthday(before, newPlayer, bounds);
      return IllegalAccess;
    }
    UpdateBanned(oldPlayer, newPlayer.banned);
    thrown := UpdateExperience(oldPlayer, newPlayer.experience);
    if thrown {
      ThrowAtExperience(before, newPlayer, bounds);
      return IllegalAccess;
    }
    CompletesWith(before, newPlayer, bounds);
    r := Saved(oldPlayer.Record());
  }

  /** The name block: a supplied name is written when valid and throws otherwise. */
  method UpdateName(oldPlayer: PlayerEntity, name: Option<string>) returns (thrown: bool)
    modifies oldPlayer
    ensures thrown <==> name.Some? && !IsNameValid(name)
    ensures oldPlayer.Record() == if thrown then old(oldPlayer.Record()) else old(oldPlayer.Record()).(name := name.GetOr(old(oldPlayer.name)))
  {
    thrown := false;
    if name.Some? {
      if IsNameValid(name) {
        oldPlayer.name := name.value;
      } else {
        thrown := true;
      }
    }
  }

  /** The title block. */
  method UpdateTitle(oldPlayer: PlayerEntity, title: Option<string>) returns (thrown: bool)
    modifies oldPlayer
    ensures thrown <==> title.Some? && !IsTitleValid(title)
    ensures oldPlayer.Record() == if thrown then old(oldPlayer.Record()) else old(oldPlayer.Record()).(title := title.GetOr(old(oldPlayer.title)))
  {
    thrown := false;
    if title.Some? {
      if IsTitleValid(title) {
        oldPlayer.title := title.value;
      } else {
        thrown := true;
      }
    }
  }

  /** Race and profession have no rule: a supplied value is written. */
  method UpdateRaceAndProfession(oldPlayer: PlayerEntity, race: Option<Race>, profession: Option<Profession>)
    modifies oldPlayer
    ensures oldPlayer.Record() == old(oldPlayer.Record()).(race := race.GetOr(old(oldPlayer.race)), profession := profession.GetOr(old(oldPlayer.profession)))
  {
    if race.Some? {
      oldPlayer.race := race.value;
    }
    if profession.Some? {
      oldPlayer.profession := profession.value;
    }
  }

  /** The birthday block. */
  method UpdateBirthday(oldPlayer: PlayerEntity, newBirthday: Option<int>, bounds: DateBounds) returns (thrown: bool)
    modifies oldPlayer
    ensures thrown <==> newBirthday.Some? && !IsDateValid(newBirthday, bounds)
    ensures oldPlayer.Record() == if thrown then old(oldPlayer.Record()) else old(oldPlayer.Record()).(birthday := newBirthday.GetOr(old(oldPlayer.birthday)))
  {
    thrown := false;
    if newBirthday.Some? {
      if IsDateValid(newBirthday, bounds) {
        oldPlayer.birthday := newBirthday.value;
      } else {
        thrown := true;
      }
    }
  }

  /** The banned flag has no rule. */
  method UpdateBanned(oldPlayer: PlayerEntity, banned: Option<bool>)
    modifies oldPlayer
    ensures oldPlayer.Record() == old(oldPlayer.Record()).(banned := banned.GetOr(old(oldPlayer.banned)))
  {
    if banned.Some? {
      oldPlayer.banned := banned.value;
    }
  }

  /** The experience block: a valid experience is written together with the level and
      untilNextLevel it gives. */
  method UpdateExperience(oldPlayer: PlayerEntity, exp: Option<int>) returns (thrown: bool)
    modifies oldPlayer
    ensures thrown <==> exp.Some? && !IsExpValid(exp)
    ensures oldPlayer.Record() ==
      if exp.None? || thrown then old(oldPlayer.Record())
      else old(oldPlayer.Record()).(experience := exp.value, level := CurrentLevel(exp.value),
                                    untilNextLevel := UntilNextLevel(exp.value, CurrentLevel(exp.value)))
  {
    thrown := false;
    if exp.Some? {
      if IsExpValid(exp) {
        oldPlayer.experience := exp.value;
        var lvl := CurrentLevel(exp.value);
        oldPlayer.level := lvl;
        var untilNextLvl := UntilNextLevel(exp.value, lvl);
        oldPlayer.untilNextLevel := untilNextLvl;
      } else {
        thrown := true;
      }
    }
  }


  /** Throwing at the name: nothing has been written. */
  lemma ThrowAtName(p: Player, d: Draft, bounds: DateBounds)
    requires d.name.Some? && !IsNameValid(d.name)
    ensures Patched(p, d, bounds) == p
  {
  }

  /** Throwing at the title: only the name has been written. */
  lemma ThrowAtTitle(p: Player, d: Draft, bounds: DateBounds)
    requires Passes(d, NameField, bounds)
    requires d.title.Some? && !IsTitleValid(d.title)
    ensures Patched(p, d, bounds) == p.(name := d.name.GetOr(p.name))
  {
  }

  /** Throwing at the birthday: name, title, race and profession have been written. */
  lemma ThrowAtBirthday(p: Player, d: Draft, bounds: DateBounds)
    requires Passes(d, NameField, bounds) && Passes(d, TitleField, bounds)
    requires d.birthday.Some? && !IsDateValid(d.birthday, bounds)
    ensures Patched(p, d, bounds) == p.(name := d.name.GetOr(p.name), title := d.title.GetOr(p.title),
                                        race := d.race.GetOr(p.race), profession := d.profession.GetOr(p.profession))
  {
  }

  /** Throwing at the experience: every field but experience, level and untilNextLevel has
      been written. */
  lemma ThrowAtExperience(p: Player, d: Draft, bounds: DateBounds)
    requires Passes(d, NameField, bounds) && Passes(d, TitleField, bounds) && Passes(d, BirthdayField, bounds)
    requires d.experience.Some? && !IsExpValid(d.experience)
    ensures Patched(p, d, bounds) == p.(name := d.name.GetOr(p.name), title := d.title.GetOr(p.title),
                                        race := d.race.GetOr(p.race), profession := d.profession.GetOr(p.profession),
                                        birthday := d.birthday.GetOr(p.birthday), banned := d.banned.GetOr(p.banned))
  {
  }

  /** Completing without throwing: every supplied field has been written, and an experience
      brings its level and untilNextLevel with it. */
  lemma CompletesWith(p: Player, d: Draft, bounds: DateBounds)
    requires Passes(d, NameField, bounds) && Passes(d, TitleField, bounds)
    requires Passes(d, BirthdayField, bounds) && Passes(d, ExperienceField, bounds)
    ensures var q := p.(name := d.name.GetOr(p.name), title := d.title.GetOr(p.title),
                        race := d.race.GetOr(p.race), profession := d.profession.GetOr(p.profession),
                        birthday := d.birthday.GetOr(p.birthday), banned := d.banned.GetOr(p.banned));
      Patched(p, d, bounds) ==
        if d.experience.Some? then
          var e := d.experience.value;
          assert Passes(d, ExperienceField, bounds);
          q.(experience := e, level := CurrentLevel(e), untilNextLevel := UntilNextLevel(e, CurrentLevel(e)))
        else q
  {
  }

  /** `setExpAndLvl`: level and untilNextLevel are recomputed from the experience. */
  method SetExpAndLvl(player: PlayerEntity)
    requires IsExpValid(Some(player.experience))
    modifies player
    ensures var exp := old(player.experience);
      player.Record() == old(player.Record()).(
        level := CurrentLevel(exp),
        untilNextLevel := UntilNextLevel(exp, CurrentLevel(exp)))
  {
    var exp := player.experience;
    var lvl := CurrentLevel(exp);
    player.level := lvl;
    player.untilNextLevel := UntilNextLevel(exp, lvl);
  }

  /** When every supplied field is valid, each supplied field takes the body's value and
      each absent one keeps the old value; level and untilNextLevel follow the experience. */
  lemma UpdateWhenAllValid(p: Player, d: Draft, bounds: DateBounds)
    requires FirstInvalid(d, bounds).None?
    ensures var q := Patched(p, d, bounds);
      && q.id == p.id
      && q.name == d.name.GetOr(p.name)
      && q.title == d.title.GetOr(p.title)
      && q.race == d.race.GetOr(p.race)
      && q.profession == d.profession.GetOr(p.profession)
      && q.birthday == d.birthday.GetOr(p.birthday)
      && q.banned == d.banned.GetOr(p.banned)
      && q.experience == d.experience.GetOr(p.experience)
      && (d.experience.Some? ==>
            0 <= q.experience <= MAX_EXPERIENCE &&
            q.level == CurrentLevel(q.experience) &&
            q.untilNextLevel == UntilNextLevel(q.experience, q.level))
      && (d.experience.None? ==> q.level == p.level && q.untilNextLevel == p.untilNextLevel)
  {
    assert Supplied(d, ExperienceField) ==> Accepted(d, ExperienceField, bounds);
  }

  /** Level and untilNextLevel change only through a written experience. */
  lemma LevelFollowsExperience(p: Player, d: Draft, bounds: DateBounds)
    ensures var q := Patched(p, d, bounds);
      if Written(d, ExperienceField, bounds) then
        q.experience == d.experience.value &&
        0 <= q.experience <= MAX_EXPERIENCE &&
        q.level == CurrentLevel(q.experience) &&
        q.untilNextLevel == UntilNextLevel(q.experience, q.level)
      else
        q.experience == p.experience && q.level == p.level && q.untilNextLevel == p.untilNextLevel
  {
    assert Written(d, ExperienceField, bounds) ==> Accepted(d, ExperienceField, bounds);
  }

  /** The body with only the fields handled before `f`. */
  function Before(d: Draft, f: Field): Draft {
    var keep := (g: Field) => Rank(g) < Rank(f);
    Draft(
      if keep(NameField) then d.name else None,
      if keep(TitleField) then d.title else None,
      if keep(RaceField) then d.race else None,
      if keep(ProfessionField) then d.profession else None,
      if keep(BirthdayField) then d.birthday else None,
      if keep(BannedField) then d.banned else None,
      if keep(ExperienceField) then d.experience else None)
  }

  /** Not atomic: when `updatePlayer` throws at field `f`, the entity holds exactly what a
      completed update with only the fields handled before `f` would have left. */
  lemma FailedUpdateKeepsEarlierFields(p: Player, d: Draft, bounds: DateBounds)
    requires FirstInvalid(d, bounds).Some?
    ensures var f := FirstInvalid(d, bounds).value;
      && FirstInvalid(Before(d, f), bounds).None?
      && Patched(p, d, bounds) == Patched(p, Before(d, f), bounds)
  {
    var f := FirstInvalid(d, bounds).value;
    var e := Before(d, f);
    forall g ensures Supplied(e, g) ==> Accepted(e, g, bounds) {
      if Supplied(e, g) {
        assert Supplied(d, g) && Rank(g) < Rank(f);
        assert Accepted(d, g, bounds);
      }
    }
    assert FirstInvalid(e, bounds).None?;
    forall g ensures Written(d, g, bounds) == Written(e, g, bounds) {
    }
  }

  /** A valid name followed by a 31-character title: the exception comes at the title, yet
      the entity already holds the new name. */
  lemma PartialWriteExample(p: Player, bounds: DateBounds, title: string)
    requires p.name != "ab" && |title| == 31
    ensures var d := Draft(Some("ab"), Some(title), None, None, None, None, None);
      && FirstInvalid(d, bounds) == Some(TitleField)
      && Patched(p, d, bounds).name == "ab"
      && Patched(p, d, bounds) != p
  {
  }

  /** Every field `updatePlayer` writes meets its rule, so a well-formed record stays
      well-formed whether the update completes or throws. */
  lemma PatchedWellFormed(p: Player, d: Draft, bounds: DateBounds)
    requires WellFormed(p, bounds)
    ensures WellFormed(Patched(p, d, bounds), bounds)
  {
    forall g | Written(d, g, bounds) ensures Accepted(d, g, bounds) {
    }
  }

  /** For a body that supplies every field, the update completes exactly when the body would
      be accepted as a new player. */
  lemma FullBodyAgreesWithCreation(d: Draft, bounds: DateBounds)
    requires d.name.Some? && d.title.Some? && d.race.Some? && d.profession.Some?
    requires d.birthday.Some? && d.banned.Some? && d.experience.Some?
    ensures FirstInvalid(d, bounds).None? <==> IsPlayerValid(Some(d), bounds)
  {
    if FirstInvalid(d, bounds).None? {
      assert Accepted(d, NameField, bounds) && Accepted(d, TitleField, bounds);
      assert Accepted(d, BirthdayField, bounds) && Accepted(d, ExperienceField, bounds);
    }
  }
}
