/** Field rules of the player service: what a name, title, experience value and birthday
    must satisfy, when a whole candidate player is acceptable, and which identifier
    strings the boundary accepts. */
module Validation {
  import opened Entity
  import opened Utf16

  const MAX_NAME_LENGTH := 12
  const MAX_TITLE_LENGTH := 30
  const MIN_EXPERIENCE := 0
  const MAX_EXPERIENCE := 10_000_000

  /** The two instants a birthday must lie strictly between: the current moment with its
      year replaced by 2000 and by 3000. They come from the clock, so they are parameters. */
  datatype DateBounds = DateBounds(start: int, end: int)

  /** At most 12 UTF-16 code units, so at most 12 characters; any 1 to 6 characters fit. */
  predicate IsNameValid(name: Option<string>)
    ensures IsNameValid(name) ==> name.Some? && 1 <= |name.value| <= MAX_NAME_LENGTH
    ensures name.Some? && 1 <= |name.value| <= MAX_NAME_LENGTH / 2 ==> IsNameValid(name)
  {
    name.Some? && Utf16Length(name.value) != 0 && Utf16Length(name.value) <= MAX_NAME_LENGTH
  }

  /** At most 30 UTF-16 code units, so at most 30 characters; any 1 to 15 characters fit. */
  predicate IsTitleValid(title: Option<string>)
    ensures IsTitleValid(title) ==> title.Some? && 1 <= |title.value| <= MAX_TITLE_LENGTH
    ensures title.Some? && 1 <= |title.value| <= MAX_TITLE_LENGTH / 2 ==> IsTitleValid(title)
  {
    title.Some? && Utf16Length(title.value) != 0 && Utf16Length(title.value) <= MAX_TITLE_LENGTH
  }

  /** An accepted experience keeps `2500 + 200 * exp`, which `currentLevel` computes in
      32-bit `int` arithmetic, below 2^31. */
  predicate IsExpValid(exp: Option<int>)
    ensures IsExpValid(exp) ==> exp.Some? && 0 <= 2500 + 200 * exp.value < 0x8000_0000
  {
    exp.Some? && exp.value <= MAX_EXPERIENCE && exp.value >= MIN_EXPERIENCE
  }

  /** `date.after(start) && date.before(end)`: both ends exclusive. */
  predicate IsDateValid(date: Option<int>, bounds: DateBounds) {
    date.Some? && date.value > bounds.start && date.value < bounds.end
  }

  predicate IsPlayerValid(player: Option<Draft>, bounds: DateBounds) {
    && player.Some?
    && IsNameValid(player.value.name)
    && IsTitleValid(player.value.title)
    && IsDateValid(player.value.birthday, bounds)
    && IsExpValid(player.value.experience)
    && player.value.race.Some?
    && player.value.profession.Some?
  }

  /** A candidate is acceptable exactly when every field meets its rule; a missing body,
      a missing race or a missing profession is rejected. */
  lemma PlayerValidIff(player: Option<Draft>, bounds: DateBounds)
    ensures IsPlayerValid(player, bounds) <==>
      (player.Some? &&
       var d := player.value;
       d.name.Some? && 1 <= Utf16Length(d.name.value) <= 12 &&
       d.title.Some? && 1 <= Utf16Length(d.title.value) <= 30 &&
       d.experience.Some? && 0 <= d.experience.value <= 10_000_000 &&
       d.birthday.Some? && bounds.start < d.birthday.value < bounds.end &&
       d.race.Some? && d.profession.Some?)
  {
  }

  /** Seven characters above U+FFFF are fourteen code units: too long for a name, although
      they are only seven characters. */
  lemma SupplementaryNameRejected()
    ensures var s := seq(7, _ => '\U{1F600}');
      |s| == 7 && !IsNameValid(Some(s))
  {
    var s := seq(7, _ => '\U{1F600}');
    Utf16LengthSupplementary(s);
  }

  /** A title of 31 characters makes a candidate invalid, whatever its other fields. */
  lemma LongTitleRejected(d: Draft, bounds: DateBounds)
    requires d.title.Some? && |d.title.value| == 31
    ensures !IsPlayerValid(Some(d), bounds)
  {
  }

  predicate IsDecimalDigit(c: char) {
    '0' <= c <= '9'
  }

  /** `\d*`: every character is a decimal digit. */
  predicate AllDigits(s: string) {
    |s| == 0 || (IsDecimalDigit(s[0]) && AllDigits(s[1..]))
  }

  /** `^[1-9]\d*` under `String.matches`, which must match the whole string. */
  predicate MatchesIdPattern(s: string) {
    |s| != 0 && '1' <= s[0] <= '9' && AllDigits(s[1..])
  }

  predicate IsIdValid(id: string) {
    if |id| == 0 then false else MatchesIdPattern(id)
  }

  lemma {:induction false} AllDigitsIff(s: string)
    ensures AllDigits(s) <==> forall i :: 0 <= i < |s| ==> IsDecimalDigit(s[i])
  {
    if |s| != 0 {
      AllDigitsIff(s[1..]);
      assert forall i :: 1 <= i < |s| ==> s[i] == s[1..][i - 1];
    }
  }

  /** An identifier is accepted iff it is non-empty, starts with 1..9 and continues with digits. */
  lemma IdValidIff(id: string)
    ensures IsIdValid(id) <==>
      (|id| != 0 && '1' <= id[0] <= '9' && forall i :: 1 <= i < |id| ==> '0' <= id[i] <= '9')
  {
    if |id| != 0 {
      AllDigitsIff(id[1..]);
      assert forall i :: 1 <= i < |id| ==> id[i] == id[1..][i - 1];
    }
  }

  function DigitValue(c: char): nat
    requires IsDecimalDigit(c)
  {
    c as int - '0' as int
  }

  function DigitChar(d: nat): char
    requires d < 10
  {
    ('0' as int + d) as char
  }

  predicate IsNumeral(s: string) {
    forall i :: 0 <= i < |s| ==> IsDecimalDigit(s[i])
  }

  /** The value of a string of decimal digits. */
  function NumeralValue(s: string): nat
    requires IsNumeral(s)
  {
    if |s| == 0 then 0 else 10 * NumeralValue(s[..|s| - 1]) + DigitValue(s[|s| - 1])
  }

  /** The canonical decimal numeral of a number: no leading zero. */
  function Numeral(n: nat): (s: string)
    ensures IsNumeral(s) && |s| != 0
    ensures (s[0] == '0') == (n == 0)
  {
    if n < 10 then [DigitChar(n)] else Numeral(n / 10) + [DigitChar(n % 10)]
  }

  lemma {:induction false} NumeralValueOfNumeral(n: nat)
    ensures NumeralValue(Numeral(n)) == n
  {
    if n >= 10 {
      NumeralValueOfNumeral(n / 10);
      var s := Numeral(n);
      assert s[..|s| - 1] == Numeral(n / 10);
    }
  }

  lemma {:induction false} NumeralOfNumeralValue(s: string)
    requires IsNumeral(s) && |s| != 0 && s[0] != '0'
    ensures NumeralValue(s) >= 1 && Numeral(NumeralValue(s)) == s
  {
    if |s| == 1 {
      assert s == [DigitChar(DigitValue(s[0]))];
    } else {
      var init := s[..|s| - 1];
      NumeralOfNumeralValue(init);
      var n := NumeralValue(s);
      assert n / 10 == NumeralValue(init) && n % 10 == DigitValue(s[|s| - 1]);
      assert s == init + [DigitChar(n % 10)];
    }
  }

  /** The accepted identifiers are exactly the canonical numerals of the positive numbers,
      so parsing an accepted identifier and printing the number gives it back. */
  lemma IdValidIsCanonicalNumeral(id: string)
    ensures IsIdValid(id) ==> IsNumeral(id) && NumeralValue(id) >= 1 && Numeral(NumeralValue(id)) == id
  {
    if IsIdValid(id) {
      IdValidIff(id);
      NumeralOfNumeralValue(id);
    }
  }

  lemma NumeralIsValidId(n: nat)
    requires n >= 1
    ensures IsIdValid(Numeral(n)) && NumeralValue(Numeral(n)) == n
  {
    NumeralValueOfNumeral(n);
    IdValidIff(Numeral(n));
  }
}
