# Player service model

A Dafny model of the player service of a small game back end (`PlayerServiceImpl`). The
service keeps player records and answers requests through one pipeline and two record
operations:

- **Listing** filters the stored records by up to eleven optional criteria (`getAllPlayers`).
  It then sorts them in place by one of five keys with a stable sort (`sortPlayer`) and
  cuts out one page (`getPage`).
- **Creating** checks a candidate record against the field rules (`isPlayerValid`). It then
  fills in level and experience-to-next-level from the experience (`setExpAndLvl`).
- **Updating** writes the supplied fields of a request body into the stored entity one by
  one, in a fixed order (`updatePlayer`). It throws on the first field that breaks its
  rule, and the fields written before that one stay written.

Modules, one per part of the service:

| module | file | what it holds |
|---|---|---|
| `Entity` | entity.dfy | the `Player` record value, the mutable `PlayerEntity` object, the request body `Draft` whose fields may be null |
| `Utf16` | utf16.dfy | Java strings as UTF-16 code units: `String.length()` and `String.compareTo` |
| `Validation` | validation.dfy | field rules, whole-candidate validity, the path identifier pattern |
| `Leveling` | leveling.dfy | `currentLevel` and `untilNextLevel` |
| `Filter` | filter.dfy | `getAllPlayers` as a loop over the stored records, and its specification `Select` |
| `Ordering` | ordering.dfy | the five sort keys and the comparator |
| `Sorting` | sorting.dfy | `sortPlayer` as an in-place insertion sort on an array, and its specification `SortPlayers` |
| `Paging` | paging.dfy | `getPage` |
| `Update` | update.dfy | `updatePlayer` and `setExpAndLvl` on a `PlayerEntity`, and their specification `Patched` |
| `Service` | service.dfy | the list, count and create endpoints as the controller composes them |

Java `null` is `None` of an `Option`. Timestamps are integers (milliseconds). The stored
records are a sequence, as the repository's `findAll()` returns them.

In three places the code does not do what the service's interface description promises. The
model follows the code:

- The birthday filter keeps a birthday equal to `after` or to `before`. Only a strictly earlier
  or strictly later birthday is dropped. The interface description calls both bounds exclusive.
- `updatePlayer` is not atomic. When a later field breaks its rule, the earlier ones are
  already written. The interface description promises that nothing is applied.
- A page whose first index lies past the end of the list is an error, because `subList`
  throws. So is a negative start index or a negative page size. The interface description
  promises an empty page past the end. A page that starts exactly at the end is empty.

## Model

| member | source | states |
|---|---|---|
| Filter.GetAllPlayers | src/main/java/com/game/service/PlayerServiceImpl.java:31-62 | the loop over the stored records returns exactly `Select(stored, c)` |
| Filter.SelectIsSubsequence | src/main/java/com/game/service/PlayerServiceImpl.java:45-61 | the result keeps the stored order: it is a subsequence of the stored records |
| Filter.SelectExact | src/main/java/com/game/service/PlayerServiceImpl.java:45-61 | each matching record occurs in the result as often as it is stored; a non-matching record never occurs |
| Filter.SelectSoundAndComplete | src/main/java/com/game/service/PlayerServiceImpl.java:45-61 | a record is in the result iff it is stored and passes every supplied criterion |
| Filter.SelectNoCriteria | src/main/java/com/game/service/PlayerServiceImpl.java:45-61 | with every criterion null the result is the whole stored list in its order |
| Filter.Matches | src/main/java/com/game/service/PlayerServiceImpl.java:47-57 | the eleven criteria: substring for name and title, equality for race, profession and banned, inclusive bounds for birthday, experience and level; a null criterion passes every record |
| Filter.ContainsIff | src/main/java/com/game/service/PlayerServiceImpl.java:47-48 | `contains` holds iff the substring occurs at some index (case-sensitive) |
| Filter.NameCriterion | src/main/java/com/game/service/PlayerServiceImpl.java:47 | a name criterion keeps a record iff the criterion occurs in its name |
| Filter.BirthdayBoundsInclusive | src/main/java/com/game/service/PlayerServiceImpl.java:51-52 | with `after` and `before` supplied, a record passes iff `after <= birthday <= before` |
| Filter.SingleLevelSelect | src/main/java/com/game/service/PlayerServiceImpl.java:56-57 | `minLevel = maxLevel = L` keeps exactly the stored records at level `L` (both level bounds inclusive) |
| Ordering.KeyLeTotal | src/main/java/com/game/service/PlayerServiceImpl.java:133-149 | any two records compare one way or the other under each key |
| Ordering.KeyLeTransitive | src/main/java/com/game/service/PlayerServiceImpl.java:133-149 | the comparator is transitive under each key |
| Ordering.KeyLeBothWays | src/main/java/com/game/service/PlayerServiceImpl.java:133-149 | two records compare equal both ways iff their keys are equal |
| Utf16.CompareLeTotal | src/main/java/com/game/service/PlayerServiceImpl.java:137-138 | `compareTo` on code units: any two names compare one way or the other |
| Utf16.CompareLeTransitive | src/main/java/com/game/service/PlayerServiceImpl.java:137-138 | `compareTo` on code units is transitive |
| Utf16.CompareLeAntisymmetric | src/main/java/com/game/service/PlayerServiceImpl.java:137-138 | two names compare equal both ways iff they are the same string |
| Utf16.Utf16UnitsInjective | src/main/java/com/game/service/PlayerServiceImpl.java:137-138 | two strings with the same UTF-16 code units are the same string |
| Utf16.SupplementaryBeforeBmpTail | src/main/java/com/game/service/PlayerServiceImpl.java:137-138 | `compareTo` is code-unit order, not code-point order: U+10000 sorts before U+FFFF |
| Sorting.SortPlayer | src/main/java/com/game/service/PlayerServiceImpl.java:131-151 | the array afterwards holds `SortPlayers(old contents, order)` |
| Sorting.InsertLast | src/main/java/com/game/service/PlayerServiceImpl.java:133-149 | one insertion step: the sorted prefix grows by the next element at its stable place; the rest of the array is unchanged |
| Sorting.SortPlayersSpec | src/main/java/com/game/service/PlayerServiceImpl.java:131-151 | a null order leaves the list as it is; an order gives a list that is non-decreasing in the key, a permutation of the input, and stable |
| Sorting.SortBySorted | src/main/java/com/game/service/PlayerServiceImpl.java:133-149 | the sorted list is non-decreasing in the chosen key |
| Sorting.SortByPermutation | src/main/java/com/game/service/PlayerServiceImpl.java:133-149 | sorting keeps every record as often as it occurs (same multiset) |
| Sorting.SortByStable | src/main/java/com/game/service/PlayerServiceImpl.java:133-149 | for every key value, the records with that key keep their original relative order |
| Sorting.InsertStable | src/main/java/com/game/service/PlayerServiceImpl.java:133-149 | inserting into a sorted list puts the new record after every record with the same key |
| Paging.GetPage | src/main/java/com/game/service/PlayerServiceImpl.java:154-161 | a page exists iff `0 <= page*size <= length` and `size >= 0`; it is then the `size` records from `page*size` on, cut short only by the end of the list |
| Paging.DefaultPage | src/main/java/com/game/service/PlayerServiceImpl.java:155-156 | no page number and no size give the first three records |
| Paging.PageAtAndPastEnd | src/main/java/com/game/service/PlayerServiceImpl.java:157-160 | a page starting exactly at the end is empty; one starting after it is an error |
| Paging.PagesUpToPrefix | src/main/java/com/game/service/PlayerServiceImpl.java:154-161 | pages `0 .. k-1` read one after another give the first `min(k*size, length)` records |
| Paging.PagesReconstruct | src/main/java/com/game/service/PlayerServiceImpl.java:154-161 | pages from 0 up to the one that reaches the end give back the whole list |
| Utf16.Utf16Units | src/main/java/com/game/service/PlayerServiceImpl.java:191 | a string of `n` characters has between `n` and `2n` UTF-16 code units |
| Utf16.CharUnits | src/main/java/com/game/service/PlayerServiceImpl.java:191 | a character above U+FFFF is two code units, the first a high surrogate; any other is one; every unit is below 0x10000 |
| Utf16.CharUnitsInjective | src/main/java/com/game/service/PlayerServiceImpl.java:137-138 | different characters have different code units |
| Utf16.Utf16LengthBmp | src/main/java/com/game/service/PlayerServiceImpl.java:191 | with no character above U+FFFF, `length()` is the number of characters |
| Utf16.Utf16LengthSupplementary | src/main/java/com/game/service/PlayerServiceImpl.java:191 | with every character above U+FFFF, `length()` is twice the number of characters |
| Validation.IsNameValid | src/main/java/com/game/service/PlayerServiceImpl.java:189-192 | an accepted name has 1 to 12 characters, and every name of 1 to 6 characters is accepted (the rule counts 1 to 12 UTF-16 code units) |
| Validation.IsTitleValid | src/main/java/com/game/service/PlayerServiceImpl.java:194-197 | an accepted title has 1 to 30 characters, and every title of 1 to 15 characters is accepted (the rule counts 1 to 30 UTF-16 code units) |
| Validation.IsExpValid | src/main/java/com/game/service/PlayerServiceImpl.java:199-203 | an accepted experience keeps `2500 + 200 * exp` within a 32-bit `int`, so `currentLevel` does not overflow |
| Validation.IsDateValid | src/main/java/com/game/service/PlayerServiceImpl.java:205-209 | a birthday is accepted iff it is present and strictly after the start and strictly before the end boundary |
| Validation.IsPlayerValid | src/main/java/com/game/service/PlayerServiceImpl.java:164-171 | a candidate is accepted iff it is present, its name, title, birthday and experience pass their rules, and race and profession are set |
| Validation.SupplementaryNameRejected | src/main/java/com/game/service/PlayerServiceImpl.java:189-192 | seven characters above U+FFFF are fourteen code units, so the name is refused |
| Validation.PlayerValidIff | src/main/java/com/game/service/PlayerServiceImpl.java:164-209 | a candidate is valid iff it is present; its name is 1..12 and its title 1..30 UTF-16 code units; its experience is in [0, 10,000,000]; its birthday is strictly between the two boundaries; race and profession are set |
| Validation.LongTitleRejected | src/main/java/com/game/service/PlayerServiceImpl.java:194-197 | a candidate with a 31-character title is invalid, whatever its other fields (31 characters are at least 31 code units) |
| Validation.IsIdValid | src/main/java/com/game/service/PlayerServiceImpl.java:174-178 | an empty identifier is refused; otherwise it must match `^[1-9]\d*` as a whole |
| Validation.IdValidIff | src/main/java/com/game/service/PlayerServiceImpl.java:174-178 | an identifier is valid iff it is non-empty, starts with 1..9 and continues with decimal digits only |
| Validation.IdValidIsCanonicalNumeral | src/main/java/com/game/service/PlayerServiceImpl.java:174-178 | a valid identifier is the canonical decimal numeral of a positive number: parsing it and printing the number gives it back |
| Validation.NumeralIsValidId | src/main/java/com/game/service/PlayerServiceImpl.java:174-178 | the decimal numeral of every positive number is a valid identifier and parses back to that number |
| Leveling.ISqrt | src/main/java/com/game/service/PlayerServiceImpl.java:222 | the integer square root: `r*r <= n < (r+1)*(r+1)` |
| Leveling.CurrentLevel | src/main/java/com/game/service/PlayerServiceImpl.java:221-224 | for experience in the accepted range the level `L` satisfies `50L(L+1) <= exp < 50(L+1)(L+2)` |
| Leveling.CurrentLevelIsGreatest | src/main/java/com/game/service/PlayerServiceImpl.java:221-224 | every `L` with `50L(L+1) <= exp` is at most the computed level |
| Leveling.CurrentLevelUnique | src/main/java/com/game/service/PlayerServiceImpl.java:221-224 | the level is the only `L` whose band contains the experience |
| Leveling.CurrentLevelMonotone | src/main/java/com/game/service/PlayerServiceImpl.java:221-224 | more experience never gives a lower level |
| Leveling.UntilNextLevel | src/main/java/com/game/service/PlayerServiceImpl.java:217-219 | the experience from `exp` to the threshold `50(L+1)(L+2)` of level `L + 1` |
| Leveling.UntilNextLevelBounds | src/main/java/com/game/service/PlayerServiceImpl.java:217-224 | the experience still needed is positive and at most `100(L+1)` |
| Leveling.LevelAtHundred | src/main/java/com/game/service/PlayerServiceImpl.java:217-224 | experience 100 is level 1 with 200 to go |
| Leveling.LevelAtZero | src/main/java/com/game/service/PlayerServiceImpl.java:217-224 | experience 0 is level 0 with 100 to go |
| Leveling.LevelAtMaximum | src/main/java/com/game/service/PlayerServiceImpl.java:199-203 | the highest accepted experience, 10,000,000, is level 446 |
| Update.UpdatePlayer | src/main/java/com/game/service/PlayerServiceImpl.java:70-118 | the entity afterwards holds `Patched(old record, body)`, whether it returns or throws; it returns the saved record iff no supplied field breaks its rule |
| Update.UpdateName | src/main/java/com/game/service/PlayerServiceImpl.java:72-78 | throws iff a name is supplied and invalid; otherwise writes the supplied name and nothing else |
| Update.UpdateTitle | src/main/java/com/game/service/PlayerServiceImpl.java:80-86 | throws iff a title is supplied and invalid; otherwise writes the supplied title and nothing else |
| Update.UpdateRaceAndProfession | src/main/java/com/game/service/PlayerServiceImpl.java:88-92 | writes a supplied race and a supplied profession and nothing else |
| Update.UpdateBirthday | src/main/java/com/game/service/PlayerServiceImpl.java:94-100 | throws iff a birthday is supplied and outside the boundaries; otherwise writes the supplied birthday and nothing else |
| Update.UpdateBanned | src/main/java/com/game/service/PlayerServiceImpl.java:102-103 | writes a supplied banned flag and nothing else |
| Update.UpdateExperience | src/main/java/com/game/service/PlayerServiceImpl.java:105-115 | throws iff an experience is supplied and out of range; otherwise writes it together with its level and untilNextLevel |
| Update.FirstInvalidSpec | src/main/java/com/game/service/PlayerServiceImpl.java:70-115 | the field where the update throws is supplied and breaks its rule, and every supplied field before it passes |
| Update.WrittenIff | src/main/java/com/game/service/PlayerServiceImpl.java:70-115 | a field is written iff it is supplied and comes before the field where the update throws (all supplied fields when it does not throw) |
| Update.ThrowAtName | src/main/java/com/game/service/PlayerServiceImpl.java:72-78 | throwing at the name leaves the record unchanged |
| Update.ThrowAtTitle | src/main/java/com/game/service/PlayerServiceImpl.java:72-86 | throwing at the title leaves the supplied name written and nothing else |
| Update.ThrowAtBirthday | src/main/java/com/game/service/PlayerServiceImpl.java:72-100 | throwing at the birthday leaves name, title, race and profession written |
| Update.ThrowAtExperience | src/main/java/com/game/service/PlayerServiceImpl.java:72-115 | throwing at the experience leaves every field but experience, level and untilNextLevel written |
| Update.CompletesWith | src/main/java/com/game/service/PlayerServiceImpl.java:70-117 | a completed update writes every supplied field, and a supplied experience brings its level and untilNextLevel |
| Update.UpdateWhenAllValid | src/main/java/com/game/service/PlayerServiceImpl.java:70-118 | when every supplied field is valid, supplied fields take the body's values, null fields keep the old ones, and level and untilNextLevel match a supplied experience |
| Update.LevelFollowsExperience | src/main/java/com/game/service/PlayerServiceImpl.java:105-115 | level and untilNextLevel change only when an experience is written, and then match it |
| Update.FailedUpdateKeepsEarlierFields | src/main/java/com/game/service/PlayerServiceImpl.java:70-115 | after a throw at field `f` the entity holds what a completed update with only the fields before `f` would leave (not atomic) |
| Update.PartialWriteExample | src/main/java/com/game/service/PlayerServiceImpl.java:72-86 | a valid name with a 31-character title throws at the title, yet the name is already written |
| Update.PatchedWellFormed | src/main/java/com/game/service/PlayerServiceImpl.java:70-115 | a record meeting every field rule with consistent level still does so after the update, whether it completes or throws |
| Update.FullBodyAgreesWithCreation | src/main/java/com/game/service/PlayerServiceImpl.java:70-115 | for a body with every field set, the update completes iff the body is a valid new player |
| Update.SetExpAndLvl | src/main/java/com/game/service/PlayerServiceImpl.java:181-187 | level and untilNextLevel are recomputed from the experience; nothing else changes |
| Service.ListPlayers | src/main/java/com/game/controller/PlayerController.java:43-47 | the listed page is `GetPage(SortPlayers(Select(stored, criteria), order), page, size)` |
| Service.ListedPage | src/main/java/com/game/controller/PlayerController.java:43-47 | every listed record is stored and matches; a page holds at most `size` records; with an order it is non-decreasing in the key |
| Service.PageWithin | src/main/java/com/game/service/PlayerServiceImpl.java:154-161 | a page holds only records of the list it is cut from |
| Service.PageSorted | src/main/java/com/game/service/PlayerServiceImpl.java:154-161 | a page of a sorted list is sorted |
| Service.CountPlayers | src/main/java/com/game/controller/PlayerController.java:64-65 | the count is the number of matching records |
| Service.CountBounds | src/main/java/com/game/controller/PlayerController.java:64-65 | the count is at most the number of stored records, and equal to it with no criteria |
| Service.CreatePlayer | src/main/java/com/game/controller/PlayerController.java:70-77 | a record is created iff the candidate is valid; it carries the candidate's fields, `banned` false when none is given, and level and untilNextLevel from its experience |

## Left out

- Spring wiring: HTTP mappings, status codes, dependency injection. The controller appears only where it composes the service (list, count, create).
- The repository: `savePlayer`, `getPlayer` and `deletePlayer` are one-line delegations to the store. The stored records are an input sequence, and the identifier a save assigns is a parameter of `CreatePlayer`. The update endpoint's lookup by identifier is not modelled.
- Calendar and the clock: `getDateForYear` builds the birthday boundaries from the current moment with its year set to 2000 and 3000. The two boundaries are the parameter `DateBounds`.
- Floating point: `Math.sqrt` and the `(int)` cast of the double are replaced by the integer square root. On the accepted experience range, 0 to 10,000,000, the argument stays below 2^31. The double expression then truncates to the same level.
- Java `int` overflow: `page * size`, `from + size` and the level arithmetic are unbounded integers. No wrap-around is modelled, and there is none on the accepted experience range.
- The regular-expression engine, `Long.parseLong`, and the `NullPointerException` that `isIdValid` raises for a null identifier: the identifier is a string, and the pattern is a predicate on it.
- Lone surrogates: a Java `String` may hold an unpaired surrogate code unit, a Dafny string cannot. Every string in the model is well-formed UTF-16.
- Filter.Contains: `String.contains` matches code units, the model matches characters. For well-formed strings both find the same occurrences, but that is not proved here.
- `List.sort` is TimSort in the Java library. It is modelled by an insertion sort. Both sorts are stable, so they give the same list for any comparator that is a total preorder, which `KeyLeTotal` and `KeyLeTransitive` prove of this one.
- The `subList` view aliasing the list it came from: a page is a copy.
- The enum constants of `Race` and `Profession`: the entity package is not part of this model, so the constants are placeholders.
- The request body's `id`, `level` and `untilNextLevel` are not read by the service and are not in `Draft`.
