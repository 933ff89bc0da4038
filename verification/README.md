# Gym member registry — Dafny model

This project models the data core of a gym-membership app. The app keeps every
member in memory and offers registration, lookup, search, status toggling,
deletion and per-plan statistics. The model covers four Kotlin files:

- `MembershipType` is the closed three-plan catalog with its names, prices, duration and benefits.
- `Member` is the immutable eleven-field record with constructor defaults and `copy`.
- `MemberRepository` is the store. It holds the mutable `membersList` and the
  snapshot it publishes on a `StateFlow`.
- `MemberController` is the service. It validates registration, builds
  members, toggles status, wraps deletion, passes queries through and computes statistics.

The model is state-passing. `Repository.Store(list, snapshot)` is the
repository object: `list` is `membersList` and `snapshot` is the value
last published on the flow. Every operation is a pure function that returns
the store it leaves behind. Controller operations return the Kotlin result
paired with the new store. `Controller.MemberController` is a small class
that holds a store. It exposes the published flow as `Members` and offers
three of the controller's operations as methods: `Register`, `ToggleStatus`
and `Delete`. Its `Valid` invariant says the snapshot equals the list. The
query and statistics operations are used as functions of the store.

Files, leaf first:

- `wrappers.dfy`: `Option` (Kotlin `T?`) and `Result` (Kotlin `Result<T>`, a failure carries its message).
- `seqs.dfy`: order-preserving `Filter` and `Count`. These are the list operations behind `removeIf`, `filter` and `count`.
- `text.dfy`: `isBlank`, and `contains(query, ignoreCase = true)` through `indexOf`.
- `membership_type.dfy`, `member.dfy`, `repository.dfy`, `controller.dfy`: one module per Kotlin file.

Three behaviours of the code worth knowing:

- `deleteMember` reports `true` even when no member had the id (MemberController.kt:61-64).
- Identifiers are not checked for uniqueness. `Controller.RegisterWithTakenIdShadowsNewMember` shows what a repeated clock reading does.
- The catalog has exactly three plans, all of them one month long.

## Model

| member | source | states |
|---|---|---|
| MembershipTypes.Ordinal | app/src/main/java/com/example/gymmember/model/MembershipType.kt:12-32 | each variant sits at its declaration position in `Entries` |
| MembershipTypes.CatalogIsClosed | app/src/main/java/com/example/gymmember/model/MembershipType.kt:12-32 | exactly three variants exist, every value is one of them, and each is listed once, in the order BASIC, PREMIUM, VIP |
| MembershipTypes.PricesIncreaseWithOrdinal | app/src/main/java/com/example/gymmember/model/MembershipType.kt:14-28 | prices are positive and strictly increase in declaration order (250000, 450000, 800000) |
| MembershipTypes.DisplayNamesDistinct | app/src/main/java/com/example/gymmember/model/MembershipType.kt:13-27 | two variants have the same display name exactly when they are the same variant |
| MembershipTypes.DurationAndBenefits | app/src/main/java/com/example/gymmember/model/MembershipType.kt:15-31 | every plan lasts "1 Bulan"; BASIC lists 3 benefits and PREMIUM and VIP 4 each |
| Members.NewMemberDefaults | app/src/main/java/com/example/gymmember/model/Member.kt:3-15 | a member built without optional arguments carries the given fields, is active, has no picture, and has empty emergency contact and address |
| Members.NewMember | app/src/main/java/com/example/gymmember/model/Member.kt:3-15 | the data-class constructor puts each argument into the field of the same name |
| Members.WithActive | app/src/main/java/com/example/gymmember/model/Member.kt:3-15 | `copy(isActive = a)` sets the flag to `a`, changes no other field, and is the identity exactly when the flag already was `a` |
| Members.EqualityIsStructural | app/src/main/java/com/example/gymmember/model/Member.kt:3 | two members are equal exactly when all eleven fields are equal |
| Text.IsBlank | app/src/main/java/com/example/gymmember/controller/MemberController.kt:23 | the scan reports blank exactly when every character is whitespace, so the empty string is blank |
| Text.ContainsIgnoreCase | app/src/main/java/com/example/gymmember/repository/MemberRepository.kt:44-46 | a query longer than the text is never contained, and the empty query always is |
| Text.IndexOfIgnoreCase | app/src/main/java/com/example/gymmember/repository/MemberRepository.kt:44-46 | the result is -1 when the query occurs at no offset at or after `from`; otherwise it is the first such offset |
| Text.ContainsIffSomeOffset | app/src/main/java/com/example/gymmember/repository/MemberRepository.kt:44-46 | case-insensitive `contains` holds exactly when the query matches the text at some offset |
| Text.EmptyQueryIsContained | app/src/main/java/com/example/gymmember/repository/MemberRepository.kt:44-46 | every string contains the empty query |
| Text.ExactOccurrenceIsContained | app/src/main/java/com/example/gymmember/repository/MemberRepository.kt:44-46 | an exact substring occurrence is also found when case is ignored |
| Text.ContainsIgnoresCaseOfArguments | app/src/main/java/com/example/gymmember/repository/MemberRepository.kt:44-46 | lower-casing the query, or the text, does not change the outcome of `contains` |
| Seqs.Filter | app/src/main/java/com/example/gymmember/repository/MemberRepository.kt:43-47 | the result keeps exactly the elements that pass, as a subsequence of the input, and its length is the number that pass |
| Seqs.CountPartition | app/src/main/java/com/example/gymmember/controller/MemberController.kt:73-75 | when two predicates split every element between them, their counts sum to the length |
| Seqs.CountPartition3 | app/src/main/java/com/example/gymmember/controller/MemberController.kt:76-78 | when three predicates split every element between them, their counts sum to the length |
| Repository.Init | app/src/main/java/com/example/gymmember/repository/MemberRepository.kt:50-61 | the new store publishes its list; it holds three members with distinct ids "1", "2" and "3", and only "3" is inactive |
| Repository.AddMember | app/src/main/java/com/example/gymmember/repository/MemberRepository.kt:20-23 | the old list is kept as a prefix, the member is added at the end, the length grows by one, and the snapshot equals the new list |
| Repository.GetAllMembers | app/src/main/java/com/example/gymmember/repository/MemberRepository.kt:25 | the result is the live list, not the snapshot; once published, the two are equal |
| Repository.IndexOfFirst | app/src/main/java/com/example/gymmember/repository/MemberRepository.kt:30 | the result is -1 exactly when no member has the id; otherwise it is the first position holding the id |
| Repository.GetMemberById | app/src/main/java/com/example/gymmember/repository/MemberRepository.kt:27 | absent exactly when no member has the id; otherwise the member at the first position holding the id |
| Repository.UpdateMember | app/src/main/java/com/example/gymmember/repository/MemberRepository.kt:29-35 | an absent id leaves list and snapshot untouched; a present id replaces only the first member with that id, in place, and republishes |
| Repository.DeleteMember | app/src/main/java/com/example/gymmember/repository/MemberRepository.kt:37-40 | removes every member with the id and keeps the rest in their original order; the new length is the old minus the number of members with the id; always republishes |
| Repository.SearchMembers | app/src/main/java/com/example/gymmember/repository/MemberRepository.kt:42-48 | returns, as a subsequence of the list, exactly the members whose name, email or phone contains the query ignoring case |
| Repository.DeleteAbsentKeepsList | app/src/main/java/com/example/gymmember/repository/MemberRepository.kt:37-40 | deleting an id no member has leaves the list equal; a published store stays equal |
| Repository.DeleteIdempotent | app/src/main/java/com/example/gymmember/repository/MemberRepository.kt:37-40 | deleting an id twice gives the same store as deleting it once |
| Repository.DeleteUniqueRemovesOne | app/src/main/java/com/example/gymmember/repository/MemberRepository.kt:37-40 | with unique ids, deleting a present id shortens the list by exactly one |
| Repository.SearchEmptyReturnsAll | app/src/main/java/com/example/gymmember/repository/MemberRepository.kt:42-48 | the empty query returns the whole list, in order |
| Repository.SearchIgnoresQueryCase | app/src/main/java/com/example/gymmember/repository/MemberRepository.kt:42-48 | searching for a query and for its lower-cased form gives the same result |
| Repository.MatchIgnoresFieldCase | app/src/main/java/com/example/gymmember/repository/MemberRepository.kt:44-46 | lower-casing a member's name, email and phone does not change whether it matches a query |
| Repository.UpdatePreservesIds | app/src/main/java/com/example/gymmember/repository/MemberRepository.kt:29-35 | an update keeps the id at every position, so unique ids stay unique |
| Repository.AddPreservesUniqueIdsIffFresh | app/src/main/java/com/example/gymmember/repository/MemberRepository.kt:20-23 | appending keeps ids unique exactly when the new member's id is not already present |
| Controller.RegisterMember | app/src/main/java/com/example/gymmember/controller/MemberController.kt:12-43 | failure exactly when name, email or phone is blank, with message "Data tidak boleh kosong" and the store unchanged; otherwise success(true) and one appended, published member with the given fields, active and without picture |
| Controller.GetAllMembers | app/src/main/java/com/example/gymmember/controller/MemberController.kt:45 | passes through to the repository |
| Controller.GetMemberById | app/src/main/java/com/example/gymmember/controller/MemberController.kt:47 | passes through to the repository |
| Controller.SearchMembers | app/src/main/java/com/example/gymmember/controller/MemberController.kt:49 | passes through to the repository |
| Controller.ToggleMemberStatus | app/src/main/java/com/example/gymmember/controller/MemberController.kt:51-59 | true exactly when the id is present; if absent, the store is unchanged; if present, only the first member with the id has its flag flipped, and the result is published |
| Controller.DeleteMember | app/src/main/java/com/example/gymmember/controller/MemberController.kt:61-68 | always reports true and leaves the store the repository deletion produces |
| Controller.GetStatistics | app/src/main/java/com/example/gymmember/controller/MemberController.kt:70-80 | exactly six keys; total is the list length; active + inactive = total; basic + premium + vip = total |
| Controller.ToggleTwiceRestores | app/src/main/java/com/example/gymmember/controller/MemberController.kt:51-59 | toggling a present id twice restores the list, and also the store when it was published |
| Controller.ToggleMovesOneBetweenCounts | app/src/main/java/com/example/gymmember/controller/MemberController.kt:51-59 | a toggle keeps the total and moves exactly one member between the active and inactive counts |
| Controller.RegisterThenLookup | app/src/main/java/com/example/gymmember/controller/MemberController.kt:27-39 | after registering under an unused id, lookup by that id yields the member built from the supplied fields |
| Controller.RegisterWithTakenIdShadowsNewMember | app/src/main/java/com/example/gymmember/controller/MemberController.kt:27-39 | registering under an id already present still succeeds; ids are then no longer unique, and lookup by that id returns the older member |
| Controller.RegisterCountsOneMore | app/src/main/java/com/example/gymmember/controller/MemberController.kt:27-39 | a successful registration adds one to total, to active and to the chosen plan's count; inactive and the other plans' counts are unchanged |
| Controller.InitialStatistics | app/src/main/java/com/example/gymmember/repository/MemberRepository.kt:50-61 | the sample data gives total 3, active 2, inactive 1, and one member per plan |
| Controller.RegisterPremiumScenario | app/src/main/java/com/example/gymmember/controller/MemberController.kt:70-80 | registering a Premium member on the sample data succeeds and yields total 4 and premium 2 |
| Controller.MemberController.Valid | app/src/main/java/com/example/gymmember/repository/MemberRepository.kt:10-13 | the object's published snapshot equals its list |
| Controller.MemberController.constructor | app/src/main/java/com/example/gymmember/repository/MemberRepository.kt:15-18 | a new object holds the sample data and satisfies the invariant |
| Controller.MemberController.Members | app/src/main/java/com/example/gymmember/controller/MemberController.kt:10 | the exposed flow value is the current list |
| Controller.MemberController.Register | app/src/main/java/com/example/gymmember/controller/MemberController.kt:12-43 | keeps the invariant; result and new store are those of `Controller.RegisterMember` |
| Controller.MemberController.ToggleStatus | app/src/main/java/com/example/gymmember/controller/MemberController.kt:51-59 | keeps the invariant; result and new store are those of `Controller.ToggleMemberStatus` |
| Controller.MemberController.Delete | app/src/main/java/com/example/gymmember/controller/MemberController.kt:61-68 | keeps the invariant; result and new store are those of `Controller.DeleteMember` |

## Left out

- Compose screens, navigation, dialogs and theming (`view/`, `MainActivity.kt`) are layout with no registry logic. The list screen skips search for an empty query; `Repository.SearchEmptyReturnsAll` shows the repository would return the same list anyway.
- Expiry-date calculation in the add-member screen is not modelled. It reads the wall clock and formats dates with the default locale.
- Identifier generation (`System.currentTimeMillis().toString()`) reads the clock. The reading is the `newId` parameter of `Controller.RegisterMember`.
- `StateFlow` subscribers and coroutines are not modelled. The published value is the plain `snapshot` field.
- `getAllMembers` returns the live mutable list, so callers could alias it. The model returns a value.
- The `catch` branches of `registerMember` and `deleteMember` are not modelled, because nothing in the modelled code throws.
- `MembershipType.color` is a Compose colour, not registry data.
- `MembershipType.price` is a `Double`. Every value is a whole amount, so it is modelled as a natural number.
- Kotlin strings are sequences of UTF-16 code units, while Dafny strings are sequences of Unicode scalar values. A supplementary character is one element here instead of a surrogate pair, and a lone surrogate cannot be represented. `isBlank` and `contains` agree on well-formed text; text holding lone surrogates is not modelled.
- Text.ToLower: case-insensitive matching folds only ASCII letters. Kotlin folds the full Unicode case mappings, which are not modelled.
- Text.IsWhitespace: the whitespace set is the fixed list of code points the JVM reports for `isWhitespace` or `isSpaceChar`. It does not track future Unicode versions.
- The commented-out duplicate of the controller is not part of this model.
