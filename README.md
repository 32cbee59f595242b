# LibraNet in Dafny

LibraNet is a single-process, menu-driven library catalogue. It holds three
items: a book, an audiobook and an e-magazine. A user can borrow and return
them. Returning an item late incurs a fine of 10 per day beyond a 14-day
grace period. Fines accumulate in a ledger keyed by item id. An audiobook
can be played and an e-magazine archived. All state lives in two in-memory
maps: the catalogue (id to item) and the fine ledger (id to accumulated fine).

The model has four modules:

- `Items` (`items.dfy`): the item variants, the late fine (as the program
  computes it in 32-bit `int` arithmetic and as intended), the ledger read with
  default 0 that `showDetails` performs, and the class `LibraryItem`. Its
  `available` flag and `borrowDate` are updated in place by `Borrow` and
  `ReturnItem`.
- `Lending` (`lending.dfy`): the menu loop as a state machine on values. A
  `State` is the catalogue plus the ledger. `Step` takes one command (view,
  borrow, return, play, archive, exit, invalid) and gives the next state and a
  named outcome (`NotFound`, `AlreadyBorrowed`, `Returned(title, fine)`,
  `WrongVariant`, ...). `Run` is the loop over a script of commands and stops
  at `Exit`.
- `LendingProperties` (`lending_properties.dfy`): what each command does and
  leaves alone, and the invariants a whole session keeps. The catalogue's ids
  and items never change. The ledger only has entries for catalogued ids, holds
  non-negative multiples of 10, and never loses or lowers an entry.
- `Shell` (`library.dfy`): the class `Library`. It holds the two maps as fields
  and has one method per menu choice, plus the menu loop `Run`. Each method is
  proved to have exactly the effect of the corresponding `Lending` step on
  `Abstract()`, the catalogue and ledger read as values. `Valid()` keeps every
  item filed under its own id, so an update to one item never affects another.

The wall clock that `borrow` reads becomes a parameter: `now` for one borrow,
and `clock(i)` for iteration `i` of the loop. Console input becomes the parsed
`Command` values.

## Model

| member | source | states |
|---|---|---|
| `Items.LateFine` | LibraNet.java:29-30 | The fine is never negative and is a multiple of 10. It is 0 exactly when the loan lasted at most 14 days. |
| `Items.LateFinePerExtraDay` | LibraNet.java:30 | From 14 days on, each extra day adds exactly 10 to the fine. |
| `Items.LateFineMonotone` | LibraNet.java:30 | A longer loan is never charged less. |
| `Items.LateFineExamples` | LibraNet.java:30 | 14 days gives 0, 15 gives 10, 16 gives 20, 20 gives 60, and short or negative day counts give 0. |
| `Items.Wrap32` | LibraNet.java:30 | Java `int` arithmetic: the result is a 32-bit value, congruent to the exact value modulo 2^32, and equal to it when the exact value fits. |
| `Items.JavaLateFine` | LibraNet.java:30 | The fine expression evaluated with 32-bit wrap-around. It is always a 32-bit value and is 0 for loans of at most 14 days. |
| `Items.JavaLateFineExactIff` | LibraNet.java:30 | The 32-bit expression equals the intended fine if and only if the loan lasted at most 214748378 days. |
| `Items.JavaLateFineNegative` | LibraNet.java:30 | A loan of Integer.MAX_VALUE days is charged -150 rather than 21474836330. |
| `Items.FineOnRecord` | LibraNet.java:190 | `fines.getOrDefault(id, 0.0)`: the ledger's amount for the id, or 0 when the ledger has no entry. |
| `Items.ChargeOnRecord` | LibraNet.java:190 | After `fines.put(id, getOrDefault(id) + fine)` the id reads its old amount plus the fine and has an entry. Every other id reads what it read before. |
| `Items.Describe` | LibraNet.java:64-69 | showDetails (the same in all three overrides, lines 66, 88, 109) reports the item's id, title, author, variant and availability. It shows the ledger's fine for that id, or 0 when the ledger has no entry. |
| `Items.LibraryItem.constructor` | LibraNet.java:4-15 | A new item has the given id, title, author and variant, is available, and has no borrow date. |
| `Items.LibraryItem.Borrow` | LibraNet.java:17-22 | Succeeds exactly when the item was available. On success the item becomes unavailable and records the clock reading as its borrow date. On failure nothing changes. The item is unavailable afterwards either way. |
| `Items.LibraryItem.ReturnItem` | LibraNet.java:24-33 | The item is available afterwards. If it was out, the fine is the late fine for the given days. If it was not out, the call is a no-op and the fine is 0. The borrow date is untouched. |
| `Items.LibraryItem.IsAvailable` | LibraNet.java:35-37 | Returns the availability flag. An item that is not available has a borrow date. |
| `Items.LibraryItem.GetId` | LibraNet.java:39-41 | Returns the item's id. `Shell.Library.Valid` uses it to require that every item is filed under its own id. |
| `Items.LibraryItem.ShowDetails` | LibraNet.java:64-69 | The row the item prints: its own id, title, author, variant and availability, and the fine on record for its id. |
| `Lending.Seed` | LibraNet.java:121-125 | The seeded catalogue holds exactly ids 1, 2 and 3, all available, and the ledger is empty. |
| `Lending.BorrowStep` | LibraNet.java:167-180 | The ledger and the set of ids never change. The outcome is NotFound exactly when the id is absent. The borrow succeeds exactly when the item is available. A catalogued item is unavailable afterwards, with title, author and variant unchanged. |
| `Lending.ReturnStep` | LibraNet.java:182-194 | The set of ids never changes, and an absent id changes nothing. A catalogued item is available afterwards, with title, author and variant unchanged. The outcome reports a fine exactly when the item was out, and the fine is never negative. The id's ledger entry exists afterwards and is at least the amount on record before. |
| `Lending.PlayStep` | LibraNet.java:196-205 | The state never changes. The outcome is either the wrong-variant outcome or playing a catalogued audiobook, reporting that item's title and duration in minutes (line 83). |
| `Lending.ArchiveStep` | LibraNet.java:207-216 | The state never changes. The outcome is either the wrong-variant outcome or archiving a catalogued e-magazine, reporting that item's issue number and title (line 104). |
| `Lending.Listing` | LibraNet.java:160-165 | Every row belongs to a catalogued id. `LendingProperties.ListingOneRowPerId` adds that each row describes its item, every item has a row, and no id has two. |
| `Lending.Step` | LibraNet.java:159-224 | The `switch (choice)` of one loop iteration. It has no contract of its own, to keep the proofs that unfold it cheap. Its properties are stated by `LendingProperties.StepChangesOnlyWhatItMust` (including that the `default:` branch reports an invalid choice), `StepKeepsShelf`, `StepKeepsLedgerConsistent` and `StepLedgerGrows`. |
| `Lending.Run` | LibraNet.java:149-226 | A session yields at most one outcome per command typed, and the catalogue keeps its set of ids. |
| `Lending.JavaReturnStep` | LibraNet.java:182-194 | The return step with the fine computed in 32-bit `int`, as the program does. It makes the same catalogue change as `ReturnStep`, and it is identical to `ReturnStep` for day counts up to 214748378. |
| `LendingProperties.BorrowAvailable` | LibraNet.java:167-180 | Borrowing an available catalogued item succeeds and makes it unavailable. No other item, no catalogue key and no ledger entry changes. |
| `LendingProperties.BorrowUnavailable` | LibraNet.java:170-176 | Borrowing an item that is out reports "already borrowed" with its title and leaves the whole state unchanged. |
| `LendingProperties.BorrowTwice` | LibraNet.java:17-22 | A second borrow in a row always reports "already borrowed", changes nothing, and the item stays unavailable. |
| `LendingProperties.ReturnNotBorrowed` | LibraNet.java:24-28 | Returning an item that is not out reports "not borrowed" and leaves the catalogue unchanged. The ledger gains a 0-added entry for that id and no other key. |
| `LendingProperties.ReturnBorrowed` | LibraNet.java:182-194 | Returning an item that is out reports its late fine and makes it available again. Its ledger entry becomes the old entry (or 0) plus the fine. Every other item and ledger key is untouched. |
| `LendingProperties.BorrowThenReturn` | LibraNet.java:167-194 | A borrow followed by a return of an available item restores the catalogue. It adds exactly the late fine to that id's ledger entry. |
| `LendingProperties.FinesAccumulate` | LibraNet.java:189-190 | Two loans of one item add both fines to its ledger entry. |
| `LendingProperties.FinesAccumulateExample` | LibraNet.java:190 | After a 15-day loan and then a 16-day loan of item 2, the ledger holds 10 + 20 = 30 for it. |
| `LendingProperties.AbsentIdChangesNothing` | LibraNet.java:167-193 | Borrowing or returning an id that is not in the catalogue reports NotFound and changes neither map. |
| `LendingProperties.PlayOnlyAudioBooks` | LibraNet.java:196-205 | Play never changes the state. It succeeds if and only if the id names an audiobook; otherwise, including for an absent id, it reports the wrong-variant outcome. |
| `LendingProperties.ArchiveOnlyMagazines` | LibraNet.java:207-216 | Archive never changes the state. It succeeds if and only if the id names an e-magazine; otherwise, including for an absent id, it reports the wrong-variant outcome. |
| `LendingProperties.ListingOneRowPerId` | LibraNet.java:160-165 | The view lists one row per catalogued id. Each row describes the item filed under its id, every item has a row, and no id has two rows. |
| `LendingProperties.ViewIsReadOnly` | LibraNet.java:160-165 | Viewing changes nothing. It lists every catalogued item, and each row shows that item's availability and its fine on record (default 0). |
| `LendingProperties.StepKeepsShelf` | LibraNet.java:159-224 | No menu command adds, removes or replaces a catalogue item; only availability changes. |
| `LendingProperties.StepKeepsLedgerConsistent` | LibraNet.java:189-190 | Each command keeps the ledger keyed by catalogued ids, with non-negative multiples of 10. |
| `LendingProperties.StepLedgerGrows` | LibraNet.java:189-190 | No command removes or lowers a ledger entry. Only a return of a catalogued id changes the ledger. |
| `LendingProperties.StepChangesOnlyWhatItMust` | LibraNet.java:159-224 | Only a borrow or a return changes the state, and only a return changes the ledger. Only choice 6 reports Exited. The outcome is an invalid choice exactly when the input was not a menu choice (lines 222-223), and the state is then unchanged, so the loop goes on. |
| `LendingProperties.RunConcat` | LibraNet.java:149-225 | Running two scripts in turn is the same as running their concatenation, when the first does not exit. |
| `LendingProperties.ExitStopsRun` | LibraNet.java:218-220 | Choice 6 ends the loop. Nothing typed after it is read, and its outcome is the last one. |
| `LendingProperties.RunOutcomePerCommand` | LibraNet.java:149-225 | Without an exit, every command yields exactly one outcome and the loop goes on. |
| `LendingProperties.RunKeepsShelf` | LibraNet.java:117 | Over a whole session, the catalogue keeps the same ids for the same items. |
| `LendingProperties.RunKeepsLedgerConsistent` | LibraNet.java:118 | Over a whole session, the ledger stays keyed by catalogued ids with non-negative multiples of 10. |
| `LendingProperties.RunLedgerGrows` | LibraNet.java:190 | Over a whole session, no ledger entry is removed or lowered. |
| `LendingProperties.SeedFacts` | LibraNet.java:121-125 | The seeded catalogue has ids 1 (book), 2 (audiobook) and 3 (e-magazine), all available, and an empty ledger. |
| `LendingProperties.SeededSession` | LibraNet.java:145-226 | Whatever commands are typed, the catalogue keeps exactly the ids {1, 2, 3} and the ledger stays consistent. |
| `LendingProperties.LateAudioBookScenario` | LibraNet.java:167-194 | On the seeded library: borrow 2, borrow 2 again, then return 2 after 16 days. The outcomes are borrowed, already borrowed, then returned with fine 20. Afterwards the ledger is {2: 20} and every item is available. |
| `LendingProperties.JavaReturnLowersLedger` | LibraNet.java:189-190 | With the program's 32-bit fine: on the seeded library, borrow 2, return it after 16 days (entry 20), borrow it again, and return it after Integer.MAX_VALUE days. The entry then drops to -130, so the ledger neither grows nor stays non-negative. The intended step gives 21474836350. |
| `LendingProperties.AbsentIdScenario` | LibraNet.java:167-180 | Borrowing id 99 on the seeded library reports NotFound and changes nothing. |
| `Shell.Library.Seed` | LibraNet.java:121-125 | The seeded library's catalogue and ledger are the seed state, and every item object is fresh. |
| `Shell.Library.ViewAll` | LibraNet.java:160-165 | Returns the details of every catalogued item exactly once, in an unspecified order, and changes nothing. |
| `Shell.Library.BorrowById` | LibraNet.java:167-180 | Updates the item objects and reports the outcome exactly as the borrow step does. Only the looked-up item may change. |
| `Shell.Library.ReturnById` | LibraNet.java:182-194 | Updates the looked-up item and the ledger field and reports the outcome, exactly as the return step does. |
| `Shell.Library.PlayById` | LibraNet.java:196-205 | Reads only. Reports the play step's outcome: playing for an audiobook, wrong variant otherwise. |
| `Shell.Library.ArchiveById` | LibraNet.java:207-216 | Reads only. Reports the archive step's outcome: archiving for an e-magazine, wrong variant otherwise. |
| `Shell.Library.Execute` | LibraNet.java:159-224 | One loop iteration has exactly the effect of `Lending.Step` on the catalogue and ledger. |
| `Shell.Library.Run` | LibraNet.java:145-226 | The menu loop's final catalogue, ledger and outcomes are those of `Lending.Run`. |
| `Shell.LateAudioBookSession` | LibraNet.java:167-194 | The borrow, borrow, late-return session on the seeded objects reports borrowed, already borrowed, then returned with fine 20. Afterwards the ledger holds 20 for item 2 and the item is available. |

## Findings

| source | as written | input that shows it | evidently intended | confidence | as-written member | corrected member |
|---|---|---|---|---|---|---|
| LibraNet.java:30 | `(actualDays - 14) * 10` is evaluated in 32-bit `int` and only then widened to `double`. Above 214748378 days the product wraps around. | Return an item after 2147483647 days (a value `Integer.parseInt` accepts): the fine is -150, so the ledger entry goes down. | 10 per day over 14, without overflow. The fine is never negative and grows with the days. | low; not executed | `Items.JavaLateFine` and `Lending.JavaReturnStep`, with `Items.JavaLateFineNegative`, `Items.JavaLateFineExactIff` and `LendingProperties.JavaReturnLowersLedger` | `Items.LateFine` |

The rest of the model charges `Items.LateFine`. For every day count up to
214748378 it equals what the program computes (`Items.JavaLateFineExactIff`,
`Lending.JavaReturnStep`).

## Left out

- Console I/O is not modelled. This covers the banner, the menu text, the prompts and the exact message strings. Commands arrive as parsed `Command` values and results leave as `Outcome` values. Both an unparsable menu choice (line 153) and an out-of-range one (line 222) become `Invalid`.
- `Integer.parseInt` failures on the id and day-count prompts (lines 169, 184, 188, 198, 209) are not modelled. The program does not catch them and they end it. In the model, every prompt yields a number.
- The day-count prompt is issued only when the id is found (line 187). `Return(id, days)` always carries a day count, which is ignored on NotFound.
- When standard input runs out, `nextLine` throws and line 154 catches it, so the Java loop spins forever. `Shell.Library.Run` instead stops at the end of its script.
- The fine ledger holds `Double` values. The model keeps exact integers. Every fine is a Java `int`, so every ledger total is a whole number, and `double` addition on whole numbers is exact while the totals stay below 2^53 in magnitude.
- `borrowDate = new Date()` is replaced by a clock reading passed in as an integer. The program never reads it back.
- The audiobook's `double` duration is kept as a `real`. It is only printed, so no floating-point behaviour is involved.
- The catalogue is a `HashMap` (line 117), so its iteration order for the view command is unspecified. The model promises no order: `Shell.Library.ViewAll` picks items in an arbitrary order.
- `Items.LibraryItem.ReturnItem` charges the intended fine `Items.LateFine`, not the program's 32-bit one. So do `Lending.ReturnStep`, `Shell.Library.ReturnById` and every ledger lemma built on them (`StepKeepsLedgerConsistent`, `StepLedgerGrows`, `RunKeepsLedgerConsistent`, `RunLedgerGrows`, `SeededSession`). For day counts from 214748379 to 2147483647 they differ from the program, whose ledger entry can go down or negative there (`LendingProperties.JavaReturnLowersLedger`).
- `Book.getPageCount` is a plain accessor, modelled as the `pageCount` field of `Variant.Book`. The `Playable` interface declares `play()` (lines 47-49), which `AudioBook` implements (lines 81-84); `main` never uses the interface type and tests `instanceof AudioBook` (line 200), which the play step models as the variant test.
