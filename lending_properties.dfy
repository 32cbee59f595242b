/**
 * What LibraNet promises about its lending state machine: the effect of
 * each command on the catalogue and the ledger, what it leaves alone, and
 * the invariants a whole session keeps.
 */
module LendingProperties {
  import opened Items
  import opened Lending

  /** Two entries are the same item, whatever their availability. */
  predicate SameItem(a: Entry, b: Entry) {
    a.title == b.title && a.author == b.author && a.variant == b.variant
  }

  /** The catalogue holds the same ids for the same items. */
  predicate SameShelf(before: map<int, Entry>, after: map<int, Entry>) {
    && before.Keys == after.Keys
    && forall k | k in before :: SameItem(before[k], after[k])
  }

  /** Every ledger entry belongs to a catalogued item and holds a
      non-negative whole number of day fines. */
  predicate LedgerConsistent(s: State) {
    && s.ledger.Keys <= s.catalogue.Keys
    && forall k | k in s.ledger :: s.ledger[k] >= 0 && s.ledger[k] % FinePerDay == 0
  }

  /** No ledger entry is removed or lowered. */
  predicate LedgerGrows(before: map<int, int>, after: map<int, int>) {
    forall k | k in before :: k in after && before[k] <= after[k]
  }

  // ---------------------------------------------------------------------
  // Borrowing

  lemma BorrowAvailable(s: State, id: int)
    requires id in s.catalogue && s.catalogue[id].available
    ensures var t := Step(s, Borrow(id));
      && t.outcome == Borrowed(s.catalogue[id].title)
      && id in t.state.catalogue && !t.state.catalogue[id].available
      && SameItem(t.state.catalogue[id], s.catalogue[id])
      && t.state.catalogue.Keys == s.catalogue.Keys
      && (forall k | k in s.catalogue && k != id :: t.state.catalogue[k] == s.catalogue[k])
      && t.state.ledger == s.ledger
  {
  }

  lemma BorrowUnavailable(s: State, id: int)
    requires id in s.catalogue && !s.catalogue[id].available
    ensures Step(s, Borrow(id)) == Transition(s, AlreadyBorrowed(s.catalogue[id].title))
  {
  }

  /** A second borrow in a row always fails, and the item stays out. */
  lemma BorrowTwice(s: State, id: int)
    requires id in s.catalogue
    ensures var t1 := Step(s, Borrow(id));
      var t2 := Step(t1.state, Borrow(id));
      && t2.outcome == AlreadyBorrowed(s.catalogue[id].title)
      && t2.state == t1.state
      && id in t1.state.catalogue && !t1.state.catalogue[id].available
  {
  }

  // ---------------------------------------------------------------------
  // Returning

  /** Returning an item that is not out reports no fine and still leaves a
      (zero-added) ledger entry for the id. */
  lemma ReturnNotBorrowed(s: State, id: int, days: int)
    requires id in s.catalogue && s.catalogue[id].available
    ensures var t := Step(s, Return(id, days));
      && t.outcome == NotBorrowed(s.catalogue[id].title)
      && t.state.catalogue == s.catalogue
      && id in t.state.ledger && t.state.ledger[id] == FineOnRecord(s.ledger, id)
      && (forall k | k != id :: (k in t.state.ledger <==> k in s.ledger))
      && (forall k | k in s.ledger :: t.state.ledger[k] == s.ledger[k])
  {
  }

  lemma ReturnBorrowed(s: State, id: int, days: int)
    requires id in s.catalogue && !s.catalogue[id].available
    ensures var t := Step(s, Return(id, days));
      && t.outcome == Returned(s.catalogue[id].title, LateFine(days))
      && id in t.state.catalogue && t.state.catalogue[id].available
      && SameItem(t.state.catalogue[id], s.catalogue[id])
      && t.state.catalogue.Keys == s.catalogue.Keys
      && (forall k | k in s.catalogue && k != id :: t.state.catalogue[k] == s.catalogue[k])
      && id in t.state.ledger && t.state.ledger[id] == FineOnRecord(s.ledger, id) + LateFine(days)
      && (forall k | k != id :: (k in t.state.ledger <==> k in s.ledger))
      && (forall k | k in s.ledger && k != id :: t.state.ledger[k] == s.ledger[k])
  {
  }

  /** Borrowing an available item and returning it restores the catalogue
      and adds exactly the late fine to the item's ledger entry. */
  lemma BorrowThenReturn(s: State, id: int, days: int)
    requires id in s.catalogue && s.catalogue[id].available
    ensures var r := Run(s, [Borrow(id), Return(id, days)]);
      && r.state.catalogue == s.catalogue
      && r.state.ledger == s.ledger[id := FineOnRecord(s.ledger, id) + LateFine(days)]
      && r.outcomes == [Borrowed(s.catalogue[id].title), Returned(s.catalogue[id].title, LateFine(days))]
  {
    var t1 := Step(s, Borrow(id));
    var t2 := Step(t1.state, Return(id, days));
    assert [Borrow(id), Return(id, days)][1..] == [Return(id, days)];
    assert Run(t1.state, [Return(id, days)]) == Session(t2.state, [t2.outcome]);
    assert t2.state.catalogue == s.catalogue;
  }

  /** Fines of successive loans of one item add up on its ledger entry. */
  lemma FinesAccumulate(s: State, id: int, d1: int, d2: int)
    requires id in s.catalogue && s.catalogue[id].available
    ensures var r := Run(s, [Borrow(id), Return(id, d1)] + [Borrow(id), Return(id, d2)]);
      && r.state.catalogue == s.catalogue
      && r.state.ledger == s.ledger[id := FineOnRecord(s.ledger, id) + LateFine(d1) + LateFine(d2)]
  {
    var mid := Run(s, [Borrow(id), Return(id, d1)]).state;
    BorrowThenReturn(s, id, d1);
    BorrowThenReturn(mid, id, d2);
    RunConcat(s, [Borrow(id), Return(id, d1)], [Borrow(id), Return(id, d2)]);
  }

  /** A 15-day loan and then a 16-day loan of item 2 leave 30 on its entry. */
  lemma FinesAccumulateExample()
    ensures Run(Seed(), [Borrow(2), Return(2, 15), Borrow(2), Return(2, 16)]).state.ledger[2] == 30
  {
    FinesAccumulate(Seed(), 2, 15, 16);
    assert [Borrow(2), Return(2, 15)] + [Borrow(2), Return(2, 16)]
        == [Borrow(2), Return(2, 15), Borrow(2), Return(2, 16)];
  }

  // ---------------------------------------------------------------------
  // Lookups that fail, type-specific actions, viewing

  /** A borrow or return of an id that is not catalogued reports NotFound
      and changes nothing. */
  lemma AbsentIdChangesNothing(s: State, c: Command)
    requires c.Borrow? || c.Return?
    requires c.id !in s.catalogue
    ensures Step(s, c) == Transition(s, NotFound)
  {
  }

  /** Play succeeds exactly on an audiobook and never changes the state. */
  lemma PlayOnlyAudioBooks(s: State, id: int)
    ensures Step(s, Play(id)).state == s
    ensures Step(s, Play(id)).outcome.Playing? <==> id in s.catalogue && s.catalogue[id].variant.AudioBook?
    ensures !Step(s, Play(id)).outcome.Playing? ==> Step(s, Play(id)).outcome == WrongVariant
  {
  }

  /** Archive succeeds exactly on an e-magazine and never changes the state. */
  lemma ArchiveOnlyMagazines(s: State, id: int)
    ensures Step(s, Archive(id)).state == s
    ensures Step(s, Archive(id)).outcome.Archiving? <==> id in s.catalogue && s.catalogue[id].variant.EMagazine?
    ensures !Step(s, Archive(id)).outcome.Archiving? ==> Step(s, Archive(id)).outcome == WrongVariant
  {
  }

  /** Viewing changes nothing and shows one row per catalogued id, with
      that id's fine on record (0 when the ledger has none). */
  lemma ViewIsReadOnly(s: State)
    ensures Step(s, View).state == s
    ensures forall d | d in Step(s, View).outcome.rows ::
      d.id in s.catalogue && d.available == s.catalogue[d.id].available && d.fine == FineOnRecord(s.ledger, d.id)
    ensures forall k | k in s.catalogue :: Describe(k, s.catalogue[k], s.ledger) in Step(s, View).outcome.rows
  {
  }

  /** The listing has one row per catalogued id: each row describes the
      item filed under its id, each item has a row, and no id has two. */
  lemma ListingOneRowPerId(s: State)
    ensures forall d | d in Listing(s) :: d.id in s.catalogue && d == Describe(d.id, s.catalogue[d.id], s.ledger)
    ensures forall k | k in s.catalogue :: Describe(k, s.catalogue[k], s.ledger) in Listing(s)
    ensures forall d1, d2 | d1 in Listing(s) && d2 in Listing(s) && d1.id == d2.id :: d1 == d2
  {
  }

  // ---------------------------------------------------------------------
  // One step

  lemma StepKeepsShelf(s: State, c: Command)
    ensures SameShelf(s.catalogue, Step(s, c).state.catalogue)
  {
  }

  lemma StepKeepsLedgerConsistent(s: State, c: Command)
    requires LedgerConsistent(s)
    ensures LedgerConsistent(Step(s, c).state)
  {
  }

  /** Only a return of a catalogued id touches the ledger, and no step
      removes or lowers an entry. */
  lemma StepLedgerGrows(s: State, c: Command)
    ensures LedgerGrows(s.ledger, Step(s, c).state.ledger)
    ensures Step(s, c).state.ledger != s.ledger ==> c.Return? && c.id in s.catalogue
  {
  }

  /** Only a borrow or a return changes the state and only a return the
      ledger; only Exit reports Exited, and only a choice outside the menu
      is reported as invalid. */
  lemma StepChangesOnlyWhatItMust(s: State, c: Command)
    ensures !(c.Borrow? || c.Return?) ==> Step(s, c).state == s
    ensures !c.Return? ==> Step(s, c).state.ledger == s.ledger
    ensures Step(s, c).outcome == Exited <==> c == Exit
    ensures Step(s, c).outcome == InvalidChoice <==> c == Invalid
  {
  }

  // ---------------------------------------------------------------------
  // Whole sessions

  /** Running two scripts one after the other is running their
      concatenation, as long as the first does not exit. */
  lemma {:induction false} RunConcat(s: State, a: seq<Command>, b: seq<Command>)
    requires Exit !in a
    decreases |a|
    ensures var ra := Run(s, a);
      var rb := Run(ra.state, b);
      Run(s, a + b) == Session(rb.state, ra.outcomes + rb.outcomes)
  {
    if a == [] {
      assert a + b == b;
    } else {
      var t := Step(s, a[0]);
      assert (a + b)[0] == a[0];
      assert (a + b)[1..] == a[1..] + b;
      RunConcat(t.state, a[1..], b);
      var ra := Run(t.state, a[1..]);
      var rb := Run(ra.state, b);
      assert Run(s, a) == Session(ra.state, [t.outcome] + ra.outcomes);
      assert Run(s, a + b) == Session(rb.state, [t.outcome] + (ra.outcomes + rb.outcomes));
      assert [t.outcome] + (ra.outcomes + rb.outcomes) == [t.outcome] + ra.outcomes + rb.outcomes;
    }
  }

  /** Choice 6 ends the loop: nothing after it is read. */
  lemma {:induction false} ExitStopsRun(s: State, before: seq<Command>, after: seq<Command>)
    requires Exit !in before
    decreases |before|
    ensures Run(s, before + [Exit] + after) == Run(s, before + [Exit])
    ensures |Run(s, before + [Exit]).outcomes| == |before| + 1
    ensures Run(s, before + [Exit]).outcomes[|before|] == Exited
  {
    if before == [] {
      assert before + [Exit] + after == [Exit] + after;
      assert before + [Exit] == [Exit];
    } else {
      var t := Step(s, before[0]);
      assert (before + [Exit] + after)[1..] == before[1..] + [Exit] + after;
      assert (before + [Exit])[1..] == before[1..] + [Exit];
      ExitStopsRun(t.state, before[1..], after);
    }
  }

  /** Without Exit, each command yields exactly one outcome. */
  lemma {:induction false} RunOutcomePerCommand(s: State, cmds: seq<Command>)
    decreases |cmds|
    requires Exit !in cmds
    ensures |Run(s, cmds).outcomes| == |cmds|
    ensures forall i | 0 <= i < |cmds| :: Run(s, cmds).outcomes[i] != Exited
  {
    if cmds != [] {
      var t := Step(s, cmds[0]);
      assert cmds[0] != Exit;
      assert t.outcome != Exited;
      RunOutcomePerCommand(t.state, cmds[1..]);
    }
  }

  lemma {:induction false} RunKeepsShelf(s: State, cmds: seq<Command>)
    decreases |cmds|
    ensures SameShelf(s.catalogue, Run(s, cmds).state.catalogue)
  {
    if cmds != [] && cmds[0] != Exit {
      var t := Step(s, cmds[0]);
      StepKeepsShelf(s, cmds[0]);
      RunKeepsShelf(t.state, cmds[1..]);
    }
  }

  lemma {:induction false} RunKeepsLedgerConsistent(s: State, cmds: seq<Command>)
    decreases |cmds|
    requires LedgerConsistent(s)
    ensures LedgerConsistent(Run(s, cmds).state)
  {
    if cmds != [] && cmds[0] != Exit {
      var t := Step(s, cmds[0]);
      StepKeepsLedgerConsistent(s, cmds[0]);
      RunKeepsLedgerConsistent(t.state, cmds[1..]);
    }
  }

  lemma {:induction false} RunLedgerGrows(s: State, cmds: seq<Command>)
    decreases |cmds|
    ensures LedgerGrows(s.ledger, Run(s, cmds).state.ledger)
  {
    if cmds != [] && cmds[0] != Exit {
      var t := Step(s, cmds[0]);
      StepLedgerGrows(s, cmds[0]);
      RunLedgerGrows(t.state, cmds[1..]);
    }
  }

  // ---------------------------------------------------------------------
  // The seeded library

  lemma SeedFacts()
    ensures Seed().catalogue.Keys == {1, 2, 3}
    ensures forall k | k in Seed().catalogue :: Seed().catalogue[k].available
    ensures Seed().catalogue[1].variant.Book? && Seed().catalogue[2].variant.AudioBook?
    ensures Seed().catalogue[3].variant.EMagazine?
    ensures LedgerConsistent(Seed())
  {
  }

  /** Whatever the user types, the catalogue keeps ids 1, 2, 3 and the
      ledger only holds non-negative multiples of 10 for them. */
  lemma SeededSession(cmds: seq<Command>)
    ensures Run(Seed(), cmds).state.catalogue.Keys == {1, 2, 3}
    ensures LedgerConsistent(Run(Seed(), cmds).state)
  {
    SeedFacts();
    RunKeepsShelf(Seed(), cmds);
    RunKeepsLedgerConsistent(Seed(), cmds);
  }

  /** Borrow the audiobook, borrow it again, return it after 16 days. */
  lemma LateAudioBookScenario()
    ensures var r := Run(Seed(), [Borrow(2), Borrow(2), Return(2, 16)]);
      && r.outcomes == [Borrowed("Learn DSA"), AlreadyBorrowed("Learn DSA"), Returned("Learn DSA", 20)]
      && r.state.ledger == map[2 := 20]
      && r.state.catalogue == Seed().catalogue
  {
    var s0 := Seed();
    var s1 := Step(s0, Borrow(2)).state;
    var s3 := Step(s1, Return(2, 16)).state;
    assert Step(s1, Borrow(2)).state == s1;
    assert s3.catalogue == s0.catalogue;
  }

  /** The return step as the program evaluates it: after a 16-day loan
      has left 20 on item 2's entry, a second loan returned after
      Integer.MAX_VALUE days is charged -150, so the entry drops to -130
      and the ledger no longer grows or stays non-negative. The intended
      step adds 21474836330 instead. */
  lemma JavaReturnLowersLedger()
    ensures var s := Run(Seed(), [Borrow(2), Return(2, 16), Borrow(2)]).state;
      && s.ledger == map[2 := 20]
      && JavaReturnStep(s, 2, IntMax).state.ledger == map[2 := -130]
      && !LedgerGrows(s.ledger, JavaReturnStep(s, 2, IntMax).state.ledger)
      && !LedgerConsistent(JavaReturnStep(s, 2, IntMax).state)
      && ReturnStep(s, 2, IntMax).state.ledger == map[2 := 21474836350]
  {
    var s0 := Seed();
    var s1 := Step(s0, Borrow(2)).state;
    var s2 := Step(s1, Return(2, 16)).state;
    var s3 := Step(s2, Borrow(2)).state;
    assert s2.ledger == map[2 := 20];
    assert [Borrow(2), Return(2, 16), Borrow(2)][1..] == [Return(2, 16), Borrow(2)];
    assert [Return(2, 16), Borrow(2)][1..] == [Borrow(2)];
    assert Run(s0, [Borrow(2), Return(2, 16), Borrow(2)]).state == s3;
    JavaLateFineNegative();
    assert JavaReturnStep(s3, 2, IntMax).state.ledger[2] == -130;
  }

  /** Borrowing an absent id on the seeded library changes nothing. */
  lemma AbsentIdScenario()
    ensures Run(Seed(), [Borrow(99)]) == Session(Seed(), [NotFound])
  {
  }
}
