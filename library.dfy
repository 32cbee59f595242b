/**
 * LibraNet's application object: the catalogue of item objects and the
 * fine ledger, updated in place by one method per menu choice, and the
 * menu loop itself. Each method is proved to have the effect of the
 * corresponding step of the Lending state machine.
 */
module Shell {
  import opened Items
  import opened Lending

  class Library {
    /** id to item object; filled once by Seed and never re-assigned. */
    var items: map<int, LibraryItem>
    /** id to accumulated fine. */
    var fines: map<int, int>

    /** Every item is filed under its own id (so distinct ids are distinct
        objects) and keeps its own invariant. */
    ghost predicate Valid()
      reads this, items.Values
    {
      forall k | k in items :: items[k].GetId() == k && items[k].Valid()
    }

    /** The catalogue and ledger as values. */
    ghost function Abstract(): State
      reads this, items.Values
    {
      State(map k | k in items :: items[k].Value(), fines)
    }

    /** seedLibrary. */
    constructor Seed()
      ensures Valid() && fresh(items.Values)
      ensures Abstract() == Lending.Seed()
    {
      var book := new LibraryItem(1, "Java Basics", "John Doe", Book(300));
      var audio := new LibraryItem(2, "Learn DSA", "Alice Smith", AudioBook(120.0));
      var magazine := new LibraryItem(3, "Tech Today", "Editorial Board", EMagazine(45));
      items := map[1 := book, 2 := audio, 3 := magazine];
      fines := map[];
      new;
      assert Abstract().catalogue == Lending.Seed().catalogue;
    }

    /** Choice 1: the details of every item, each exactly once, in an order
        the model leaves open. */
    method ViewAll() returns (rows: seq<Details>)
      requires Valid()
      ensures forall d :: d in rows <==> d in Listing(Abstract())
      ensures |rows| == |items|
      ensures forall i, j | 0 <= i < j < |rows| :: rows[i].id != rows[j].id
    {
      ghost var s := Abstract();
      rows := [];
      ghost var ids: seq<int> := [];
      var pending := items.Keys;
      assert pending == s.catalogue.Keys;
      while pending != {}
        invariant pending <= s.catalogue.Keys
        invariant |rows| == |ids| && |ids| + |pending| == |s.catalogue.Keys|
        invariant forall i | 0 <= i < |ids| ::
          ids[i] in s.catalogue && ids[i] !in pending
          && rows[i] == Describe(ids[i], s.catalogue[ids[i]], s.ledger)
        invariant forall k | k in s.catalogue && k !in pending :: k in ids
        invariant forall i, j | 0 <= i < j < |ids| :: ids[i] != ids[j]
        decreases |pending|
      {
        HasMember(pending);
        var key :| key in pending;
        var row := items[key].ShowDetails(fines);
        assert row == Describe(key, s.catalogue[key], s.ledger);
        rows := rows + [row];
        ids := ids + [key];
        pending := pending - {key};
      }
      assert |s.catalogue.Keys| == |items|;
      ListingMembers(s, ids, rows);
    }

    /** Choice 2. */
    method BorrowById(id: int, now: int) returns (o: Outcome)
      requires Valid()
      modifies if id in items then {items[id]} else {}
      ensures Valid() && items == old(items) && fines == old(fines)
      ensures Transition(Abstract(), o) == BorrowStep(old(Abstract()), id)
    {
      if id !in items {
        return NotFound;
      }
      var item := items[id];
      var ok := item.Borrow(now);
      if ok {
        o := Borrowed(item.title);
      } else {
        o := AlreadyBorrowed(item.title);
      }
      assert forall k | k in items && k != id :: items[k] != item;
      assert Abstract().catalogue == old(Abstract()).catalogue[id := item.Value()];
    }

    /** Choice 3. */
    method ReturnById(id: int, days: int) returns (o: Outcome)
      requires Valid()
      modifies this`fines, if id in items then {items[id]} else {}
      ensures Valid() && items == old(items)
      ensures Transition(Abstract(), o) == ReturnStep(old(Abstract()), id, days)
    {
      if id !in items {
        return NotFound;
      }
      var item := items[id];
      var fine, wasOut := item.ReturnItem(days);
      fines := fines[id := FineOnRecord(fines, id) + fine];
      if wasOut {
        o := Returned(item.title, fine);
      } else {
        o := NotBorrowed(item.title);
      }
      assert forall k | k in items && k != id :: items[k] != item;
      assert Abstract().catalogue == old(Abstract()).catalogue[id := item.Value()];
    }

    /** Choice 4: the instanceof check for an audiobook. */
    method PlayById(id: int) returns (o: Outcome)
      requires Valid()
      ensures o == PlayStep(Abstract(), id).outcome
    {
      if id in items && items[id].variant.AudioBook? {
        o := Playing(items[id].title, items[id].variant.minutes);
      } else {
        o := WrongVariant;
      }
    }

    /** Choice 5: the instanceof check for an e-magazine. */
    method ArchiveById(id: int) returns (o: Outcome)
      requires Valid()
      ensures o == ArchiveStep(Abstract(), id).outcome
    {
      if id in items && items[id].variant.EMagazine? {
        o := Archiving(items[id].variant.issueNumber, items[id].title);
      } else {
        o := WrongVariant;
      }
    }

    /** One iteration of the menu loop; `now` is the clock reading a
        borrow records. */
    method Execute(c: Command, now: int) returns (o: Outcome)
      requires Valid()
      modifies this`fines, items.Values
      ensures Valid() && items == old(items)
      ensures Transition(Abstract(), o) == Step(old(Abstract()), c)
    {
      match c
      case View =>
        var rows := ViewAll();
        o := Listed(set d | d in rows);
        assert (set d | d in rows) == Listing(Abstract());
      case Borrow(id) =>
        o := BorrowById(id, now);
      case Return(id, days) =>
        o := ReturnById(id, days);
      case Play(id) =>
        o := PlayById(id);
      case Archive(id) =>
        o := ArchiveById(id);
      case Exit =>
        o := Exited;
      case Invalid =>
        o := InvalidChoice;
    }

    /** The menu loop over the commands the user types, until Exit or the
        end of the script; `clock(i)` is the clock reading at iteration i. */
    method Run(cmds: seq<Command>, clock: nat -> int) returns (outcomes: seq<Outcome>)
      requires Valid()
      modifies this`fines, items.Values
      ensures Valid() && items == old(items)
      ensures Session(Abstract(), outcomes) == Lending.Run(old(Abstract()), cmds)
    {
      outcomes := [];
      var i := 0;
      while i < |cmds|
        invariant 0 <= i <= |cmds|
        invariant Valid() && items == old(items)
        invariant var rest := Lending.Run(Abstract(), cmds[i..]);
          Lending.Run(old(Abstract()), cmds) == Session(rest.state, outcomes + rest.outcomes)
      {
        if cmds[i] == Exit {
          outcomes := outcomes + [Exited];
          return;
        }
        ghost var before := Abstract();
        var o := Execute(cmds[i], clock(i));
        RunUnfold(before, cmds, i);
        assert outcomes + [o] + Lending.Run(Abstract(), cmds[i + 1..]).outcomes
            == outcomes + ([o] + Lending.Run(Abstract(), cmds[i + 1..]).outcomes);
        outcomes := outcomes + [o];
        i := i + 1;
      }
    }
  }

  /** One turn of the menu loop on the script from position i. */
  lemma RunUnfold(s: State, cmds: seq<Command>, i: nat)
    requires i < |cmds| && cmds[i] != Exit
    ensures var t := Step(s, cmds[i]);
      var rest := Lending.Run(t.state, cmds[i + 1..]);
      Lending.Run(s, cmds[i..]) == Session(rest.state, [t.outcome] + rest.outcomes)
  {
    assert cmds[i..][1..] == cmds[i + 1..];
  }

  lemma NoMemberMeansEmpty(ids: set<int>)
    requires forall x :: x !in ids
    ensures ids == {}
  {
    assert forall x :: x in ids <==> x in {};
  }

  /** A non-empty set of ids has an element to pick. */
  lemma HasMember(ids: set<int>)
    requires ids != {}
    ensures exists x :: x in ids
  {
    if forall x :: x !in ids {
      NoMemberMeansEmpty(ids);
      assert false;
    }
  }

  /** Rows describing each catalogued id once, in some order, are the
      listing of the catalogue. */
  lemma ListingMembers(s: State, ids: seq<int>, rows: seq<Details>)
    requires |rows| == |ids|
    requires forall i | 0 <= i < |ids| ::
      ids[i] in s.catalogue && rows[i] == Describe(ids[i], s.catalogue[ids[i]], s.ledger)
    requires forall k | k in s.catalogue :: k in ids
    requires forall i, j | 0 <= i < j < |ids| :: ids[i] != ids[j]
    ensures forall d :: d in rows <==> d in Listing(s)
    ensures forall i, j | 0 <= i < j < |rows| :: rows[i].id != rows[j].id
  {
    forall d | d in Listing(s)
      ensures d in rows
    {
      var k :| k in s.catalogue && d == Describe(k, s.catalogue[k], s.ledger);
      var i :| 0 <= i < |ids| && ids[i] == k;
      assert rows[i] == d;
    }
  }

  /** A session on the seeded library: borrow the audiobook, borrow it
      again, return it after 16 days. */
  method LateAudioBookSession() returns (first: Outcome, second: Outcome, third: Outcome,
                                         owed: int, availableAgain: bool)
    ensures first == Borrowed("Learn DSA") && second == AlreadyBorrowed("Learn DSA")
    ensures third == Returned("Learn DSA", 20)
    ensures owed == 20 && availableAgain
  {
    var library := new Library.Seed();
    assert library.Abstract().catalogue.Keys == {1, 2, 3};
    assert library.items[2] in library.items.Values;
    first := library.BorrowById(2, 0);
    second := library.BorrowById(2, 1);
    third := library.ReturnById(2, 16);
    owed := FineOnRecord(library.fines, 2);
    assert library.Abstract().catalogue[2] == library.items[2].Value();
    availableAgain := library.items[2].IsAvailable();
  }
}
