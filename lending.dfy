/**
 * The state machine behind LibraNet's menu loop, on values: the catalogue
 * (id to item) and the fine ledger (id to accumulated fine), one atomic
 * step per menu command, and a run over a script of commands that stops
 * at Exit.
 */
module Lending {
  import opened Items

  datatype State = State(catalogue: map<int, Entry>, ledger: map<int, int>)

  /** A parsed menu choice with the numbers its follow-up prompts read.
      Invalid stands for unparsable input and for a choice outside 1..6. */
  datatype Command =
    | View
    | Borrow(id: int)
    | Return(id: int, days: int)
    | Play(id: int)
    | Archive(id: int)
    | Exit
    | Invalid

  datatype Outcome =
    | Listed(rows: set<Details>)
    | Borrowed(title: string)
    | AlreadyBorrowed(title: string)
    | Returned(title: string, fine: int)
    | NotBorrowed(title: string)
    | NotFound
    | Playing(title: string, minutes: real)
    | Archiving(issueNumber: int, title: string)
    | WrongVariant
    | Exited
    | InvalidChoice

  datatype Transition = Transition(state: State, outcome: Outcome)

  datatype Session = Session(state: State, outcomes: seq<Outcome>)

  /** seedLibrary: ids 1, 2 and 3, all available, and an empty ledger. */
  function Seed(): (s: State)
    ensures s.catalogue.Keys == {1, 2, 3}
    ensures forall k | k in s.catalogue :: s.catalogue[k].available
    ensures s.ledger == map[]
  {
    State(map[1 := Entry("Java Basics", "John Doe", Book(300), true),
              2 := Entry("Learn DSA", "Alice Smith", AudioBook(120.0), true),
              3 := Entry("Tech Today", "Editorial Board", EMagazine(45), true)],
          map[])
  }

  /** Choice 1: the details of every item, in no particular order; every
      row belongs to a catalogued id. */
  function Listing(s: State): (rows: set<Details>)
    ensures forall d | d in rows :: d.id in s.catalogue
  {
    set k | k in s.catalogue :: Describe(k, s.catalogue[k], s.ledger)
  }

  /** Choice 2: an absent id is not found; an available item is lent out;
      an item already out stays out. Only that item's flag may change. */
  function BorrowStep(s: State, id: int): (t: Transition)
    ensures t.state.ledger == s.ledger && t.state.catalogue.Keys == s.catalogue.Keys
    ensures t.outcome.NotFound? <==> id !in s.catalogue
    ensures t.outcome.Borrowed? <==> id in s.catalogue && s.catalogue[id].available
    ensures id in s.catalogue ==> t.state.catalogue[id] == s.catalogue[id].(available := false)
  {
    if id !in s.catalogue then Transition(s, NotFound)
    else
      var e := s.catalogue[id];
      if !e.available then Transition(s, AlreadyBorrowed(e.title))
      else Transition(s.(catalogue := s.catalogue[id := e.(available := false)]), Borrowed(e.title))
  }

  /** Choice 3: the item's fine (0 when it was not out) is added to the
      ledger entry for the id, which is created when absent. */
  function ReturnStep(s: State, id: int, days: int): (t: Transition)
    ensures t.state.catalogue.Keys == s.catalogue.Keys
    ensures id in s.catalogue ==> t.state.catalogue[id] == s.catalogue[id].(available := true)
    ensures t.outcome.Returned? <==> id in s.catalogue && !s.catalogue[id].available
    ensures t.outcome.Returned? ==> t.outcome.fine >= 0
    ensures id !in s.catalogue ==> t.state == s
    ensures id in s.catalogue ==> id in t.state.ledger && t.state.ledger[id] >= FineOnRecord(s.ledger, id)
  {
    if id !in s.catalogue then Transition(s, NotFound)
    else
      var e := s.catalogue[id];
      var fine := if e.available then 0 else LateFine(days);
      var next := State(s.catalogue[id := e.(available := true)],
                        s.ledger[id := FineOnRecord(s.ledger, id) + fine]);
      Transition(next, if e.available then NotBorrowed(e.title) else Returned(e.title, fine))
  }

  /** Choice 4: only an audiobook can be played. */
  function PlayStep(s: State, id: int): (t: Transition)
    ensures t.state == s
    ensures t.outcome.Playing? || t.outcome == WrongVariant
    ensures t.outcome.Playing? ==> (id in s.catalogue && s.catalogue[id].variant.AudioBook?
      && t.outcome.title == s.catalogue[id].title
      && t.outcome.minutes == s.catalogue[id].variant.minutes)
  {
    if id in s.catalogue && s.catalogue[id].variant.AudioBook? then
      Transition(s, Playing(s.catalogue[id].title, s.catalogue[id].variant.minutes))
    else Transition(s, WrongVariant)
  }

  /** Choice 5: only an e-magazine can be archived. */
  function ArchiveStep(s: State, id: int): (t: Transition)
    ensures t.state == s
    ensures t.outcome.Archiving? || t.outcome == WrongVariant
    ensures t.outcome.Archiving? ==> (id in s.catalogue && s.catalogue[id].variant.EMagazine?
      && t.outcome.title == s.catalogue[id].title
      && t.outcome.issueNumber == s.catalogue[id].variant.issueNumber)
  {
    if id in s.catalogue && s.catalogue[id].variant.EMagazine? then
      Transition(s, Archiving(s.catalogue[id].variant.issueNumber, s.catalogue[id].title))
    else Transition(s, WrongVariant)
  }

  /** One iteration of the menu loop. */
  function Step(s: State, c: Command): Transition {
    match c
    case View => Transition(s, Listed(Listing(s)))
    case Borrow(id) => BorrowStep(s, id)
    case Return(id, days) => ReturnStep(s, id, days)
    case Play(id) => PlayStep(s, id)
    case Archive(id) => ArchiveStep(s, id)
    case Exit => Transition(s, Exited)
    case Invalid => Transition(s, InvalidChoice)
  }

  /** The menu loop over a script of commands; Exit ends it at once and
      the rest of the script is never read. */
  function Run(s: State, cmds: seq<Command>): (r: Session)
    decreases |cmds|
    ensures |r.outcomes| <= |cmds|
    ensures r.state.catalogue.Keys == s.catalogue.Keys
  {
    if cmds == [] then Session(s, [])
    else if cmds[0] == Exit then Session(s, [Exited])
    else
      var t := Step(s, cmds[0]);
      var rest := Run(t.state, cmds[1..]);
      Session(rest.state, [t.outcome] + rest.outcomes)
  }

  /** The return step as the program evaluates it, with the 32-bit fine of
      Items.JavaLateFine. */
  function JavaReturnStep(s: State, id: int, days: int): (t: Transition)
    requires IsInt32(days)
    ensures t.state.catalogue == ReturnStep(s, id, days).state.catalogue
    ensures days <= MaxExactDays ==> t == ReturnStep(s, id, days)
  {
    JavaLateFineExactIff(days);
    if id !in s.catalogue then Transition(s, NotFound)
    else
      var e := s.catalogue[id];
      var fine := if e.available then 0 else JavaLateFine(days);
      var next := State(s.catalogue[id := e.(available := true)],
                        s.ledger[id := FineOnRecord(s.ledger, id) + fine]);
      Transition(next, if e.available then NotBorrowed(e.title) else Returned(e.title, fine))
  }
}
