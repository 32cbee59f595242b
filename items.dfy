/**
 * The library items of LibraNet: the three variants, the late-return fine,
 * the fine-ledger read with default 0, and the mutable item object whose
 * availability flag is flipped by borrowing and returning.
 */
module Items {

  datatype Option<T> = None | Some(value: T)

  /** The closed set of item variants, each with its own extra data.
      An audiobook's duration is a Java double that is only ever printed,
      so it is kept as a real. */
  datatype Variant =
    | Book(pageCount: int)
    | AudioBook(minutes: real)
    | EMagazine(issueNumber: int)

  /** The value of an item as the catalogue sees it. */
  datatype Entry = Entry(title: string, author: string, variant: Variant, available: bool)

  /** What showDetails reports for one item. */
  datatype Details = Details(id: int, title: string, author: string, variant: Variant,
                             available: bool, fine: int)

  // ---------------------------------------------------------------------
  // The late fine

  /** Days an item may be kept without a fine. */
  const GraceDays: int := 14
  /** Fine charged per day beyond the grace period. */
  const FinePerDay: int := 10

  /** The fine charged when a loan of `actualDays` days ends: 10 per day
      over the 14-day grace period, nothing within it. */
  function LateFine(actualDays: int): (fine: int)
    ensures fine >= 0
    ensures fine % FinePerDay == 0
    ensures fine == 0 <==> actualDays <= GraceDays
  {
    if actualDays > GraceDays then (actualDays - GraceDays) * FinePerDay else 0
  }

  /** Each day past the grace period adds exactly one day's fine. */
  lemma LateFinePerExtraDay(actualDays: int)
    requires actualDays >= GraceDays
    ensures LateFine(actualDays + 1) == LateFine(actualDays) + FinePerDay
  {
  }

  /** Keeping an item longer never costs less. */
  lemma LateFineMonotone(d1: int, d2: int)
    requires d1 <= d2
    ensures LateFine(d1) <= LateFine(d2)
  {
  }

  lemma LateFineExamples()
    ensures LateFine(14) == 0 && LateFine(15) == 10 && LateFine(16) == 20 && LateFine(20) == 60
    ensures LateFine(1) == 0 && LateFine(-5) == 0
  {
  }

  // ---------------------------------------------------------------------
  // The fine as Java computes it: in 32-bit two's-complement int

  const IntMin: int := -0x8000_0000
  const IntMax: int := 0x7fff_ffff
  const TwoTo32: int := 0x1_0000_0000

  predicate IsInt32(x: int) { IntMin <= x <= IntMax }

  /** Java's int arithmetic: the 32-bit two's-complement value congruent
      to x modulo 2^32. */
  function Wrap32(x: int): (r: int)
    ensures IsInt32(r)
    ensures (x - r) % TwoTo32 == 0
    ensures IsInt32(x) ==> r == x
  {
    var m := x % TwoTo32;
    if m <= IntMax then m else m - TwoTo32
  }

  /** The largest day count for which (days - 14) * 10 fits in an int. */
  const MaxExactDays: int := 214748378

  /** The fine expression of returnItem evaluated in Java int arithmetic
      (subtraction and multiplication both wrap) before it is widened to
      double. */
  function JavaLateFine(actualDays: int): (fine: int)
    requires IsInt32(actualDays)
    ensures IsInt32(fine)
    ensures actualDays <= GraceDays ==> fine == 0
  {
    if actualDays > GraceDays then Wrap32(Wrap32(actualDays - GraceDays) * FinePerDay) else 0
  }

  /** The Java expression gives the intended fine exactly when the product
      does not overflow, i.e. for at most 214748378 days. */
  lemma JavaLateFineExactIff(actualDays: int)
    requires IsInt32(actualDays)
    ensures JavaLateFine(actualDays) == LateFine(actualDays) <==> actualDays <= MaxExactDays
  {
    if actualDays > GraceDays {
      assert Wrap32(actualDays - GraceDays) == actualDays - GraceDays;
      if actualDays > MaxExactDays {
        assert !IsInt32(LateFine(actualDays));
      }
    }
  }

  /** A return after Integer.MAX_VALUE days is charged a negative fine,
      which would reduce the amount on the ledger. */
  lemma JavaLateFineNegative()
    ensures JavaLateFine(IntMax) == -150
    ensures LateFine(IntMax) == 21474836330
  {
  }

  // ---------------------------------------------------------------------
  // The fine ledger read

  /** getOrDefault(id, 0.0) on the fine ledger. */
  function FineOnRecord(ledger: map<int, int>, id: int): (fine: int)
    ensures id in ledger ==> fine == ledger[id]
    ensures id !in ledger ==> fine == 0
  {
    if id in ledger then ledger[id] else 0
  }

  /** The ledger update of a return, put(id, getOrDefault(id, 0.0) + fine):
      afterwards the id reads the old amount plus the fine, and every other
      id reads what it read before. */
  lemma ChargeOnRecord(ledger: map<int, int>, id: int, fine: int)
    ensures var after := ledger[id := FineOnRecord(ledger, id) + fine];
      && id in after
      && FineOnRecord(after, id) == FineOnRecord(ledger, id) + fine
      && forall k | k != id :: FineOnRecord(after, k) == FineOnRecord(ledger, k)
  {
  }

  /** showDetails: the item's identity, variant data, availability and the
      fine on record for its id, 0 when the ledger has no entry. */
  function Describe(id: int, e: Entry, ledger: map<int, int>): (d: Details)
    ensures d.id == id && d.title == e.title && d.author == e.author
    ensures d.variant == e.variant && d.available == e.available
    ensures id !in ledger ==> d.fine == 0
    ensures id in ledger ==> d.fine == ledger[id]
  {
    Details(id, e.title, e.author, e.variant, e.available, FineOnRecord(ledger, id))
  }

  // ---------------------------------------------------------------------
  // The item object

  /** One catalogue item; `available` and `borrowDate` change in place. */
  class LibraryItem {
    const id: int
    const title: string
    const author: string
    const variant: Variant
    var available: bool
    /** The clock reading taken by the last borrow; never cleared. */
    var borrowDate: Option<int>

    /** An item that is out has a borrow date. */
    ghost predicate Valid()
      reads this
    {
      !available ==> borrowDate.Some?
    }

    function Value(): Entry
      reads this
    {
      Entry(title, author, variant, available)
    }

    constructor (id: int, title: string, author: string, variant: Variant)
      ensures Valid()
      ensures this.id == id && this.title == title && this.author == author && this.variant == variant
      ensures available && borrowDate == None
    {
      this.id := id;
      this.title := title;
      this.author := author;
      this.variant := variant;
      available := true;
      borrowDate := None;
    }

    /** Borrowing succeeds only on an available item; `now` is the clock
        reading recorded as the borrow date. On failure nothing changes. */
    method Borrow(now: int) returns (ok: bool)
      requires Valid()
      modifies this
      ensures Valid()
      ensures ok == old(available)
      ensures !available
      ensures borrowDate == if ok then Some(now) else old(borrowDate)
    {
      if !available {
        return false;
      }
      available := false;
      borrowDate := Some(now);
      ok := true;
    }

    /** Returning an item that is out makes it available and charges the
        late fine; returning an item that is not out is a no-op with fine 0.
        `wasOut` tells which of the two messages the item reports. */
    method ReturnItem(actualDays: int) returns (fine: int, wasOut: bool)
      requires Valid()
      modifies this
      ensures Valid()
      ensures available && borrowDate == old(borrowDate)
      ensures wasOut == !old(available)
      ensures fine == if wasOut then LateFine(actualDays) else 0
    {
      if available {
        return 0, false;
      }
      available := true;
      fine := LateFine(actualDays);
      wasOut := true;
    }

    function IsAvailable(): (b: bool)
      reads this
      requires Valid()
      ensures b == available
      ensures !b ==> borrowDate.Some?
    {
      available
    }

    /** The id the item is filed under in the catalogue. */
    function GetId(): (r: int)
      ensures r == id
    {
      id
    }

    /** The row showDetails prints: the item's own fields and the fine on
        record for its id. */
    function ShowDetails(fines: map<int, int>): (d: Details)
      reads this
      ensures d.id == id && d.title == title && d.author == author && d.variant == variant
      ensures d.available == available && d.fine == FineOnRecord(fines, id)
    {
      Describe(id, Value(), fines)
    }
  }
}
