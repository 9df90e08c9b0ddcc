/** The read-only views: how the issued-books window classifies and totals
    transactions, and how the book list labels stock and totals copies. Both
    recompute from the rows their query returned. */
module Reporting {
  import opened Outcomes
  import opened Calendar
  import opened LibraryDb
  import opened Ledger

  /** The "Days" and "Status" columns of one transaction. */
  datatype LoanView =
    | Active(daysOut: int)
    | Overdue(daysOut: int, daysOverdue: int)
    | Closed(daysOut: int)

  /** A row without a return date is overdue once `now` is past the midnight
      that starts its due day, and active otherwise; a returned row reports
      how many days it was held. */
  function Classify(l: Loan, now: Instant): (v: LoanView)
    ensures v.Closed? <==> l.returned.Some?
    ensures v.Overdue? <==> l.returned.None? && (now.day > l.due || (now.day == l.due && now.time > 0))
    ensures v.Active? ==> v.daysOut == now.day - l.borrowed && now.day <= l.due
    ensures v.Overdue? ==> v.daysOut == now.day - l.borrowed && v.daysOverdue == now.day - l.due >= 0
    ensures v.Closed? ==> v.daysOut == l.returned.value - l.borrowed
  {
    match l.returned
    case Some(back) => Closed(back - l.borrowed)
    case None =>
      var out := DaysSince(now, l.borrowed);
      PastMidnightByDate(now, l.due);
      if PastMidnight(now, l.due) then Overdue(out, DaysSince(now, l.due)) else Active(out)
  }

  /** For an open loan, the days the window shows as overdue are exactly the
      fine a return at the same moment would charge. */
  lemma ClassifyAgreesWithFine(l: Loan, now: Instant)
    requires l.returned.None?
    ensures LateFine(now, l.due) == (match Classify(l, now)
                                     case Overdue(_, late) => late * DailyRate
                                     case _ => 0)
  {
  }

  /** On its due day, after midnight, an open loan already shows as overdue by
      zero days while returning it then costs nothing. */
  lemma DueDayOverdueButFree(l: Loan, now: Instant)
    requires l.returned.None? && now.day == l.due && now.time > 0
    ensures Classify(l, now) == Overdue(now.day - l.borrowed, 0)
    ensures LateFine(now, l.due) == 0
  {
  }

  function CountActive(rows: seq<Loan>, now: Instant): nat {
    if |rows| == 0 then 0
    else CountActive(rows[..|rows| - 1], now) + (if Classify(rows[|rows| - 1], now).Active? then 1 else 0)
  }

  function CountOverdue(rows: seq<Loan>, now: Instant): nat {
    if |rows| == 0 then 0
    else CountOverdue(rows[..|rows| - 1], now) + (if Classify(rows[|rows| - 1], now).Overdue? then 1 else 0)
  }

  /** Rows without a return date. */
  function CountOpen(rows: seq<Loan>): nat {
    if |rows| == 0 then 0
    else CountOpen(rows[..|rows| - 1]) + (if rows[|rows| - 1].returned.None? then 1 else 0)
  }

  function SumFines(rows: seq<Loan>): int {
    if |rows| == 0 then 0
    else SumFines(rows[..|rows| - 1]) + rows[|rows| - 1].fine
  }

  /** Every open row is either active or overdue, never both. */
  lemma {:induction false} OpenSplits(rows: seq<Loan>, now: Instant)
    ensures CountActive(rows, now) + CountOverdue(rows, now) == CountOpen(rows)
  {
    if |rows| > 0 {
      OpenSplits(rows[..|rows| - 1], now);
    }
  }

  /** Fines are never negative, so neither is their total. */
  lemma {:induction false} FinesNonNegative(rows: seq<Loan>)
    requires forall i :: 0 <= i < |rows| ==> LoanShape(rows[i])
    ensures SumFines(rows) >= 0
  {
    if |rows| > 0 {
      FinesNonNegative(rows[..|rows| - 1]);
    }
  }

  /** The loop of `view_issued_books_window.refresh_data` over the rows its
      query returned: one view per row and the four summary figures. */
  method SummariseLoans(rows: seq<Loan>, now: Instant)
    returns (total: nat, active: nat, overdue: nat, fines: int, views: seq<LoanView>)
    ensures total == |rows|
    ensures active == CountActive(rows, now) && overdue == CountOverdue(rows, now)
    ensures active + overdue == CountOpen(rows)
    ensures fines == SumFines(rows)
    ensures |views| == |rows| && forall i :: 0 <= i < |rows| ==> views[i] == Classify(rows[i], now)
  {
    total, active, overdue, fines, views := 0, 0, 0, 0, [];
    var i := 0;
    while i < |rows|
      invariant 0 <= i <= |rows|
      invariant total == i
      invariant active == CountActive(rows[..i], now) && overdue == CountOverdue(rows[..i], now)
      invariant fines == SumFines(rows[..i])
      invariant |views| == i && forall j :: 0 <= j < i ==> views[j] == Classify(rows[j], now)
    {
      assert rows[..i + 1][..i] == rows[..i];
      var row := rows[i];
      var view := Classify(row, now);
      match view {
        case Overdue(_, _) => overdue := overdue + 1;
        case Active(_) => active := active + 1;
        case Closed(_) =>
      }
      views := views + [view];
      total := total + 1;
      fines := fines + row.fine;
      i := i + 1;
    }
    assert rows[..i] == rows;
    OpenSplits(rows, now);
  }

  /** The "Status" column of the book list. */
  datatype StockStatus = OutOfStock | AllAvailable | PartlyIssued(issued: int)

  function Stock(b: Book): (st: StockStatus)
    ensures st == OutOfStock <==> b.available == 0
    ensures st == AllAvailable <==> b.available != 0 && b.available == b.total
    ensures st.PartlyIssued? ==> st.issued == b.total - b.available != 0
  {
    if b.available == 0 then OutOfStock
    else if b.available == b.total then AllAvailable
    else PartlyIssued(b.total - b.available)
  }

  /** In a consistent database the label reads the loans correctly: a book
      shows as fully available exactly when it has copies and none is out,
      and a partly issued book shows its number of open loans. */
  lemma StockReflectsLoans(s: Db, b: int)
    requires Consistent(s) && b in s.books
    ensures Stock(s.books[b]) == AllAvailable <==> s.books[b].available != 0 && BorrowedOn(s.loans, b) == 0
    ensures Stock(s.books[b]).PartlyIssued? ==> Stock(s.books[b]).issued == BorrowedOn(s.loans, b) > 0
    ensures Stock(s.books[b]) == OutOfStock ==> BorrowedOn(s.loans, b) == s.books[b].total
  {
    assert CopiesAgree(s, b);
  }

  function SumTotal(rows: seq<Book>): int {
    if |rows| == 0 then 0 else SumTotal(rows[..|rows| - 1]) + rows[|rows| - 1].total
  }

  function SumAvailable(rows: seq<Book>): int {
    if |rows| == 0 then 0 else SumAvailable(rows[..|rows| - 1]) + rows[|rows| - 1].available
  }

  function SumIssued(rows: seq<Book>): int {
    if |rows| == 0 then 0 else SumIssued(rows[..|rows| - 1]) + (rows[|rows| - 1].total - rows[|rows| - 1].available)
  }

  /** "Available Copies" and "Currently Issued" together make up every copy listed. */
  lemma {:induction false} CopiesSplit(rows: seq<Book>)
    ensures SumAvailable(rows) + SumIssued(rows) == SumTotal(rows)
  {
    if |rows| > 0 {
      CopiesSplit(rows[..|rows| - 1]);
    }
  }

  /** The loop of `view_all_books_window.refresh_books` over the rows its
      query returned: one status per row and the three summary figures. */
  method SummariseBooks(rows: seq<Book>)
    returns (count: nat, available: int, issued: int, statuses: seq<StockStatus>)
    ensures count == |rows|
    ensures available == SumAvailable(rows) && issued == SumIssued(rows)
    ensures available + issued == SumTotal(rows)
    ensures |statuses| == |rows| && forall i :: 0 <= i < |rows| ==> statuses[i] == Stock(rows[i])
  {
    count, available, issued, statuses := 0, 0, 0, [];
    var i := 0;
    while i < |rows|
      invariant 0 <= i <= |rows|
      invariant count == i
      invariant available == SumAvailable(rows[..i]) && issued == SumIssued(rows[..i])
      invariant |statuses| == i && forall j :: 0 <= j < i ==> statuses[j] == Stock(rows[j])
    {
      assert rows[..i + 1][..i] == rows[..i];
      var row := rows[i];
      statuses := statuses + [Stock(row)];
      count := count + 1;
      available := available + row.available;
      issued := issued + (row.total - row.available);
      i := i + 1;
    }
    assert rows[..i] == rows;
    CopiesSplit(rows);
  }

  /** The book rows for the ids `ids`, in that order. */
  function BooksAt(books: map<int, Book>, ids: seq<int>): (rows: seq<Book>)
    requires forall i :: 0 <= i < |ids| ==> ids[i] in books
    ensures |rows| == |ids| && forall i :: 0 <= i < |ids| ==> rows[i] == books[ids[i]]
  {
    if |ids| == 0 then []
    else BooksAt(books, ids[..|ids| - 1]) + [books[ids[|ids| - 1]]]
  }

  /** Ids of the open loans on any of the books `ids`. */
  function OpenLoansOn(loans: map<int, Loan>, ids: seq<int>): set<int> {
    set k | k in loans && loans[k].status == Borrowed && loans[k].book in ids
  }

  /** The open loans on a listing split into those on its last book and those
      on the books before it. */
  lemma OpenLoansSplit(loans: map<int, Loan>, ids: seq<int>)
    requires |ids| > 0
    ensures OpenLoansOn(loans, ids)
            == OpenLoansOn(loans, ids[..|ids| - 1]) + BorrowedLoans(loans, ids[|ids| - 1])
  {
    var front := ids[..|ids| - 1];
    forall k | k in OpenLoansOn(loans, ids)
      ensures k in OpenLoansOn(loans, front) + BorrowedLoans(loans, ids[|ids| - 1])
    {
      var i :| 0 <= i < |ids| && ids[i] == loans[k].book;
      if i < |ids| - 1 {
        assert front[i] == ids[i];
      }
    }
  }

  /** Each listed book's issued copies match the loans still open on it. */
  predicate IssuedMatchesLoans(books: map<int, Book>, loans: map<int, Loan>, b: int) {
    b in books && books[b].total - books[b].available == BorrowedOn(loans, b)
  }

  /** Summing issued copies over distinct books, each matching its open
      loans, counts the open loans on all of them. */
  lemma {:induction false} IssuedSum(books: map<int, Book>, loans: map<int, Loan>, ids: seq<int>)
    requires forall i :: 0 <= i < |ids| ==> ids[i] in books
    requires forall i :: 0 <= i < |ids| ==> IssuedMatchesLoans(books, loans, ids[i])
    requires forall i, j :: 0 <= i < j < |ids| ==> ids[i] != ids[j]
    ensures SumIssued(BooksAt(books, ids)) == |OpenLoansOn(loans, ids)|
  {
    if |ids| == 0 {
      assert OpenLoansOn(loans, ids) == {};
    } else {
      var front := ids[..|ids| - 1];
      var x := ids[|ids| - 1];
      assert IssuedMatchesLoans(books, loans, x);
      IssuedSum(books, loans, front);
      var rows := BooksAt(books, ids);
      assert rows[..|rows| - 1] == BooksAt(books, front);
      OpenLoansSplit(loans, ids);
      var a := OpenLoansOn(loans, front);
      var b := BorrowedLoans(loans, x);
      assert x !in front;
      assert a * b == {};
    }
  }

  /** Over any listing of distinct books of a consistent database, "Currently
      Issued" is the number of loans still open on them. */
  lemma IssuedCountsOpenLoans(s: Db, ids: seq<int>)
    requires Consistent(s)
    requires forall i :: 0 <= i < |ids| ==> ids[i] in s.books
    requires forall i, j :: 0 <= i < j < |ids| ==> ids[i] != ids[j]
    ensures SumIssued(BooksAt(s.books, ids)) == |OpenLoansOn(s.loans, ids)|
  {
    forall i | 0 <= i < |ids|
      ensures IssuedMatchesLoans(s.books, s.loans, ids[i])
    {
      assert CopiesAgree(s, ids[i]);
    }
    IssuedSum(s.books, s.loans, ids);
  }
}
