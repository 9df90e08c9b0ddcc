/** Issuing and returning books: the two commands that move copies between
    the shelf and the members. Each either fails and changes nothing, or
    writes a loan row and shifts one book's shelf count, committed together. */
module Ledger {
  import opened Outcomes
  import opened PyText
  import opened IdCodec
  import opened Calendar
  import opened LibraryDb

  /** The late fee, one currency unit per whole day. */
  const DailyRate := 1

  /** The fine for returning at `now` a loan due on `due`: whole days past the
      due date's midnight, never negative. */
  function LateFine(now: Instant, due: Ordinal): (fine: int)
    ensures fine >= 0
    ensures fine == 0 <==> now.day <= due
    ensures fine > 0 ==> fine == (now.day - due) * DailyRate
  {
    Max(0, DaysSince(now, due) * DailyRate)
  }

  /** Returning later never costs less. */
  lemma FineMonotone(a: Instant, b: Instant, due: Ordinal)
    requires NotLater(a, b)
    ensures LateFine(a, due) <= LateFine(b, due)
  {
    NotLaterByDate(a, b);
  }

  /** The book exists and has a copy on the shelf. */
  predicate CanLend(s: Db, book: int) {
    book in s.books && s.books[book].available > 0
  }

  /** The open loan `issue` writes. */
  function NewLoan(member: int, book: int, now: Instant, due: Ordinal): Loan {
    Loan(member, book, now.day, due, None, 0, Borrowed)
  }

  /** The checks and writes of the issue window once the member id, book id
      and duration have been read: the due date is computed first, then the
      book is looked up, then the member. On success the result holds the
      new database and the new transaction id. */
  function IssueLoan(s: Db, member: int, book: int, days: int, now: Instant): (r: Result<(Db, int), Failure>)
    requires Sequenced(s)
    ensures ShiftDays(now, days).None? ==> r == Err(DateOverflow)
    ensures ShiftDays(now, days).Some? && !SqlInteger(book) ==> r == Err(IntegerOverflow)
    ensures ShiftDays(now, days).Some? && SqlInteger(book) && !CanLend(s, book) ==> r == Err(BookUnavailable)
    ensures ShiftDays(now, days).Some? && CanLend(s, book) && !SqlInteger(member) ==> r == Err(IntegerOverflow)
    ensures (ShiftDays(now, days).Some? && SqlInteger(book) && CanLend(s, book) && SqlInteger(member) && member !in s.members)
            ==> r == Err(MemberNotFound)
    ensures r.Ok? <==> ShiftDays(now, days).Some? && SqlInteger(book) && CanLend(s, book) && SqlInteger(member) && member in s.members
    ensures r.Ok? ==>
      var (s', id) := r.value;
      && id == s.lastLoan + 1 == s'.lastLoan
      && LoanAdded(s.loans, s'.loans, id, NewLoan(member, book, now, now.day + days))
      && AvailableShifted(s.books, s'.books, book, -1)
      && s'.members == s.members && s'.lastBook == s.lastBook && s'.lastMember == s.lastMember
      && Sequenced(s')
  {
    match ShiftDays(now, days)
    case None => Err(DateOverflow)
    case Some(due) =>
      if !SqlInteger(book) then Err(IntegerOverflow)
      else if !CanLend(s, book) then Err(BookUnavailable)
      else if !SqlInteger(member) then Err(IntegerOverflow)
      else if member !in s.members then Err(MemberNotFound)
      else
        var id := s.lastLoan + 1;
        var copy := s.books[book];
        Ok((s.(loans := s.loans[id := NewLoan(member, book, now, due)],
               books := s.books[book := copy.(available := copy.available - 1)],
               lastLoan := id), id))
  }

  /** `borrow_book_window.process`: the duration is read with `int()` and the
      due date computed before either id is parsed; both ids go through the
      issue window's `parse_id`, so a `mem` prefix is accepted on a book id. */
  function Issue(s: Db, memberText: string, bookText: string, durationText: string, now: Instant)
    : (r: Result<(Db, int), Failure>)
    requires Sequenced(s)
    ensures PyInt(durationText).None? ==> r == Err(InvalidInput)
    ensures PyInt(durationText).Some? && ShiftDays(now, PyInt(durationText).value).None? ==> r == Err(DateOverflow)
    ensures (&& PyInt(durationText).Some? && ShiftDays(now, PyInt(durationText).value).Some?
             && (ParseIssueId(memberText).None? || ParseIssueId(bookText).None?)) ==> r == Err(InvalidInput)
    ensures (PyInt(durationText).Some? && ParseIssueId(memberText).Some? && ParseIssueId(bookText).Some?)
            ==> r == IssueLoan(s, ParseIssueId(memberText).value, ParseIssueId(bookText).value, PyInt(durationText).value, now)
  {
    match PyInt(durationText)
    case None => Err(InvalidInput)
    case Some(days) =>
      if ShiftDays(now, days).None? then Err(DateOverflow)
      else match (ParseIssueId(memberText), ParseIssueId(bookText))
        case (Some(member), Some(book)) => IssueLoan(s, member, book, days, now)
        case _ => Err(InvalidInput)
  }

  /** The checks and writes of the return window once the transaction id has
      been read. On success the result holds the new database and the closed
      loan, whose fine the window shows. If the book row has since been
      deleted, the shelf update matches no row and the loan is still closed. */
  function ReturnLoan(s: Db, id: int, now: Instant): (r: Result<(Db, Loan), Failure>)
    ensures !SqlInteger(id) ==> r == Err(IntegerOverflow)
    ensures SqlInteger(id) && id !in s.loans ==> r == Err(LoanNotFound)
    ensures SqlInteger(id) && id in s.loans && s.loans[id].status == Returned ==> r == Err(AlreadyReturned)
    ensures r.Ok? <==> SqlInteger(id) && id in s.loans && s.loans[id].status == Borrowed
    ensures r.Ok? ==>
      var (s', closed) := r.value;
      var open := s.loans[id];
      && closed == open.(status := Returned, returned := Some(now.day), fine := LateFine(now, open.due))
      && LoanReplaced(s.loans, s'.loans, id, closed)
      && (open.book in s.books ==> AvailableShifted(s.books, s'.books, open.book, 1))
      && (open.book !in s.books ==> s'.books == s.books)
      && s'.members == s.members
      && s'.lastBook == s.lastBook && s'.lastMember == s.lastMember && s'.lastLoan == s.lastLoan
  {
    if !SqlInteger(id) then Err(IntegerOverflow)
    else if id !in s.loans then Err(LoanNotFound)
    else
      var open := s.loans[id];
      if open.status.Returned? then Err(AlreadyReturned)
      else
        assert open.status == Borrowed;
        var closed := open.(status := Returned, returned := Some(now.day), fine := LateFine(now, open.due));
        var books :=
          if open.book in s.books
          then s.books[open.book := s.books[open.book].(available := s.books[open.book].available + 1)]
          else s.books;
        Ok((s.(loans := s.loans[id := closed], books := books), closed))
  }

  /** `return_book_window.process`: the typed id goes through the plain
      `parse_id`. */
  function Return(s: Db, idText: string, now: Instant): (r: Result<(Db, Loan), Failure>)
    ensures ParsePlainId(idText).None? ==> r == Err(InvalidInput)
    ensures ParsePlainId(idText).Some? ==> r == ReturnLoan(s, ParsePlainId(idText).value, now)
  {
    match ParsePlainId(idText)
    case None => Err(InvalidInput)
    case Some(id) => ReturnLoan(s, id, now)
  }

  /** A successful issue keeps the copy counts in step with the open loans. */
  lemma IssueKeepsConsistent(s: Db, member: int, book: int, days: int, now: Instant)
    requires Consistent(s) && IssueLoan(s, member, book, days, now).Ok?
    ensures Consistent(IssueLoan(s, member, book, days, now).value.0)
  {
    var (s', id) := IssueLoan(s, member, book, days, now).value;
    var loan := NewLoan(member, book, now, now.day + days);
    forall b | b in s'.books
      ensures CopiesAgree(s', b)
    {
      BorrowedAfterAdd(s.loans, s'.loans, id, loan, b);
      assert CopiesAgree(s, b);
    }
  }

  /** A successful return keeps the copy counts in step with the open loans. */
  lemma ReturnKeepsConsistent(s: Db, id: int, now: Instant)
    requires Consistent(s) && ReturnLoan(s, id, now).Ok?
    ensures Consistent(ReturnLoan(s, id, now).value.0)
  {
    var (s', closed) := ReturnLoan(s, id, now).value;
    forall b | b in s'.books
      ensures CopiesAgree(s', b)
    {
      BorrowedAfterClose(s.loans, s'.loans, id, closed, b);
      assert CopiesAgree(s, b);
    }
  }

  /** A loan is closed at most once: returning it again fails and so cannot
      put a second copy back on the shelf or charge a second fine. */
  lemma ReturnOnce(s: Db, id: int, now: Instant, later: Instant)
    requires ReturnLoan(s, id, now).Ok?
    ensures ReturnLoan(ReturnLoan(s, id, now).value.0, id, later) == Err(AlreadyReturned)
  {
  }

  /** Issuing the last copy on the shelf leaves nothing for the next request. */
  lemma LastCopy(s: Db, member: int, book: int, days: int, now: Instant,
                 member2: int, days2: int, now2: Instant)
    requires Sequenced(s) && book in s.books && s.books[book].available == 1 && IssueLoan(s, member, book, days, now).Ok?
    requires ShiftDays(now2, days2).Some?
    ensures IssueLoan(IssueLoan(s, member, book, days, now).value.0, member2, book, days2, now2) == Err(BookUnavailable)
  {
  }

  /** The fine charged when a loan issued for `days` days is returned: every
      whole day past its due date, counted from the day it was issued. */
  lemma IssueThenReturnFine(s: Db, member: int, book: int, days: int, now: Instant, later: Instant)
    requires Sequenced(s) && 0 <= s.lastLoan < MaxSqlInt && IssueLoan(s, member, book, days, now).Ok?
    ensures
      var (s', id) := IssueLoan(s, member, book, days, now).value;
      && ReturnLoan(s', id, later).Ok?
      && ReturnLoan(s', id, later).value.1.fine == Max(0, later.day - now.day - days)
      && ReturnLoan(s', id, later).value.0.books[book].available == s.books[book].available
  {
  }
}
