/** The four tables the lending engine works on, as immutable maps keyed by
    their AUTOINCREMENT ids, together with the invariant that ties a book's
    copy counts to the loans open on it. */
module LibraryDb {
  import opened Outcomes
  import opened Calendar

  /** The range of a SQLite INTEGER; `sqlite3` refuses to bind a Python int
      outside it with `OverflowError`. */
  const MinSqlInt := -0x8000_0000_0000_0000
  const MaxSqlInt := 0x7FFF_FFFF_FFFF_FFFF

  predicate SqlInteger(n: int) {
    MinSqlInt <= n <= MaxSqlInt
  }

  /** Why a command changed nothing. */
  datatype Failure =
    | InvalidInput      // ValueError from `int()` or `parse_id`, shown as an input error
    | DateOverflow      // OverflowError from date arithmetic, not caught
    | IntegerOverflow   // OverflowError binding an over-wide int to SQL, not caught
    | BookUnavailable   // the book is missing or has no copy left
    | MemberNotFound
    | LoanNotFound      // "Transaction not found!"
    | AlreadyReturned
    | DuplicateIsbn     // UNIQUE(isbn) violated
    | DuplicateUsername // UNIQUE(username) violated

  /** A row of `books`. The optional text columns are stored as typed, so an
      empty field is the empty string; only the year may be NULL. */
  datatype Book = Book(
    title: string, author: string, isbn: string, publisher: string,
    year: Option<int>, category: string, total: int, available: int)

  /** A row of `members`; `joined` is `membership_date`. */
  datatype Member = Member(name: string, email: string, phone: string, address: string, joined: Ordinal)

  datatype LoanStatus = Borrowed | Returned

  /** A row of `transactions`: one copy of `book` lent to `member`. */
  datatype Loan = Loan(
    member: int, book: int, borrowed: Ordinal, due: Ordinal,
    returned: Option<Ordinal>, fine: int, status: LoanStatus)

  /** The database. `last*` is each table's `sqlite_sequence` entry: the
      largest id AUTOINCREMENT has handed out, which a deleted row does not
      give back. */
  datatype Db = Db(
    books: map<int, Book>, members: map<int, Member>, loans: map<int, Loan>,
    lastBook: int, lastMember: int, lastLoan: int)

  const Empty := Db(map[], map[], map[], 0, 0, 0)

  /** No key lies beyond its table's sequence, so `last + 1` is always fresh. */
  predicate Sequenced(s: Db) {
    && (forall k :: k in s.books ==> k <= s.lastBook)
    && (forall k :: k in s.members ==> k <= s.lastMember)
    && (forall k :: k in s.loans ==> k <= s.lastLoan)
  }

  /** Ids of the loans on `book` still out. */
  function BorrowedLoans(loans: map<int, Loan>, book: int): set<int> {
    set k | k in loans && loans[k].book == book && loans[k].status == Borrowed
  }

  function BorrowedOn(loans: map<int, Loan>, book: int): nat {
    |BorrowedLoans(loans, book)|
  }

  /** A loan carries a return date exactly when it is returned. */
  predicate LoanShape(l: Loan) {
    (l.status == Returned <==> l.returned.Some?) && l.fine >= 0
  }

  /** The copies of `b` not on the shelf are exactly its open loans; a book
      added with a non-negative count never goes below zero. */
  predicate CopiesAgree(s: Db, b: int)
    requires b in s.books
  {
    var book := s.books[b];
    && book.total - book.available == BorrowedOn(s.loans, b)
    && (0 <= book.total ==> 0 <= book.available)
  }

  /** The cross-table invariant of the lending engine. */
  predicate Consistent(s: Db) {
    && Sequenced(s)
    && (forall k :: k in s.loans ==> LoanShape(s.loans[k]) && s.loans[k].book <= s.lastBook)
    && (forall b :: b in s.books ==> CopiesAgree(s, b))
  }

  lemma EmptyConsistent()
    ensures Consistent(Empty)
  {
  }

  /** In a consistent database a book added with a non-negative count has
      between none and all of its copies on the shelf. */
  lemma ConsistentBounds(s: Db, b: int)
    requires Consistent(s) && b in s.books && s.books[b].total >= 0
    ensures 0 <= s.books[b].available <= s.books[b].total
  {
    assert CopiesAgree(s, b);
  }

  /** Distinct books have distinct ISBNs: the UNIQUE constraint on `isbn`. */
  predicate IsbnUnique(books: map<int, Book>) {
    forall a, b :: a in books && b in books && a != b ==> books[a].isbn != books[b].isbn
  }

  /** `after` differs from `before` only in the shelf count of `id`, by `delta`. */
  predicate AvailableShifted(before: map<int, Book>, after: map<int, Book>, id: int, delta: int) {
    && id in before
    && after.Keys == before.Keys
    && after[id] == before[id].(available := before[id].available + delta)
    && forall b :: b in before && b != id ==> after[b] == before[b]
  }

  /** Changing only a shelf count cannot make two ISBNs collide. */
  lemma ShiftKeepsIsbnUnique(before: map<int, Book>, after: map<int, Book>, id: int, delta: int)
    requires IsbnUnique(before) && AvailableShifted(before, after, id, delta)
    ensures IsbnUnique(after)
  {
    assert forall k :: k in after ==> after[k].isbn == before[k].isbn;
  }

  /** `after` is `before` with the single new loan `loan` under the fresh key `id`. */
  predicate LoanAdded(before: map<int, Loan>, after: map<int, Loan>, id: int, loan: Loan) {
    && id !in before
    && after.Keys == before.Keys + {id}
    && after[id] == loan
    && forall k :: k in before ==> after[k] == before[k]
  }

  /** `after` is `before` with the loan under `id` replaced by `loan`. */
  predicate LoanReplaced(before: map<int, Loan>, after: map<int, Loan>, id: int, loan: Loan) {
    && id in before
    && after.Keys == before.Keys
    && after[id] == loan
    && forall k :: k in before && k != id ==> after[k] == before[k]
  }

  /** A new open loan counts against its own book and no other. */
  lemma BorrowedAfterAdd(before: map<int, Loan>, after: map<int, Loan>, id: int, loan: Loan, b: int)
    requires LoanAdded(before, after, id, loan) && loan.status == Borrowed
    ensures BorrowedOn(after, b) == BorrowedOn(before, b) + (if b == loan.book then 1 else 0)
  {
    var extra := if b == loan.book then {id} else {};
    forall k
      ensures k in BorrowedLoans(after, b) <==> k in BorrowedLoans(before, b) + extra
    {
      if k in before {
        assert after[k] == before[k];
      }
    }
    assert BorrowedLoans(after, b) == BorrowedLoans(before, b) + extra;
    assert id !in BorrowedLoans(before, b);
  }

  /** Closing an open loan releases its own book and no other. */
  lemma BorrowedAfterClose(before: map<int, Loan>, after: map<int, Loan>, id: int, loan: Loan, b: int)
    requires LoanReplaced(before, after, id, loan)
    requires before[id].status == Borrowed && loan.status == Returned && loan.book == before[id].book
    ensures BorrowedOn(after, b) == BorrowedOn(before, b) - (if b == loan.book then 1 else 0)
  {
    var gone := if b == loan.book then {id} else {};
    forall k
      ensures k in BorrowedLoans(after, b) <==> k in BorrowedLoans(before, b) - gone
    {
      if k in before && k != id {
        assert after[k] == before[k];
      }
    }
    assert BorrowedLoans(after, b) == BorrowedLoans(before, b) - gone;
    assert gone <= BorrowedLoans(before, b);
  }
}
