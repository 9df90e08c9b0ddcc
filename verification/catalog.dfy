/** The catalogue commands that touch copy counts or keys: adding, updating
    and removing a book, and registering a member. */
module Catalog {
  import opened Outcomes
  import opened PyText
  import opened IdCodec
  import opened Calendar
  import opened LibraryDb

  /** The book form as typed: every field is text. */
  datatype BookForm = BookForm(
    title: string, author: string, isbn: string, publisher: string,
    year: string, category: string, copies: string)

  /** The member form as typed. */
  datatype MemberForm = MemberForm(name: string, email: string, phone: string, address: string)

  /** `int(text) if text else None`: an empty year is NULL. */
  function ReadYear(text: string): (r: Result<Option<int>, Failure>)
    ensures text == [] ==> r == Ok(None)
    ensures text != [] ==> (r.Ok? <==> PyInt(text).Some?)
    ensures text != [] && r.Ok? ==> r.value == Some(PyInt(text).value)
    ensures r.Err? ==> r.error == InvalidInput
  {
    if text == [] then Ok(None)
    else match PyInt(text)
      case None => Err(InvalidInput)
      case Some(y) => Ok(Some(y))
  }

  /** `int(text) if text else default`. Only an empty field takes the
      default: a field of blanks is handed to `int()` and refused. */
  function ReadCount(text: string, default: int): (r: Result<int, Failure>)
    ensures text == [] ==> r == Ok(default)
    ensures text != [] ==> (r.Ok? <==> PyInt(text).Some?)
    ensures text != [] && r.Ok? ==> r.value == PyInt(text).value
    ensures r.Err? ==> r.error == InvalidInput
  {
    if text == [] then Ok(default)
    else match PyInt(text)
      case None => Err(InvalidInput)
      case Some(n) => Ok(n)
  }

  /** A copies field of blanks is not empty, so it gets no default: `int()`
      refuses it and the form reports an input error. */
  lemma BlankCopiesRefused(text: string, default: int)
    requires text != [] && forall i :: 0 <= i < |text| ==> IsSpace(text[i])
    ensures ReadCount(text, default) == Err(InvalidInput)
  {
    PyIntBlank(text);
  }

  /** `int(text)` with no default. */
  function ReadInt(text: string): (r: Result<int, Failure>)
    ensures r.Ok? <==> PyInt(text).Some?
    ensures r.Ok? ==> r.value == PyInt(text).value
    ensures r.Err? ==> r.error == InvalidInput
  {
    match PyInt(text)
    case None => Err(InvalidInput)
    case Some(n) => Ok(n)
  }

  predicate YearBindable(year: Option<int>) {
    year.None? || SqlInteger(year.value)
  }

  /** Some book already has this ISBN. */
  predicate IsbnInUse(books: map<int, Book>, isbn: string) {
    exists k :: k in books && books[k].isbn == isbn
  }

  /** Some book other than `self` already has this ISBN. */
  predicate IsbnUsedElsewhere(books: map<int, Book>, isbn: string, self: int) {
    exists k :: k in books && k != self && books[k].isbn == isbn
  }

  /** The book the add form describes, with every copy on the shelf. */
  function FormBook(form: BookForm, year: Option<int>, total: int, available: int): Book {
    Book(form.title, form.author, form.isbn, form.publisher, year, form.category, total, available)
  }

  /** `add_book_window.save`: the year and copy count are read (copies default
      to 1), the row is inserted with `available = total = copies`, and a
      duplicate ISBN is refused. On success the result holds the new book id. */
  function AddBook(s: Db, form: BookForm): (r: Result<(Db, int), Failure>)
    requires Sequenced(s)
    ensures ReadYear(form.year).Err? || ReadCount(form.copies, 1).Err? ==> r == Err(InvalidInput)
    ensures r == Err(DuplicateIsbn) <==>
      && ReadYear(form.year).Ok? && ReadCount(form.copies, 1).Ok?
      && YearBindable(ReadYear(form.year).value) && SqlInteger(ReadCount(form.copies, 1).value)
      && IsbnInUse(s.books, form.isbn)
    ensures r.Ok? <==>
      && ReadYear(form.year).Ok? && ReadCount(form.copies, 1).Ok?
      && YearBindable(ReadYear(form.year).value) && SqlInteger(ReadCount(form.copies, 1).value)
      && !IsbnInUse(s.books, form.isbn)
    ensures r.Ok? ==>
      var (s', id) := r.value;
      var copies := ReadCount(form.copies, 1).value;
      && id == s.lastBook + 1 == s'.lastBook && id !in s.books
      && s'.books.Keys == s.books.Keys + {id}
      && (forall b :: b in s.books ==> s'.books[b] == s.books[b])
      && s'.books[id] == FormBook(form, ReadYear(form.year).value, copies, copies)
      && !IsbnInUse(s.books, form.isbn)
      && s'.loans == s.loans && s'.members == s.members
      && s'.lastLoan == s.lastLoan && s'.lastMember == s.lastMember
      && Sequenced(s')
  {
    var year :- ReadYear(form.year);
    var copies :- ReadCount(form.copies, 1);
    if !YearBindable(year) || !SqlInteger(copies) then Err(IntegerOverflow)
    else if IsbnInUse(s.books, form.isbn) then Err(DuplicateIsbn)
    else
      var id := s.lastBook + 1;
      Ok((s.(books := s.books[id := FormBook(form, year, copies, copies)], lastBook := id), id))
  }

  /** The statement of `update_book_window.update` once the id, year and
      copy count have been read: every descriptive column and `total_copies`
      are rewritten but `available_copies` is left alone. An id that matches
      no row changes nothing and is still reported as a success. */
  function UpdateBookRow(s: Db, id: int, form: BookForm, year: Option<int>, copies: int): (r: Result<Db, Failure>)
    ensures !YearBindable(year) || !SqlInteger(copies) || !SqlInteger(id) ==> r == Err(IntegerOverflow)
    ensures r.Ok? <==>
      YearBindable(year) && SqlInteger(copies) && SqlInteger(id) && (id in s.books ==> !IsbnUsedElsewhere(s.books, form.isbn, id))
    ensures r.Ok? && id !in s.books ==> r.value == s
    ensures r == Err(DuplicateIsbn) <==>
      YearBindable(year) && SqlInteger(copies) && SqlInteger(id) && id in s.books && IsbnUsedElsewhere(s.books, form.isbn, id)
    ensures r.Ok? && id in s.books ==>
      var s' := r.value;
      && s'.books.Keys == s.books.Keys
      && (forall b :: b in s.books && b != id ==> s'.books[b] == s.books[b])
      && s'.books[id] == FormBook(form, year, copies, s.books[id].available)
      && !IsbnUsedElsewhere(s.books, form.isbn, id)
      && s'.loans == s.loans && s'.members == s.members
      && s'.lastBook == s.lastBook && s'.lastLoan == s.lastLoan && s'.lastMember == s.lastMember
  {
    if !YearBindable(year) || !SqlInteger(copies) || !SqlInteger(id) then Err(IntegerOverflow)
    else if id !in s.books then Ok(s)
    else if IsbnUsedElsewhere(s.books, form.isbn, id) then Err(DuplicateIsbn)
    else Ok(s.(books := s.books[id := FormBook(form, year, copies, s.books[id].available)]))
  }

  /** `update_book_window.update`: the id goes through the plain `parse_id`,
      the year is optional and the copy count is required (no default). */
  function UpdateBook(s: Db, idText: string, form: BookForm): (r: Result<Db, Failure>)
    ensures ParsePlainId(idText).None? || ReadYear(form.year).Err? || ReadInt(form.copies).Err?
            ==> r == Err(InvalidInput)
    ensures ParsePlainId(idText).Some? && ReadYear(form.year).Ok? && ReadInt(form.copies).Ok? ==>
            r == UpdateBookRow(s, ParsePlainId(idText).value, form, ReadYear(form.year).value, ReadInt(form.copies).value)
  {
    var id :- ParsePlainId(idText).ToResult(InvalidInput);
    var year :- ReadYear(form.year);
    var copies :- ReadInt(form.copies);
    UpdateBookRow(s, id, form, year, copies)
  }

  /** `remove_book_window.remove`: the selected row is deleted. Foreign keys
      are never switched on, so the delete goes through even while loans
      still name the book. */
  function RemoveBook(s: Db, id: int): (s': Db)
    ensures s'.books.Keys == s.books.Keys - {id}
    ensures forall b :: b in s'.books ==> s'.books[b] == s.books[b]
    ensures s'.loans == s.loans && s'.members == s.members
    ensures s'.lastBook == s.lastBook && s'.lastLoan == s.lastLoan && s'.lastMember == s.lastMember
  {
    s.(books := s.books - {id})
  }

  /** `add_member_window.save`: always inserts, stamped with today's date. On
      success the result holds the new member id. */
  function AddMember(s: Db, form: MemberForm, today: Ordinal): (r: (Db, int))
    requires Sequenced(s)
    ensures
      var (s', id) := r;
      && id == s.lastMember + 1 == s'.lastMember && id !in s.members
      && s'.members.Keys == s.members.Keys + {id}
      && (forall m :: m in s.members ==> s'.members[m] == s.members[m])
      && s'.members[id] == Member(form.name, form.email, form.phone, form.address, today)
      && s'.books == s.books && s'.loans == s.loans
      && s'.lastBook == s.lastBook && s'.lastLoan == s.lastLoan
      && Sequenced(s')
  {
    var id := s.lastMember + 1;
    (s.(members := s.members[id := Member(form.name, form.email, form.phone, form.address, today)], lastMember := id), id)
  }

  /** A new book starts with no copy out, so it agrees with the loans: no
      loan can name an id the sequence has not reached. */
  lemma AddBookKeepsConsistent(s: Db, form: BookForm)
    requires Consistent(s) && AddBook(s, form).Ok?
    ensures Consistent(AddBook(s, form).value.0)
  {
    var (s', id) := AddBook(s, form).value;
    forall k | k in s.loans
      ensures s.loans[k].book != id
    {
    }
    assert BorrowedLoans(s.loans, id) == {};
    forall b | b in s'.books
      ensures CopiesAgree(s', b)
    {
      if b != id {
        assert CopiesAgree(s, b);
      }
    }
  }

  /** Adding and updating never give two books the same ISBN. */
  lemma AddBookKeepsIsbnUnique(s: Db, form: BookForm)
    requires IsbnUnique(s.books) && Sequenced(s) && AddBook(s, form).Ok?
    ensures IsbnUnique(AddBook(s, form).value.0.books)
  {
  }

  lemma UpdateBookKeepsIsbnUnique(s: Db, id: int, form: BookForm, year: Option<int>, copies: int)
    requires IsbnUnique(s.books) && UpdateBookRow(s, id, form, year, copies).Ok?
    ensures IsbnUnique(UpdateBookRow(s, id, form, year, copies).value.books)
  {
  }

  /** Updating a book keeps the copy counts in step exactly when the new
      total is the old one: the shelf count is not adjusted. */
  lemma UpdateConsistentIff(s: Db, id: int, form: BookForm, year: Option<int>, copies: int)
    requires Consistent(s) && id in s.books && UpdateBookRow(s, id, form, year, copies).Ok?
    ensures Consistent(UpdateBookRow(s, id, form, year, copies).value) <==> copies == s.books[id].total
  {
    var s' := UpdateBookRow(s, id, form, year, copies).value;
    assert CopiesAgree(s, id);
    if copies == s.books[id].total {
      forall b | b in s'.books
        ensures CopiesAgree(s', b)
      {
        assert CopiesAgree(s, b);
      }
    } else {
      assert !CopiesAgree(s', id);
    }
  }

  /** Deleting a book leaves the remaining books in step with their loans. */
  lemma RemoveBookKeepsConsistent(s: Db, id: int)
    requires Consistent(s)
    ensures Consistent(RemoveBook(s, id))
  {
    var s' := RemoveBook(s, id);
    forall b | b in s'.books
      ensures CopiesAgree(s', b)
    {
      assert CopiesAgree(s, b);
    }
  }

  lemma AddMemberKeepsConsistent(s: Db, form: MemberForm, today: Ordinal)
    requires Consistent(s)
    ensures Consistent(AddMember(s, form, today).0)
  {
    var s' := AddMember(s, form, today).0;
    forall b | b in s'.books
      ensures CopiesAgree(s', b)
    {
      assert CopiesAgree(s, b);
    }
  }
}
