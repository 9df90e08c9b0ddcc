/** Any sequence of the librarian's commands, each applied at its own moment.
    A failed command leaves the database as it was. */
module History {
  import opened Outcomes
  import opened PyText
  import opened IdCodec
  import opened Calendar
  import opened LibraryDb
  import opened Catalog
  import opened Ledger

  datatype Command =
    | AddBookCmd(form: BookForm)
    | UpdateBookCmd(idText: string, form: BookForm)
    | RemoveBookCmd(id: int)
    | AddMemberCmd(member: MemberForm)
    | IssueCmd(memberText: string, bookText: string, durationText: string)
    | ReturnCmd(loanText: string)

  /** The database after `c`, run at `now`. */
  function Step(s: Db, c: Command, now: Instant): (s': Db)
    requires Sequenced(s)
    ensures Sequenced(s')
  {
    match c
    case AddBookCmd(form) =>
      (match AddBook(s, form) case Ok((t, _)) => t case Err(_) => s)
    case UpdateBookCmd(idText, form) =>
      (match UpdateBook(s, idText, form) case Ok(t) => t case Err(_) => s)
    case RemoveBookCmd(id) => RemoveBook(s, id)
    case AddMemberCmd(form) => AddMember(s, form, now.day).0
    case IssueCmd(m, b, d) =>
      (match Issue(s, m, b, d, now) case Ok((t, _)) => t case Err(_) => s)
    case ReturnCmd(t) =>
      (match Return(s, t, now) case Ok((u, _)) => u case Err(_) => s)
  }

  /** The database after every command of `trace` in order. */
  function Run(s: Db, trace: seq<(Command, Instant)>): (s': Db)
    requires Sequenced(s)
    ensures Sequenced(s')
    decreases |trace|
  {
    if |trace| == 0 then s else Run(Step(s, trace[0].0, trace[0].1), trace[1..])
  }

  /** An update whose copy count, for a book that exists, is the book's
      current total: editing the title or the publisher, say. */
  predicate UpdateKeepsTotal(s: Db, idText: string, form: BookForm) {
    var id := ParsePlainId(idText);
    var copies := ReadInt(form.copies);
    id.Some? && id.value in s.books && copies.Ok? ==> copies.value == s.books[id.value].total
  }

  /** `c` is no book update, or an update that keeps the total. */
  predicate KeepsTotals(s: Db, c: Command) {
    c.UpdateBookCmd? ==> UpdateKeepsTotal(s, c.idText, c.form)
  }

  /** Every command of `trace`, in the state it meets, keeps the totals. */
  predicate TotalsKeptAlong(s: Db, trace: seq<(Command, Instant)>)
    requires Sequenced(s)
    decreases |trace|
  {
    |trace| == 0
    || (KeepsTotals(s, trace[0].0) && TotalsKeptAlong(Step(s, trace[0].0, trace[0].1), trace[1..]))
  }

  /** An update that keeps the total keeps the copy counts in step; one for
      an unknown id changes nothing. */
  lemma UpdateStepConsistent(s: Db, idText: string, form: BookForm)
    requires Consistent(s) && UpdateKeepsTotal(s, idText, form)
    ensures UpdateBook(s, idText, form).Ok? ==> Consistent(UpdateBook(s, idText, form).value)
  {
    if UpdateBook(s, idText, form).Ok? {
      var id := ParsePlainId(idText).value;
      if id in s.books {
        UpdateConsistentIff(s, id, form, ReadYear(form.year).value, ReadInt(form.copies).value);
      }
    }
  }

  lemma IssueStepConsistent(s: Db, m: string, b: string, d: string, now: Instant)
    requires Consistent(s)
    ensures Issue(s, m, b, d, now).Ok? ==> Consistent(Issue(s, m, b, d, now).value.0)
  {
    if Issue(s, m, b, d, now).Ok? {
      IssueKeepsConsistent(s, ParseIssueId(m).value, ParseIssueId(b).value, PyInt(d).value, now);
    }
  }

  lemma ReturnStepConsistent(s: Db, t: string, now: Instant)
    requires Consistent(s)
    ensures Return(s, t, now).Ok? ==> Consistent(Return(s, t, now).value.0)
  {
    if Return(s, t, now).Ok? {
      ReturnKeepsConsistent(s, ParsePlainId(t).value, now);
    }
  }

  /** Every command that keeps the totals keeps the copy counts in step:
      only an update that rewrites a total can break them. */
  lemma StepKeepsConsistent(s: Db, c: Command, now: Instant)
    requires Consistent(s) && KeepsTotals(s, c)
    ensures Consistent(Step(s, c, now))
  {
    match c
    case AddBookCmd(form) =>
      if AddBook(s, form).Ok? {
        AddBookKeepsConsistent(s, form);
      }
    case UpdateBookCmd(idText, form) =>
      UpdateStepConsistent(s, idText, form);
    case RemoveBookCmd(id) =>
      RemoveBookKeepsConsistent(s, id);
    case AddMemberCmd(form) =>
      AddMemberKeepsConsistent(s, form, now.day);
    case IssueCmd(m, b, d) =>
      IssueStepConsistent(s, m, b, d, now);
    case ReturnCmd(t) =>
      ReturnStepConsistent(s, t, now);
  }

  /** From a consistent database, any run of commands whose book updates keep
      the totals keeps, for every book, `total - available` equal to its open
      loans. */
  lemma {:induction false} RunKeepsConsistent(s: Db, trace: seq<(Command, Instant)>)
    requires Consistent(s) && TotalsKeptAlong(s, trace)
    ensures Consistent(Run(s, trace))
    decreases |trace|
  {
    if |trace| > 0 {
      var (c, now) := trace[0];
      var rest := trace[1..];
      StepKeepsConsistent(s, c, now);
      var s1 := Step(s, c, now);
      assert Run(s, trace) == Run(s1, rest);
      RunKeepsConsistent(s1, rest);
    }
  }

  /** A run without any book update keeps the totals trivially. */
  lemma {:induction false} NoUpdatesKeepTotals(s: Db, trace: seq<(Command, Instant)>)
    requires Sequenced(s)
    requires forall i :: 0 <= i < |trace| ==> !trace[i].0.UpdateBookCmd?
    ensures TotalsKeptAlong(s, trace)
    decreases |trace|
  {
    if |trace| > 0 {
      assert forall i :: 0 <= i < |trace[1..]| ==> !trace[1..][i].0.UpdateBookCmd? by {
        forall i | 0 <= i < |trace[1..]|
          ensures !trace[1..][i].0.UpdateBookCmd?
        {
          assert trace[1..][i] == trace[i + 1];
        }
      }
      NoUpdatesKeepTotals(Step(s, trace[0].0, trace[0].1), trace[1..]);
    }
  }

  /** Every database the program can reach from empty tables, through
      commands whose book updates keep the totals, is consistent. */
  lemma ReachableConsistent(trace: seq<(Command, Instant)>)
    requires TotalsKeptAlong(Empty, trace)
    ensures Consistent(Run(Empty, trace))
  {
    EmptyConsistent();
    RunKeepsConsistent(Empty, trace);
  }

  /** Every command, book updates included, keeps ISBNs unique. */
  lemma StepKeepsIsbnUnique(s: Db, c: Command, now: Instant)
    requires Sequenced(s) && IsbnUnique(s.books)
    ensures IsbnUnique(Step(s, c, now).books)
  {
    match c
    case AddBookCmd(form) =>
      if AddBook(s, form).Ok? {
        AddBookKeepsIsbnUnique(s, form);
      }
    case UpdateBookCmd(idText, form) =>
      if UpdateBook(s, idText, form).Ok? {
        UpdateBookKeepsIsbnUnique(s, ParsePlainId(idText).value, form,
                                  ReadYear(form.year).value, ReadInt(form.copies).value);
      }
    case RemoveBookCmd(id) =>
    case AddMemberCmd(form) =>
    case IssueCmd(m, b, d) =>
      IssueKeepsIsbnUnique(s, m, b, d, now);
    case ReturnCmd(text) =>
      ReturnKeepsIsbnUnique(s, text, now);
  }

  lemma IssueKeepsIsbnUnique(s: Db, m: string, b: string, d: string, now: Instant)
    requires Sequenced(s) && IsbnUnique(s.books)
    ensures Issue(s, m, b, d, now).Ok? ==> IsbnUnique(Issue(s, m, b, d, now).value.0.books)
  {
    var r := Issue(s, m, b, d, now);
    if r.Ok? {
      ShiftKeepsIsbnUnique(s.books, r.value.0.books, ParseIssueId(b).value, -1);
    }
  }

  lemma ReturnKeepsIsbnUnique(s: Db, text: string, now: Instant)
    requires IsbnUnique(s.books)
    ensures Return(s, text, now).Ok? ==> IsbnUnique(Return(s, text, now).value.0.books)
  {
    var r := Return(s, text, now);
    if r.Ok? {
      var id := ParsePlainId(text).value;
      var book := s.loans[id].book;
      if book in s.books {
        ShiftKeepsIsbnUnique(s.books, r.value.0.books, book, 1);
      }
    }
  }

  lemma {:induction false} RunKeepsIsbnUnique(s: Db, trace: seq<(Command, Instant)>)
    requires Sequenced(s) && IsbnUnique(s.books)
    ensures IsbnUnique(Run(s, trace).books)
    decreases |trace|
  {
    if |trace| > 0 {
      StepKeepsIsbnUnique(s, trace[0].0, trace[0].1);
      RunKeepsIsbnUnique(Step(s, trace[0].0, trace[0].1), trace[1..]);
    }
  }
}
