# ILMS lending engine in Dafny

A model of the lending engine of the Integrated Library Management System, a
Tkinter desktop application over SQLite. The engine is lifted out of its
window callbacks into pure functions over an immutable database value:
maps from AUTOINCREMENT ids to `Book`, `Member` and `Loan` (transaction)
rows, plus each table's sequence counter. Calendar dates are proleptic day
ordinals and "now" is a day plus microseconds since midnight. A command
either fails and yields no new database, or yields the database after all of
its writes, which the application commits together.

Modules, one per component:

- `Outcomes`: `Option`/`Result` wrappers.
- `PyText`: the Python primitives the code leans on: `strip`, `lstrip`,
  `zfill`, `str(n)`, and `int()` as a partial function.
- `IdCodec`: `format_id`, `format_member_id` and the three `parse_id` helpers.
- `Calendar`: dates, instants, `timedelta` day counts, date overflow.
- `LibraryDb`: the tables, the failures, and the invariant `Consistent`. For
  every book, `total - available` equals the number of its borrowed loans.
  A book added with a non-negative count never goes below zero.
- `Catalog`: add, update and remove a book, and register a member.
- `Ledger`: issue and return, with the fine.
- `Reporting`: loan classification and book stock labels, and the summary loops.
- `Credentials`: librarian registration and login, with the digest as a parameter.
- `History`: arbitrary command sequences and the invariants they keep.

Behaviour of the code worth knowing, which the model keeps:

- Issue accepts any integer duration, including zero and negative ones.
- A missing book and a book with no copy left are one failure, `BookUnavailable`.
- Removing a book always deletes it. The schema declares foreign keys, but
  SQLite enforcement is never switched on.
- Updating an unknown book id changes nothing and still reports success.
- Add book stores whatever `int()` returns for the copy count, zero and
  negative counts included.
- The plain `parse_id` rejects an all-zero id such as `0000`, because
  `lstrip('0')` leaves an empty string for `int()`.
- `int()` skips less whitespace than `str.strip()`: the ASCII separators
  U+001C..U+001F are stripped by the blank test but refused by `int()`.
  So the plain `parse_id` refuses one at either end. The issue window
  strips the text before `int()` sees it, so there only a separator inside
  the text is refused.
  Interpreters that enforce the integer string conversion limit (CPython
  3.11, and the 3.7.14, 3.8.14, 3.9.14 and 3.10.7 security releases and
  later) also make `int()` refuse more than 4300 digits, leading zeros
  included. So a member id padded past that length is refused, and the
  round-trip lemmas are stated up to that length.
- A loan shows as overdue by 0 days on its due day after midnight. Returning
  it then costs nothing.
- Update book rewrites `total_copies` without touching `available_copies`.
  So it breaks the copy invariant unless the total is unchanged
  (`Catalog.UpdateConsistentIff`).
- Errors the code does not catch, such as `OverflowError` from date
  arithmetic or from binding an integer wider than 64 bits, and the
  `IntegrityError` of an update onto a taken ISBN, abort the command before
  any write. They are modelled as failures that change nothing.

## Model

| member | source | states |
|---|---|---|
| `PyText.PyInt` | Implementation/ILMS.py:972-974 | Python's `int()` in base 10; its meaning is carried by `PyText.PyIntDigits`, `PyText.PyIntTooLong`, `PyText.PyIntBlank`, `PyText.PyIntForeign` and `PyText.SeparatorNotIntSpace` |
| `PyText.PyIntDigits` | Implementation/ILMS.py:974 | `int()` reads any run of 1 to 4300 ASCII digits as their value, leading zeros included |
| `PyText.PyIntTooLong` | Implementation/ILMS.py:972 | more than 4300 digits make `int()` raise |
| `PyText.PyIntBlank` | Implementation/ILMS.py:397 | text made only of whitespace makes `int()` raise |
| `PyText.PyIntForeign` | Implementation/ILMS.py:974 | a character that is not `int()`'s whitespace, a digit, a sign or `_` makes `int()` raise |
| `PyText.SeparatorNotIntSpace` | Implementation/ILMS.py:1037 | U+001C is removed by `strip()` but makes `int()` raise |
| `PyText.ZFill` | Implementation/ILMS.py:92 | `zfill` pads with zeros up to the width, keeps the whole string as the suffix, and never truncates |
| `IdCodec.FormatId` | Implementation/ILMS.py:90-92 | the prefix, then zero padding, then all the decimal digits of the id; length is prefix plus max(width, digit count) |
| `IdCodec.FormatMemberId` | Implementation/ILMS.py:94-96 | member ids are `format_id` with prefix `mem` and width 3 |
| `IdCodec.ParsePlainId` | Implementation/ILMS.py:1035-1037 | the `parse_id` of the update window (lines 456-458) and the return window; its meaning is carried by the round-trip and rejection lemmas below |
| `IdCodec.ParseIssueId` | Implementation/ILMS.py:967-974 | the `parse_id` of the issue window; its meaning is carried by `PlainRoundTrip`, `MemberRoundTrip`, `MemTooLong`, `BlankIsZero`, `BareMemIsZero`, `IssueUnprefixed`, `IssueRejectsForeign`, `IssueStripsSeparator`, `IssueRejectsSeparator` and `MemRejectsForeign` below |
| `IdCodec.PlainRoundTrip` | Implementation/ILMS.py:456-458 | for every id >= 1 of at most 4300 digits and any width, both parsers read the formatted id back to the id |
| `IdCodec.BookIdRoundTrip` | Implementation/ILMS.py:1035-1037 | a book or transaction id as `format_id` displays it is read back by the plain parser |
| `IdCodec.PlainZeroFails` | Implementation/ILMS.py:456-458 | the formatted id 0 (all zeros) makes the plain parser raise |
| `IdCodec.ZerosPlainFail` | Implementation/ILMS.py:458 | any non-empty run of zeros makes the plain parser raise |
| `IdCodec.MemRoundTrip` | Implementation/ILMS.py:967-974 | the issue parser reads `mem` plus zero-padded digits back to the number, for any case of `mem` and for 0 too, while the padded digits number at most 4300 |
| `IdCodec.MemTooLong` | Implementation/ILMS.py:971-972 | padded past 4300 digits, a `mem` id is refused however small the number |
| `IdCodec.MemberRoundTrip` | Implementation/ILMS.py:971-972 | the issue parser inverts `format_member_id` for every id of at most 4300 digits |
| `IdCodec.BlankIsZero` | Implementation/ILMS.py:1035-1037 | whitespace-only input parses to 0 in every parser variant |
| `IdCodec.BareMemIsZero` | Implementation/ILMS.py:971-972 | a bare `mem` in any case, with any surrounding blanks, parses to 0 |
| `IdCodec.PlainRejectsForeign` | Implementation/ILMS.py:456-458 | in any non-blank text, a character other than `int()`'s whitespace, a digit, a sign or `_` makes the plain parser raise; the separators U+001C..U+001F count as such characters |
| `IdCodec.PlainRejectsSeparator` | Implementation/ILMS.py:1037 | the plain parser refuses `"\x1c1"`: the blank test strips the separator, `int()` does not |
| `IdCodec.IssueRejectsForeign` | Implementation/ILMS.py:967-974 | after `strip()`, with no `mem` prefix, a character of the stripped text other than `int()`'s whitespace, a digit, a sign or `_` makes the issue parser raise; a separator inside the text counts, a leading or trailing one is stripped first |
| `IdCodec.IssueUnprefixed` | Implementation/ILMS.py:969-974 | without a `mem` prefix, non-blank text is read as `int()` of the stripped text after `lstrip('0')` |
| `IdCodec.IssueStripsSeparator` | Implementation/ILMS.py:969-974 | a leading U+001C is stripped before `int()` sees it, so the issue parser reads `"\x1c1"` as 1 where the plain parser refuses it |
| `IdCodec.IssueRejectsSeparator` | Implementation/ILMS.py:969-974 | a separator inside the text survives `strip()`, so the issue parser refuses `"1\x1c2"` |
| `IdCodec.MemRejectsForeign` | Implementation/ILMS.py:971-972 | after a `mem` prefix of any case, a character other than `int()`'s whitespace, a digit, a sign or `_` in the remainder makes the issue parser raise |
| `Calendar.DaysSince` | Implementation/ILMS.py:1052-1053 | `(now - midnight(d)).days` is the difference of calendar days; a part day counts as nothing |
| `LibraryDb.ConsistentBounds` | Implementation/ILMS.py:85 | in a consistent database, a book with a non-negative total has 0 <= available <= total |
| `Ledger.LateFine` | Implementation/ILMS.py:1052-1054 | the fine is never negative; it is 0 exactly when returned on or before the due day, else the days late times the rate |
| `Ledger.FineMonotone` | Implementation/ILMS.py:1052-1054 | the fine never decreases with the return time |
| `Ledger.IssueLoan` | Implementation/ILMS.py:976-1003 | failure order: date overflow, book missing or no copies, member missing; success adds exactly one borrowed loan under a fresh id (borrow today, due today + days, no return, fine 0) and lowers only that book's shelf count, by 1 |
| `Ledger.Issue` | Implementation/ILMS.py:976-1008 | a duration or id that `int()` rejects is an input error; otherwise the parsed ids and duration go to the issue checks |
| `Ledger.ReturnLoan` | Implementation/ILMS.py:1039-1068 | unknown id and already-returned loans fail; success closes only that loan (returned today, fine set) and raises only its book's shelf count, by 1, if the book row still exists |
| `Ledger.Return` | Implementation/ILMS.py:1035-1070 | an unreadable transaction id is an input error; otherwise the parsed id goes to the return checks |
| `Ledger.IssueKeepsConsistent` | Implementation/ILMS.py:1000-1002 | a successful issue preserves the copy invariant |
| `Ledger.ReturnKeepsConsistent` | Implementation/ILMS.py:1056-1058 | a successful return preserves the copy invariant |
| `Ledger.ReturnOnce` | Implementation/ILMS.py:1046-1049 | after a successful return, returning the same loan again fails with `AlreadyReturned` |
| `Ledger.LastCopy` | Implementation/ILMS.py:986-991 | once the last shelf copy is issued, the next issue of that book, for any member and any duration giving a valid date, fails with `BookUnavailable` |
| `Ledger.IssueThenReturnFine` | Implementation/ILMS.py:1052-1058 | issue then return charges max(0, return day - issue day - duration) and restores the shelf count |
| `Catalog.BlankCopiesRefused` | Implementation/ILMS.py:397 | a copies field of blanks gets no default: it is an input error |
| `Catalog.AddBook` | Implementation/ILMS.py:394-410 | bad numbers are input errors; an ISBN already present is refused; it succeeds exactly when both numbers read and bind and the ISBN is free, adding one book under a fresh id with available = total = copies |
| `Catalog.UpdateBookRow` | Implementation/ILMS.py:491-495 | succeeds exactly when the numbers bind and, for an existing book, no other book has the ISBN; an unknown id changes nothing but succeeds; otherwise only that book changes, with the new total and the old shelf count |
| `Catalog.UpdateBook` | Implementation/ILMS.py:485-500 | an unreadable id, year or copy count is an input error, with no default for the copies |
| `Catalog.RemoveBook` | Implementation/ILMS.py:557-559 | the book is deleted whatever loans name it; nothing else changes |
| `Catalog.AddMember` | Implementation/ILMS.py:834-839 | adds exactly one member under a fresh id, joined today |
| `Catalog.AddBookKeepsConsistent` | Implementation/ILMS.py:399-403 | a new book starts with no copies out, so the copy invariant still holds |
| `Catalog.UpdateConsistentIff` | Implementation/ILMS.py:491-495 | after an update of an existing book the copy invariant holds iff the new total equals the old one |
| `Catalog.AddBookKeepsIsbnUnique` | Implementation/ILMS.py:399-410 | adding a book never creates a duplicate ISBN |
| `Catalog.UpdateBookKeepsIsbnUnique` | Implementation/ILMS.py:491-495 | updating a book never creates a duplicate ISBN |
| `Catalog.RemoveBookKeepsConsistent` | Implementation/ILMS.py:557-559 | deleting a book keeps the invariant for the remaining books |
| `Catalog.AddMemberKeepsConsistent` | Implementation/ILMS.py:834-838 | registering a member keeps the copy invariant |
| `Reporting.Classify` | Implementation/ILMS.py:1188-1207 | a row with a return date is closed with return day - issue day; otherwise it is overdue iff now is past the due day's midnight, with today - due days, and active otherwise |
| `Reporting.ClassifyAgreesWithFine` | Implementation/ILMS.py:1193-1197 | for an open loan, the overdue days shown equal the fine a return now would charge (0 when active) |
| `Reporting.DueDayOverdueButFree` | Implementation/ILMS.py:1195-1197 | on the due day after midnight an open loan shows "overdue 0 days" while its fine is 0 |
| `Reporting.OpenSplits` | Implementation/ILMS.py:1193-1201 | active + overdue equals the number of rows without a return date |
| `Reporting.FinesNonNegative` | Implementation/ILMS.py:1218 | the fine total is never negative |
| `Reporting.SummariseLoans` | Implementation/ILMS.py:1172-1218 | counts every row; active and overdue counts partition the open rows; fines are summed; each row gets its classification |
| `Reporting.Stock` | Implementation/ILMS.py:721-727 | out of stock iff available = 0; all available iff available = total and nonzero; otherwise shows total - available, which is nonzero |
| `Reporting.StockReflectsLoans` | Implementation/ILMS.py:721-727 | in a consistent database, all available iff copies on the shelf and no open loan; a partial label shows the open loan count; out of stock means every copy is out on loan |
| `Reporting.CopiesSplit` | Implementation/ILMS.py:734-736 | available + issued totals equal the total copies listed |
| `Reporting.SummariseBooks` | Implementation/ILMS.py:712-736 | counts rows, sums available and issued copies, labels every row |
| `Reporting.IssuedSum` | Implementation/ILMS.py:733-736 | summed over distinct books whose issued copies each match their open loans, the issued total is the number of open loans on them |
| `Reporting.IssuedCountsOpenLoans` | Implementation/ILMS.py:736 | over distinct books of a consistent database, the issued total is the number of open loans on them |
| `Credentials.Register` | Implementation/ILMS.py:158-166 | fails iff the username exists; success adds one row holding the digest of the password, never the password |
| `Credentials.Login` | Implementation/ILMS.py:131-139 | a successful login yields the username typed, which has a row |
| `Credentials.LoginMatchesRow` | Implementation/ILMS.py:132-136 | with unique usernames, a registered user logs in exactly with a password whose digest is the stored one |
| `Credentials.RegisterThenLogin` | Implementation/ILMS.py:131-136 | after registering, login succeeds with that password, and with another password iff its digest is the same |
| `Credentials.RegisterKeepsUnique` | Implementation/ILMS.py:84 | registration keeps usernames unique |
| `Credentials.UnknownUserFails` | Implementation/ILMS.py:138-139 | an unregistered username never logs in, whatever the password |
| `History.StepKeepsConsistent` | Implementation/ILMS.py:976-1068 | every command preserves the copy invariant, except a book update that changes an existing book's total |
| `History.RunKeepsConsistent` | Implementation/ILMS.py:1000-1003 | any sequence of commands whose book updates keep the totals preserves the copy invariant |
| `History.NoUpdatesKeepTotals` | Implementation/ILMS.py:491-495 | a sequence without book updates meets that condition |
| `History.ReachableConsistent` | Implementation/ILMS.py:81-88 | every database reached from empty tables by such a sequence is consistent |
| `History.StepKeepsIsbnUnique` | Implementation/ILMS.py:85 | every command keeps ISBNs unique |
| `History.RunKeepsIsbnUnique` | Implementation/ILMS.py:85 | any sequence of commands keeps ISBNs unique |

## Left out

- The Tkinter layer: windows, forms, tables, styling, hover effects, dialogs
  and navigation. Only the effect of each callback on the database is modelled.
- SQL text, cursors and commit mechanics. Each command is one atomic state
  transition. The application is single-threaded with one connection, so
  there is no concurrency to model.
- Free-text search and the status filters of the listing queries: `LIKE`
  matching, `ORDER BY`, the joins, and the SQL `date('now')` filter. The
  summary loops take the rows the query returned as input.
- The read-only screens: loading a book into the update form, the member
  list, and the search windows.
- SHA-256 (`hash_password`) is a foreign call; the digest function is a parameter.
- Fines are floats in the source, but always a whole number of days times
  1.0, so they are integers here. The `$%.2f` display is not modelled.
- `strftime`/`strptime` text is not modelled. A stored date is its day
  ordinal. For years before 1000 the text does not parse back, and that is
  not modelled.
- Each command reads the clock once. The source calls `datetime.now()` more
  than once, and the calls can fall on different days around midnight.
- `int()` accepts non-ASCII decimal digits; the model reads ASCII digits only.
  Case folding for the `mem` prefix is ASCII only.
- The member `status` column is always the default `"active"`. No lending
  or catalogue command reads or writes it; only the member list displays
  it. So it is not modelled.
- SQLite's own limits are not modelled. This covers exhausting an
  AUTOINCREMENT sequence and 64-bit overflow of `available_copies ± 1`.
- `Ledger.IssueThenReturnFine`: requires the loan sequence to be below the
  64-bit limit, because the model does not refuse ids beyond it.
- `Credentials.Login`: returns only the username, not the `librarian_id`
  the query also selects, because the application keeps only the username.
- `PyText.PyInt`: follows interpreters that enforce the integer string
  conversion limit (CPython 3.11, and the 3.7.14, 3.8.14, 3.9.14 and 3.10.7
  security releases and later). Older interpreters accept longer digit
  strings.
