# Library loans: a verified model of the loan and catalog services

The system is a small library back end. It has a catalog of books, each with a
title, an author, a code and an `available` flag, and a table of loans. A loan
records the book, the loan date, a return date, the number of days requested
and the reader's first and last names. A reader may borrow an available book
for 1 to 15 days. The return date is the loan date plus those days, moved to
the following Monday when it falls on a weekend. Returning the book deletes the
loan and makes the book available again.

This project models the three files that hold that logic:

- `services/loanService.js`. The return-date rule, the two transactions
  `createLoan` and `returnBook`, and the read queries `getAllLoans`,
  `getActiveLoans` and `getStatistics`.
- `services/bookService.js`. The ILIKE search, the title-ordered listing,
  the lookup by id, the availability test and the two flag updates.
- `controllers/loanController.js`. The guards `createLoan` runs on a request,
  the substring classifier that turns an error message into 400, 403 or 500,
  and the status `returnBook` gives a failure.

The modules, one per file, are:

- `Wrappers`: `Option` and `Result`.
- `Text`: JavaScript's `trim`, ASCII lower-casing, `includes`, decimal
  rendering and code-point string order.
- `JsValues`: the values a JSON body field can hold, truthiness, `parseInt`,
  and calling `.trim()` on such a value.
- `Calendar`: proleptic Gregorian dates. It has a day number counted from
  1970-01-01, the day of the week, adding days, and the `YYYY-MM-DD` form.
- `Ordering`: the ordered listing of a finite set under a strict total order.
  This is how `ORDER BY` is modelled.
- `Store`: the `books` and `loans` tables and the loan id sequence, as the class
  `Store.Database`.
- `BookService`, `LoanService` and `LoanController`, after the three source files.

Each transaction is a method on the shared `Store.Database`. A refusal leaves
both maps unchanged, which is the effect of ROLLBACK. A success applies all of
its writes, which is the effect of COMMIT. The read queries are functions of
the two maps. The current date is passed in as `today`. The controller's guard
chain is a function that returns either the normalised arguments or a status
and message.

The central invariant is `LoanService.LoanInvariant`: every loan references an
existing book, no book has two loans, and a book is unavailable exactly when a
loan references it. Both transactions preserve it.

Two behaviours of the code are worth stating outright:

- The service checks its arguments after `BEGIN`, inside the transaction.
  A refusal then rolls back a transaction that has written nothing.
- `returnBook` answers every failure with 500, the unknown loan included.
- The controller passes the book id to the service as a number, and the
  service reads it again with `parseInt`, that is from its text `String(id)`.
  From 1e21 on that text is exponential, so only its first digit is read: a
  request for book `"1000000000000000000000"` lends book 1.

## Model

| member | source | states |
|---|---|---|
| Text.Trim | services/loanService.js:59-64 | `s.trim()` is a contiguous slice of `s`. Everything cut before and after it is white space, and the result neither starts nor ends with white space. |
| Text.TrimBlank | services/loanService.js:59-64 | `s.trim() === ''` holds exactly when every character of `s` is white space. |
| Text.TrimIdempotent | controllers/loanController.js:69 | Trimming an already trimmed name changes nothing, so the service's second trim keeps the controller's name. |
| Text.Contains | controllers/loanController.js:81-88 | The reference definition of `includes`: `t` occurs in `s` at some position. The classifier and the search contracts are stated with it. |
| JsValues.ParseInt | services/loanService.js:42-53 | A number below 1e21 in magnitude is read as itself. From 1e21 on it is read as its first digit, with its sign. A string is read as text, and `undefined`, `null` and booleans are NaN (`None`). How text is read is stated by the lemmas below. |
| JsValues.ParseIntOfNumberText | services/loanService.js:42-46 | `parseInt` of a number is exactly the reading of its text `String(n)`: the decimal digits below 1e21, and from there on the first digit, then `.` or `e+`, in exponential notation. |
| JsValues.ParseIntOfDecimal | services/loanService.js:42-53 | The decimal text of every integer reads back as that integer. |
| JsValues.ParseIntLargeNumberExample | services/loanService.js:42-46 | `parseInt(1e21)` is 1. |
| JsValues.ParseIntLargeNegativeExample | services/loanService.js:42-46 | `parseInt(-1e21)` is -1. |
| JsValues.ParseIntSkipsSpace | services/loanService.js:42-53 | Leading white space never changes what `parseInt` reads. |
| JsValues.ParseIntOfDigits | services/loanService.js:42-53 | A number's digits followed by end of text, or by anything but a digit or an `x`, read as that number. Reading stops at the first non-digit. |
| JsValues.ParseIntOfNegativeDigits | services/loanService.js:42-53 | A minus sign before such digits gives the negated number. |
| JsValues.ParseIntOfNoNumber | services/loanService.js:42-53 | Text starting with anything but white space, a sign or a digit is NaN, and so is the empty text. |
| JsValues.ParseIntOfBareSign | services/loanService.js:42-53 | A sign not followed by a digit is NaN. |
| JsValues.ParseIntSpaceDigitsExample | services/loanService.js:42-53 | `parseInt("  12abc")` is 12. |
| JsValues.ParseIntHexExample | services/loanService.js:42-53 | `parseInt("-0x1A")` is -26: a sign, then a hexadecimal number. |
| JsValues.ParseIntBareHexExample | services/loanService.js:42-53 | `parseInt("0x")` is NaN. |
| JsValues.ParseIntTwoSignsExample | services/loanService.js:42-53 | `parseInt("+-5")` is NaN. |
| JsValues.TrimmedText | services/loanService.js:59-64 | A name is blank exactly when it is falsy or all white space. It is a TypeError exactly when it is truthy and not a string. Otherwise it is its non-empty trimmed text. |
| JsValues.Truthy | services/loanService.js:42-62 | The reference definition of JavaScript truthiness, the test `!v`: `undefined`, `null`, `false`, 0 and the empty string are falsy. |
| JsValues.Absent | controllers/loanController.js:9-21 | The reference definition of the controller's test for a missing field: the value is `undefined`, `null` or the empty string. |
| Calendar.NextDay | services/loanService.js:16 | The following calendar date, with month and year rollover. It is valid, and its day number is one more. |
| Calendar.PrevDay | services/loanService.js:16 | The preceding calendar date. It is valid, `NextDay` undoes it, and its day number is one less. |
| Calendar.AddDays | services/loanService.js:16 | `setDate(getDate() + n)`: a valid date whose day number is `n` more, for negative `n` too. |
| Calendar.DayNumberInjective | services/loanService.js:16 | Two valid dates with the same day number are the same date. |
| Calendar.AddDaysUnique | services/loanService.js:16 | `AddDays(d, n)` is the one valid date whose day number is `DayNumber(d) + n`. |
| Calendar.ParseIsoDate | services/loanService.js:8-13 | Only `DDDD-DD-DD` text that names a real calendar date parses. Everything else is an invalid date. |
| Calendar.ParseFormat | services/loanService.js:27-31 | Formatting a valid date and parsing it back gives the same date exactly when its year has four digits. |
| Calendar.FormatParse | services/loanService.js:8-13 | Parsing `YYYY-MM-DD` text and formatting the date again gives back the same text exactly when the year does not start with `0`. |
| Calendar.Pad2 | services/loanService.js:28-29 | `padStart(2, '0')`: a one-digit number gets a leading zero, and a two-digit number is its two digits. |
| Calendar.FormatDate | services/loanService.js:27-31 | The reference definition of the `${year}-${month}-${day}` text, used by `ParseFormat`, `FormatParse` and `CalculateReturnDate`. The year is not padded. |
| LoanService.ReturnDateFor | services/loanService.js:15-24 | The return date is never a Saturday or Sunday. It lies between loan date + days and two days later, and it is the first weekday on or after loan date + days. |
| LoanService.ReturnDateIsFirstWeekday | services/loanService.js:15-24 | A date is the return date exactly when it is the first weekday on or after loan date + days. |
| LoanService.CalculateReturnDate | services/loanService.js:6-32 | It fails, with the invalid-date message, exactly when the loan date does not parse. Otherwise it returns the formatted return date, which parses back to that date when the year has four digits. |
| LoanService.FromFridayExamples | services/loanService.js:18-24 | From Friday 2024-06-07, 1, 2 and 3 days all give Monday 2024-06-10: Saturday moves by 2, Sunday by 1, Monday stays. |
| LoanService.FromMondayExamples | services/loanService.js:18-24 | From Monday 2024-06-03, 4 days give Friday 2024-06-07, and 5 days give the Saturday, which moves to Monday 2024-06-10. |
| LoanService.CalculateReturnDateExample | services/loanService.js:6-32 | The text `2024-06-07` with 1 day gives the text `2024-06-10`. |
| LoanService.InvalidLoanDateExample | services/loanService.js:8-13 | A loan date with month 13 raises the invalid-date error. |
| LoanService.WrapCreateError | services/loanService.js:115-121 | Every error leaving `createLoan` contains the prefix and the original message. A message already carrying the prefix is passed through unchanged. |
| LoanService.WrapCreateErrorIdempotent | services/loanService.js:118-121 | Wrapping twice is wrapping once, so the prefix is never doubled. |
| LoanService.ServiceArguments | services/loanService.js:41-64 | The checks succeed exactly when the id is truthy and numeric, the days are truthy, numeric and in 1..15, and both names are non-blank strings. The result is the parsed numbers and the trimmed names. Each refusal, the TypeError of a non-string name included, is given exactly when every check before it passes and it fails. The order is: id, days not a number, days out of range, first name, last name. |
| LoanService.ArgumentsOfNumbersAndNames | services/loanService.js:41-64 | A non-zero id, days in 1..15 and two non-blank string names pass. The id is taken as `parseInt` reads it, which is the id itself below 1e21. The days are taken as they are and the names trimmed. |
| LoanService.LaterMessagesAreDistinct | services/loanService.js:66-84 | The missing-book, unavailable-book and invalid-date refusals differ from each other and from every argument message. |
| LoanService.CreateRejection | services/loanService.js:41-93 | `createLoan` refuses nothing exactly when the arguments pass, the book is available and today's date can be written with a four-digit year. It refuses a missing book, and an existing but unavailable one, with their own messages. Failed arguments are refused with their own message, and an available book on a day whose year does not have four digits with the invalid-date message. |
| LoanService.CreateLoan | services/loanService.js:35-125 | A refusal returns the wrapped message and leaves both tables and the sequence unchanged. A success inserts one loan under the next sequence id, which is not already used. The loan holds the book id, today, the return date, the days and the trimmed names. Only that book is marked unavailable, and the book row as read is returned. The invariant is kept. |
| LoanService.InsertLoan | services/loanService.js:95-107 | The insert and the flag update happen together, and they keep the invariant. |
| LoanService.InitialInvariant | services/loanService.js:82-107 | With no loan yet the tables are consistent exactly when every book is available. |
| LoanService.CreatePreservesInvariant | services/loanService.js:82-107 | Lending an available book under a fresh id keeps every book with at most one loan, unavailable exactly when lent. |
| LoanService.ReturnBook | services/loanService.js:164-206 | On a loan joined with its book, it deletes only that loan and marks only its book available. On an unknown id, it fails with the prefixed not-found message and changes nothing. The invariant is kept. |
| LoanService.ReturnPreservesInvariant | services/loanService.js:185-195 | Deleting a loan and freeing its book keeps the invariant. |
| LoanService.LentBookIsUnavailable | services/loanService.js:82-84 | Under the invariant a book on loan is not available, so `createLoan` cannot lend it twice. |
| LoanService.LoanInvariant | services/loanService.js:82-107 | The reference definition of the tables' consistency. Every loan references a book, no book has two loans, and a book is unavailable exactly when a loan references it. The transactions and the statistics lemma are stated with it. |
| LoanService.ReturnDateOfToday | services/loanService.js:86-93 | The loan date built from today reads back as today exactly when the year has four digits, and the return date is then computed from today. |
| LoanService.GetAllLoans | services/loanService.js:128-140 | Exactly the loans joined with their books, each once, in non-increasing order of loan date. |
| LoanService.AllLoansListed | services/loanService.js:131-134 | When every loan references an existing book, the join loses no loan. |
| LoanService.LoanStatus | services/loanService.js:147-151 | `Vencido` exactly when due before today, `Vence hoy` exactly when due today, `Activo` exactly when due later. |
| LoanService.Labelled | services/loanService.js:147-151 | Every row keeps its position and gets the label of its return date. |
| LoanService.GetActiveLoans | services/loanService.js:143-161 | Exactly the joined loans due yesterday or later, each once, each with its label, in non-decreasing order of return date. |
| LoanService.ListedOverdueIsOneDayLate | services/loanService.js:148-154 | Every `Vencido` row on the active list was due exactly yesterday. |
| LoanService.BooksPartition | services/loanService.js:213-215 | Every book is counted as available or as loaned, never both. |
| LoanService.LoansPartition | services/loanService.js:216-217 | Every loan is counted as active or as overdue, never both. |
| LoanService.GetStatistics | services/loanService.js:209-224 | Each count is the size of its set of rows. Available plus loaned books is the total, and active plus overdue loans is the number of loans. |
| LoanService.StatisticsMatchLoans | services/loanService.js:213-215 | Under the invariant the number of loaned books is the number of loans, and the available books are the rest. |
| BookService.EscapeLike | services/bookService.js:7 | A query with no LIKE special character is left as it is. |
| BookService.LikeMatch | services/bookService.js:11 | The reference definition of PostgreSQL `LIKE`. `%` matches any run, `_` any one character, and a backslash makes the next character literal. A lone backslash at the end of the pattern matches itself, where PostgreSQL raises an error; the search patterns end in `%`, so this never arises. The search contracts are stated with it. |
| BookService.ILike | services/bookService.js:11 | `ILIKE`: `LIKE` after lower-casing both sides. |
| BookService.OrderByTitle | services/bookService.js:12 | Every row once, titles never decreasing in code-point order. |
| BookService.SearchBooks | services/bookService.js:5-19 | Exactly the books whose title, author or code matches `%query%` under ILIKE, each once, ordered by title. |
| BookService.WildcardQueryCounterexample | services/bookService.js:7 | The query `_` selects a book titled `abc` although none of its fields contains `_`. |
| BookService.EscapedMatchIsContainment | services/bookService.js:7-11 | Once the query is escaped, ILIKE against `%query%` is exactly case-insensitive containment. |
| BookService.EscapedSearchIsContainment | services/bookService.js:7-11 | With the query escaped, a book matches exactly when one of its three fields contains the query, ignoring case. |
| BookService.SearchBooksEscaped | services/bookService.js:5-19 | Exactly the books whose title, author or code contains the query case-insensitively, each once, ordered by title. |
| BookService.SearchWithoutWildcards | services/bookService.js:7-11 | For a query without `%`, `_` or a backslash, the search as written is the intended substring search. |
| BookService.GetAllBooks | services/bookService.js:22-36 | Every book of the table, each once, ordered by title. |
| BookService.GetBookById | services/bookService.js:39-51 | The row with that id when it exists, and no row otherwise. No row is not an error. |
| BookService.IsBookAvailable | services/bookService.js:54-61 | True exactly when the book exists and its flag is true. |
| BookService.SetAvailability | services/bookService.js:64-85 | Only the flag of the given book changes. Every other book and every other field stays, and an absent id changes nothing. |
| BookService.SetAvailabilityIdempotent | services/bookService.js:64-85 | Setting the flag twice is setting it once, and an absent id is a no-op. |
| BookService.MarkAsUnavailable | services/bookService.js:64-73 | The given book's flag becomes false, and nothing else in the store changes. |
| BookService.MarkAsAvailable | services/bookService.js:76-85 | The given book's flag becomes true, and nothing else in the store changes. |
| LoanController.ErrorStatus | controllers/loanController.js:77-89 | The status is 400, 403 or 500. It is 400 exactly when a bad-request needle occurs, 403 exactly when none does but an authorisation needle does, and 500 otherwise. |
| LoanController.MessageOr | controllers/loanController.js:79 | An empty message is replaced by the fallback, and any other message is kept. |
| LoanController.TrimTypeErrorIsServerError | controllers/loanController.js:23-35 | The TypeError of `.trim()` on a non-string name matches no needle, so it is a 500. |
| LoanController.BookRefusalsAreBadRequests | controllers/loanController.js:81-85 | The service's missing-book and unavailable-book errors, wrapped with the prefix, are 400. |
| LoanController.ValidateCreateLoan | controllers/loanController.js:9-67 | Each guard answers with its own status and message exactly when every guard before it passes and it fails. The order is: missing id, missing days, first name, last name (blank gives 400, a non-string gives 500), then non-numeric or non-positive id, non-numeric days, days below 1, days above 15. Otherwise the request is accepted with the parsed id above 0, days in 1..15 and the trimmed non-blank names. |
| LoanController.TrimmedNameStays | controllers/loanController.js:69 | A name the controller trimmed passes the service's name check as itself. |
| LoanController.AsReadByService | controllers/loanController.js:38-69 | The service reads back the arguments it is given: the days and names as they are, the id itself below 1e21 and only its first digit from 1e21 on, still above 0. |
| LoanController.NormalisedArgumentsPassTheService | controllers/loanController.js:69 | Arguments the controller accepted pass every argument check of the service, and the service reads them back as `AsReadByService` says. |
| LoanController.LargeBookIdReadsFirstDigit | controllers/loanController.js:38-69 | A book id written out in full from 1e21 on is accepted by the guards as that number, and the service then looks up the book numbered by its first digit. |
| LoanController.RejectionOfNormalised | controllers/loanController.js:69-75 | For accepted arguments the service refuses only a missing or lent book, judged by the id as the service reads it back, or a date it cannot write with four year digits. |
| LoanController.RefusalStatus | controllers/loanController.js:76-96 | A service error carrying the prefix is sent with its own message. A missing or lent book gives 400. |
| LoanController.CallService | controllers/loanController.js:69-96 | The book is the one the service reads back, as in `AsReadByService`. The answer is 201 exactly when that book is available and the date can be written. A 201 carries the new loan: the next sequence id, the book, today, the return date, the days and the names, plus the book row as read. The store then holds exactly that loan added, the book marked unavailable and the sequence advanced by one. Any other answer leaves the store and the sequence unchanged, a missing or lent book gives 400, and the status is the message's class. The invariant is kept. |
| LoanController.CreateLoan | controllers/loanController.js:4-98 | A rejected request is answered by its guard and never reaches the store. An accepted one goes to the service, and both its answer and the new store are as in `CallService`. The invariant is kept. |
| LoanController.ReturnBook | controllers/loanController.js:124-135 | The answer is 200 exactly when the loan exists. A 200 has deleted just that loan and marked only its book available. Any failure, the unknown loan included, is a 500 that carries the service's message and leaves the store unchanged. The sequence never moves. |

## Left out

- Store failures are not modelled: a lost connection, a failed statement, or a value PostgreSQL itself rejects, such as an id beyond the 32-bit `integer` range or a non-numeric loan id in the URL. The catch blocks that only handle them are left out too: the message wrapping of every read query and of the flag updates, and the `false` that `isBookAvailable` returns on an error.
- Connections and locks are not modelled. This covers `pool.connect`, `release`, and the `SELECT ... FOR UPDATE` row lock. Each transaction is one atomic method, because the lock only matters under concurrency. Without concurrency the re-read under the lock sees the row already read. Its "no row" branch, `El libro no existe` at services/loanService.js:78-80, is therefore unreachable.
- The wall clock is not read. `new Date()` and `CURRENT_DATE` are both the `today` parameter, in one time zone.
- JavaScript `Date` internals and time zones are left out. `Calendar.ParseIsoDate` accepts a four-digit year only and refuses a day past the end of its month, where V8 may roll it into the next month. The service only parses dates it formatted itself, so this never arises there.
- The `DATE` columns of a loan hold `Calendar.Date` values: the dates that the formatted texts name.
- `JsValues.JsVal` has no objects, arrays, fractional numbers, NaN or Infinity. `parseInt` of such values is not modelled. Hexadecimal `0x` text is modelled, and so is the exponential `String` form of a number from 1e21 on.
- Numbers are exact integers, without the rounding of 64-bit floating point. `parseInt` of a long digit string gives its exact value, where JavaScript rounds it to a double once it is beyond 2^53. The controller's `parseInt` of such a string therefore keeps every digit, and what the service reads back from 1e21 on is the first of the exact digits.
- `Text.Lower` folds ASCII letters only. ILIKE's full Unicode folding, such as for `Á`, is not modelled.
- `ORDER BY` on text follows code-point order, as under the C collation. Another database collation may order titles differently. Rows with equal sort keys, which SQL leaves in any order, come in id order.
- `RETURNING *` is not modelled as a row. The result of a successful `createLoan` is the loan id, the inserted loan and the book row.
- JSON response shapes, `success` flags and `console` logging are not modelled.
- Whole parts of the system are not part of this model. `controllers/bookController.js`, the routes, `server.js` and `config/database.js` hold no logic beyond dispatch and configuration. The same goes for the `getAllLoans`, `getActiveLoans` and `getStatistics` handlers of the loan controller, which only forward the result or answer 500.
- LoanController.CallService: when today's year does not have four digits, the status of the invalid-date error is stated only as the classifier's verdict on the message. That it comes out as 500 is not proved.
- LoanController.CreateLoan: the same holds for the invalid-date error, as in `CallService`.

## Findings

| source | as written | input that shows it | evidently intended | confidence | as-written member | corrected member |
|---|---|---|---|---|---|---|
| services/bookService.js:7 | The query is placed between `%` signs without escaping, so `%`, `_` and backslash in the query act as LIKE special characters | the query `_` selects a book titled, authored and coded `abc`, none of which contains `_` | a case-insensitive substring search on title, author and code | not executed | BookService.WildcardQueryCounterexample | BookService.SearchBooksEscaped |
