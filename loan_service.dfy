/**
 * The loan service: the return-date rule, the two transactions that lend and
 * take back a book, and the read queries over the `loans` table joined with
 * `books`. Each transaction is one atomic method on the store; the error
 * messages are the service's own.
 */
module LoanService {
  import opened Wrappers
  import Text
  import JsValues
  import Calendar
  import Ordering
  import Store
  import BookService

  // ----- The return-date rule -----

  /** Saturday or Sunday, for a day number. */
  predicate IsWeekend(n: int)
  {
    Calendar.WeekdayOf(n) == 0 || Calendar.WeekdayOf(n) == 6
  }

  /** `n` is the first weekday on or after day number `from`. */
  predicate FirstWeekdayFrom(from: int, n: int)
  {
    from <= n && !IsWeekend(n) && forall k | from <= k < n :: IsWeekend(k)
  }

  /** The loan date moved on by the requested days, then to Monday when that
      lands on a weekend: +2 from a Saturday, +1 from a Sunday, applied once. */
  function ReturnDateFor(loanDate: Calendar.Date, days: int): (r: Calendar.Date)
    requires Calendar.Valid(loanDate)
    ensures Calendar.Valid(r)
    ensures !IsWeekend(Calendar.DayNumber(r))
    ensures Calendar.DayNumber(loanDate) + days <= Calendar.DayNumber(r) <= Calendar.DayNumber(loanDate) + days + 2
    ensures FirstWeekdayFrom(Calendar.DayNumber(loanDate) + days, Calendar.DayNumber(r))
  {
    var due := Calendar.AddDays(loanDate, days);
    var n := Calendar.DayNumber(due);
    var w := Calendar.Weekday(due);
    WeekdaySteps(n);
    if w == 6 then
      assert forall k | n <= k < n + 2 :: IsWeekend(k);
      Calendar.AddDays(due, 2)
    else if w == 0 then
      assert forall k | n <= k < n + 1 :: IsWeekend(k);
      Calendar.AddDays(due, 1)
    else due
  }

  /** The days after a Saturday and after a Sunday. */
  lemma WeekdaySteps(n: int)
    ensures Calendar.WeekdayOf(n) == 6 ==> Calendar.WeekdayOf(n + 1) == 0 && Calendar.WeekdayOf(n + 2) == 1
    ensures Calendar.WeekdayOf(n) == 0 ==> Calendar.WeekdayOf(n + 1) == 1
  {
    var q, w := (n + 4) / 7, (n + 4) % 7;
    assert n + 4 == 7 * q + w;
    if w == 6 {
      assert n + 5 == 7 * (q + 1) && n + 6 == 7 * (q + 1) + 1;
    } else if w == 0 {
      assert n + 5 == 7 * q + 1;
    }
  }

  /** The return date is exactly the first weekday on or after loan date + days. */
  lemma ReturnDateIsFirstWeekday(loanDate: Calendar.Date, days: int, e: Calendar.Date)
    requires Calendar.Valid(loanDate) && Calendar.Valid(e)
    ensures (ReturnDateFor(loanDate, days) == e)
      == FirstWeekdayFrom(Calendar.DayNumber(loanDate) + days, Calendar.DayNumber(e))
  {
    var r := ReturnDateFor(loanDate, days);
    var from := Calendar.DayNumber(loanDate) + days;
    if FirstWeekdayFrom(from, Calendar.DayNumber(e)) {
      Calendar.DayNumberInjective(r, e);
    }
  }

  const InvalidLoanDate := "Fecha de préstamo inválida"

  /** `calculateReturnDate(loanDate, daysRequested)` on `YYYY-MM-DD` text. */
  function CalculateReturnDate(loanDate: string, days: int): (r: Result<string, string>)
    ensures r.Failure? <==> Calendar.ParseIsoDate(loanDate).None?
    ensures r.Failure? ==> r.error == InvalidLoanDate
    ensures r.Success? ==>
      var due := ReturnDateFor(Calendar.ParseIsoDate(loanDate).value, days);
      && r.value == Calendar.FormatDate(due)
      && (1000 <= due.year <= 9999 ==> Calendar.ParseIsoDate(r.value) == Some(due))
  {
    match Calendar.ParseIsoDate(loanDate)
    case None => Failure(InvalidLoanDate)
    case Some(d) =>
      var due := ReturnDateFor(d, days);
      Calendar.ParseFormat(due);
      Success(Calendar.FormatDate(due))
  }

  /** Day numbers in June 2024: the 1st is day 19875. */
  lemma June2024(d: int)
    ensures Calendar.DayNumber(Calendar.Date(2024, 6, d)) == 19874 + d
  {
    assert Calendar.YearStart(2024) == 739251;
  }

  /** The first weekday from a weekday is that day itself. */
  lemma FirstWeekdayIsItself(n: int)
    requires !IsWeekend(n)
    ensures FirstWeekdayFrom(n, n)
  {
  }

  /** The first weekday from a Saturday is two days later. */
  lemma FirstWeekdayAfterSaturday(n: int)
    requires Calendar.WeekdayOf(n) == 6
    ensures FirstWeekdayFrom(n, n + 2)
  {
    WeekdaySteps(n);
    forall k | n <= k < n + 2
      ensures IsWeekend(k)
    {
      assert k == n || k == n + 1;
    }
  }

  /** The first weekday from a Sunday is the next day. */
  lemma FirstWeekdayAfterSunday(n: int)
    requires Calendar.WeekdayOf(n) == 0
    ensures FirstWeekdayFrom(n, n + 1)
  {
    WeekdaySteps(n);
  }

  /** 2024-06-07 is a Friday: one day lands on Saturday and two on Sunday, and
      both are moved to Monday 2024-06-10. */
  lemma FromFridayExamples()
    ensures ReturnDateFor(Calendar.Date(2024, 6, 7), 1) == Calendar.Date(2024, 6, 10)
    ensures ReturnDateFor(Calendar.Date(2024, 6, 7), 2) == Calendar.Date(2024, 6, 10)
    ensures ReturnDateFor(Calendar.Date(2024, 6, 7), 3) == Calendar.Date(2024, 6, 10)
  {
    var friday, monday := Calendar.Date(2024, 6, 7), Calendar.Date(2024, 6, 10);
    June2024(7);
    June2024(10);
    assert Calendar.WeekdayOf(19882) == 6 && Calendar.WeekdayOf(19883) == 0 && !IsWeekend(19884);
    FirstWeekdayAfterSaturday(19882);
    FirstWeekdayAfterSunday(19883);
    FirstWeekdayIsItself(19884);
    ReturnDateIsFirstWeekday(friday, 1, monday);
    ReturnDateIsFirstWeekday(friday, 2, monday);
    ReturnDateIsFirstWeekday(friday, 3, monday);
  }

  /** Four days from Monday 2024-06-03 is the Friday; five land on the
      Saturday and move to the next Monday. */
  lemma FromMondayExamples()
    ensures ReturnDateFor(Calendar.Date(2024, 6, 3), 4) == Calendar.Date(2024, 6, 7)
    ensures ReturnDateFor(Calendar.Date(2024, 6, 3), 5) == Calendar.Date(2024, 6, 10)
  {
    var monday, friday, nextMonday := Calendar.Date(2024, 6, 3), Calendar.Date(2024, 6, 7), Calendar.Date(2024, 6, 10);
    June2024(3);
    June2024(7);
    June2024(10);
    assert !IsWeekend(19881) && Calendar.WeekdayOf(19882) == 6;
    FirstWeekdayIsItself(19881);
    FirstWeekdayAfterSaturday(19882);
    ReturnDateIsFirstWeekday(monday, 4, friday);
    ReturnDateIsFirstWeekday(monday, 5, nextMonday);
  }

  /** The same rule on the text the service reads and writes. */
  lemma CalculateReturnDateExample()
    ensures CalculateReturnDate("2024-06-07", 1) == Success("2024-06-10")
  {
    ReadFriday();
    FromFridayExamples();
    WriteMonday();
  }

  lemma ReadFriday()
    ensures Calendar.ParseIsoDate("2024-06-07") == Some(Calendar.Date(2024, 6, 7))
  {
    assert Calendar.IsoShape("2024-06-07");
  }

  lemma WriteMonday()
    ensures Calendar.FormatDate(Calendar.Date(2024, 6, 10)) == "2024-06-10"
  {
    Text.FourDigits(2024);
    assert Text.IntToDecimal(2024) == "2024";
    assert Calendar.Pad2(6) == "06";
    assert Calendar.Pad2(10) == "10";
  }

  /** A month that does not exist makes an invalid loan date. */
  lemma InvalidLoanDateExample()
    ensures CalculateReturnDate("2024-13-01", 1) == Failure(InvalidLoanDate)
  {
    assert Calendar.ParseIsoDate("2024-13-01") == None;
  }

  // ----- Error messages -----

  const CreatePrefix := "Error al crear préstamo"
  const InvalidBookId := "El ID del libro es inválido"
  const DaysNotANumber := "Los días solicitados deben ser un número válido"
  const DaysOutOfRange := "Los días solicitados deben estar entre 1 y 15"
  const FirstNameRequired := "El nombre del lector es requerido"
  const LastNameRequired := "El apellido del lector es requerido"
  const BookMissing := "El libro no existe en la base de datos"
  const BookUnavailable := "El libro no está disponible (ya fue prestado)"
  const ReturnPrefix := "Error al devolver el libro"
  const LoanNotFound := "Préstamo no encontrado"
  const BookReturned := "Libro devuelto exitosamente"

  /** What the catch block of `createLoan` rethrows: a message that already
      carries the prefix unchanged, any other with the prefix put in front. */
  function WrapCreateError(message: string): (r: string)
    ensures Text.Contains(r, CreatePrefix)
    ensures Text.Contains(r, message)
    ensures Text.Contains(message, CreatePrefix) ==> r == message
    ensures !Text.Contains(message, CreatePrefix) ==> |r| > |message|
  {
    if Text.Contains(message, CreatePrefix) then
      assert Text.OccursAt(message, message, 0);
      message
    else
      var r := CreatePrefix + ": " + message;
      assert Text.OccursAt(r, CreatePrefix, 0);
      assert Text.OccursAt(r, message, |CreatePrefix| + 2);
      r
  }

  /** Wrapping twice is wrapping once: the prefix is never doubled. */
  lemma WrapCreateErrorIdempotent(message: string)
    ensures WrapCreateError(WrapCreateError(message)) == WrapCreateError(message)
  {
  }

  // ----- Argument validation -----

  /** The arguments of a loan once the service has checked and normalised them. */
  datatype LoanArguments = LoanArguments(bookId: int, days: int, firstName: string, lastName: string)

  /** `!v || isNaN(parseInt(v))` does not hold: `v` is truthy and `parseInt` finds a number in it. */
  predicate ReadsAsNumber(v: JsValues.JsVal)
  {
    JsValues.Truthy(v) && JsValues.ParseInt(v).Some?
  }

  /** The number of days reads as a number from 1 to 15. */
  predicate DaysAllowed(v: JsValues.JsVal)
  {
    ReadsAsNumber(v) && 1 <= JsValues.ParseInt(v).value <= 15
  }

  /** The checks `createLoan` makes on its arguments, in the order it makes them. */
  function ServiceArguments(bookId: JsValues.JsVal, daysRequested: JsValues.JsVal,
                            firstName: JsValues.JsVal, lastName: JsValues.JsVal): (r: Result<LoanArguments, string>)
    ensures r.Success? <==>
      && JsValues.Truthy(bookId) && JsValues.ParseInt(bookId).Some?
      && JsValues.Truthy(daysRequested) && JsValues.ParseInt(daysRequested).Some?
      && 1 <= JsValues.ParseInt(daysRequested).value <= 15
      && JsValues.TrimmedText(firstName).Given? && JsValues.TrimmedText(lastName).Given?
    ensures r.Success? ==> r.value == LoanArguments(
      JsValues.ParseInt(bookId).value, JsValues.ParseInt(daysRequested).value,
      Text.Trim(firstName.s), Text.Trim(lastName.s))
    ensures r.Success? ==> 1 <= r.value.days <= 15 && r.value.firstName != [] && r.value.lastName != []
    ensures r.Failure? ==> r.error in ArgumentMessages()
    ensures r == Failure(InvalidBookId) <==> !ReadsAsNumber(bookId)
    ensures r == Failure(DaysNotANumber) <==> ReadsAsNumber(bookId) && !ReadsAsNumber(daysRequested)
    ensures r == Failure(DaysOutOfRange) <==>
      ReadsAsNumber(bookId) && ReadsAsNumber(daysRequested) && !(1 <= JsValues.ParseInt(daysRequested).value <= 15)
    ensures r == Failure(FirstNameRequired) <==>
      ReadsAsNumber(bookId) && DaysAllowed(daysRequested) && JsValues.TrimmedText(firstName).Blank?
    ensures r == Failure(JsValues.TrimTypeError("readerFirstName")) <==>
      ReadsAsNumber(bookId) && DaysAllowed(daysRequested) && JsValues.TrimmedText(firstName).NotAString?
    ensures r == Failure(LastNameRequired) <==>
      ReadsAsNumber(bookId) && DaysAllowed(daysRequested)
      && JsValues.TrimmedText(firstName).Given? && JsValues.TrimmedText(lastName).Blank?
    ensures r == Failure(JsValues.TrimTypeError("readerLastName")) <==>
      ReadsAsNumber(bookId) && DaysAllowed(daysRequested)
      && JsValues.TrimmedText(firstName).Given? && JsValues.TrimmedText(lastName).NotAString?
  {
    if !JsValues.Truthy(bookId) || JsValues.ParseInt(bookId).None? then Failure(InvalidBookId)
    else if !JsValues.Truthy(daysRequested) || JsValues.ParseInt(daysRequested).None? then Failure(DaysNotANumber)
    else
      var days := JsValues.ParseInt(daysRequested).value;
      if days < 1 || days > 15 then Failure(DaysOutOfRange)
      else match JsValues.TrimmedText(firstName)
        case Blank => Failure(FirstNameRequired)
        case NotAString => Failure(JsValues.TrimTypeError("readerFirstName"))
        case Given(first) =>
          match JsValues.TrimmedText(lastName)
          case Blank => Failure(LastNameRequired)
          case NotAString => Failure(JsValues.TrimTypeError("readerLastName"))
          case Given(last) => Success(LoanArguments(JsValues.ParseInt(bookId).value, days, first, last))
  }

  /** Numbers and names that pass the checks are taken as `parseInt` reads
      them, the names trimmed: the number of days and, below 1e21, the book
      id as they are, and from there on only the book id's first digit. */
  lemma ArgumentsOfNumbersAndNames(bookId: int, days: int, firstName: string, lastName: string)
    requires bookId != 0 && 1 <= days <= 15
    requires JsValues.TrimmedText(JsValues.Str(firstName)).Given? && JsValues.TrimmedText(JsValues.Str(lastName)).Given?
    ensures ServiceArguments(JsValues.Num(bookId), JsValues.Num(days), JsValues.Str(firstName), JsValues.Str(lastName))
      == Success(LoanArguments(JsValues.ParseInt(JsValues.Num(bookId)).value, days, Text.Trim(firstName), Text.Trim(lastName)))
    ensures JsValues.Magnitude(bookId) < JsValues.ExponentialFrom ==> JsValues.ParseInt(JsValues.Num(bookId)).value == bookId
  {
    assert JsValues.Truthy(JsValues.Num(bookId)) && JsValues.ParseInt(JsValues.Num(bookId)).Some?;
    assert JsValues.Truthy(JsValues.Num(days)) && JsValues.ParseInt(JsValues.Num(days)) == Some(days);
  }

  // ----- The consistency of the two tables -----

  /** Some loan references the book. */
  predicate OnLoan(loans: map<int, Store.Loan>, bookId: int)
  {
    exists id | id in loans :: loans[id].bookId == bookId
  }

  /** No book is referenced by two loans. */
  predicate OneLoanPerBook(loans: map<int, Store.Loan>)
  {
    forall i, j | i in loans && j in loans && loans[i].bookId == loans[j].bookId :: i == j
  }

  /** A book is unavailable exactly when a loan references it. */
  predicate AvailabilityMatchesLoans(books: map<int, Store.Book>, loans: map<int, Store.Loan>)
  {
    forall b | b in books :: !books[b].available <==> OnLoan(loans, b)
  }

  predicate LoanInvariant(books: map<int, Store.Book>, loans: map<int, Store.Loan>)
  {
    Store.ReferencesExist(books, loans) && OneLoanPerBook(loans) && AvailabilityMatchesLoans(books, loans)
  }

  /** With no loan yet the tables are consistent exactly when every book is available. */
  lemma InitialInvariant(books: map<int, Store.Book>)
    ensures LoanInvariant(books, map[]) <==> forall b | b in books :: books[b].available
  {
    assert forall b :: !OnLoan(map[], b);
  }

  /** Lending an available book under a fresh id keeps the tables consistent. */
  lemma CreatePreservesInvariant(books: map<int, Store.Book>, loans: map<int, Store.Loan>, id: int, loan: Store.Loan)
    requires LoanInvariant(books, loans)
    requires loan.bookId in books && books[loan.bookId].available && id !in loans
    ensures LoanInvariant(BookService.SetAvailability(books, loan.bookId, false), loans[id := loan])
  {
    var books', loans' := BookService.SetAvailability(books, loan.bookId, false), loans[id := loan];
    assert !OnLoan(loans, loan.bookId);
    forall b | b in books'
      ensures !books'[b].available <==> OnLoan(loans', b)
    {
      if b == loan.bookId {
        assert loans'[id].bookId == b;
      } else {
        assert books'[b] == books[b];
        if OnLoan(loans, b) {
          var i :| i in loans && loans[i].bookId == b;
          assert loans'[i].bookId == b;
        }
        if OnLoan(loans', b) {
          var i :| i in loans' && loans'[i].bookId == b;
          assert loans[i].bookId == b;
        }
      }
    }
  }

  /** Taking back a loan and freeing its book keeps the tables consistent. */
  lemma ReturnPreservesInvariant(books: map<int, Store.Book>, loans: map<int, Store.Loan>, id: int)
    requires LoanInvariant(books, loans) && id in loans
    ensures LoanInvariant(BookService.SetAvailability(books, loans[id].bookId, true), loans - {id})
  {
    var b0 := loans[id].bookId;
    var books', loans' := BookService.SetAvailability(books, b0, true), loans - {id};
    forall b | b in books'
      ensures !books'[b].available <==> OnLoan(loans', b)
    {
      if b == b0 {
        forall i | i in loans'
          ensures loans'[i].bookId != b
        {
          assert loans'[i] == loans[i];
        }
      } else {
        assert books'[b] == books[b];
        if OnLoan(loans, b) {
          var i :| i in loans && loans[i].bookId == b;
          assert i in loans' && loans'[i].bookId == b;
        }
        if OnLoan(loans', b) {
          var i :| i in loans' && loans'[i].bookId == b;
          assert loans[i].bookId == b;
        }
      }
    }
  }

  /** Under the invariant a book on loan is never available, so it cannot be lent twice. */
  lemma LentBookIsUnavailable(books: map<int, Store.Book>, loans: map<int, Store.Loan>, bookId: int)
    requires LoanInvariant(books, loans)
    ensures OnLoan(loans, bookId) ==> !BookService.IsBookAvailable(books, bookId)
    ensures bookId in books ==> (BookService.IsBookAvailable(books, bookId) <==> !OnLoan(loans, bookId))
  {
    if OnLoan(loans, bookId) {
      var i :| i in loans && loans[i].bookId == bookId;
    }
  }

  // ----- createLoan -----

  /** A successful `createLoan`: the inserted row with its id, and the book as it was read. */
  datatype LoanCreated = LoanCreated(id: int, loan: Store.Loan, book: BookService.BookRow)

  /** The messages the argument checks of `createLoan` can produce. */
  function ArgumentMessages(): set<string>
  {
    {InvalidBookId, DaysNotANumber, DaysOutOfRange, FirstNameRequired, LastNameRequired,
     JsValues.TrimTypeError("readerFirstName"), JsValues.TrimTypeError("readerLastName")}
  }

  /** The refusals that come after the argument checks read differently from all of them. */
  lemma LaterMessagesAreDistinct()
    ensures BookMissing !in ArgumentMessages()
    ensures BookUnavailable !in ArgumentMessages()
    ensures InvalidLoanDate !in ArgumentMessages()
    ensures BookMissing != BookUnavailable && BookMissing != InvalidLoanDate && BookUnavailable != InvalidLoanDate
  {
    var first, last := JsValues.TrimTypeError("readerFirstName"), JsValues.TrimTypeError("readerLastName");
    assert |first| == 38 && |last| == 37;
    assert |InvalidBookId| == 27 && |DaysNotANumber| == 47 && |DaysOutOfRange| == 45;
    assert |FirstNameRequired| == 33 && |LastNameRequired| == 35;
    assert |BookMissing| == 38 && |BookUnavailable| == 45 && |InvalidLoanDate| == 26;
    assert BookMissing[0] != first[0];
    assert BookUnavailable[4] != DaysOutOfRange[4];
  }

  /** Formatting a calendar date and reading it back succeeds exactly for four-digit years. */
  lemma ReturnDateOfToday(today: Calendar.Date, days: int)
    requires Calendar.Valid(today)
    ensures CalculateReturnDate(Calendar.FormatDate(today), days).Failure? <==> !(1000 <= today.year <= 9999)
    ensures CalculateReturnDate(Calendar.FormatDate(today), days).Success? ==>
      CalculateReturnDate(Calendar.FormatDate(today), days).value == Calendar.FormatDate(ReturnDateFor(today, days))
  {
    Calendar.ParseFormat(today);
  }

  /** Why `createLoan` refuses, in the order it checks; `None` when it succeeds. */
  function CreateRejection(books: map<int, Store.Book>, bookId: JsValues.JsVal, daysRequested: JsValues.JsVal,
                           firstName: JsValues.JsVal, lastName: JsValues.JsVal, today: Calendar.Date): (r: Option<string>)
    requires Calendar.Valid(today)
    ensures r.None? <==>
      && ServiceArguments(bookId, daysRequested, firstName, lastName).Success?
      && BookService.IsBookAvailable(books, ServiceArguments(bookId, daysRequested, firstName, lastName).value.bookId)
      && 1000 <= today.year <= 9999
    ensures r == Some(BookMissing) <==>
      ServiceArguments(bookId, daysRequested, firstName, lastName).Success?
      && ServiceArguments(bookId, daysRequested, firstName, lastName).value.bookId !in books
    ensures r == Some(BookUnavailable) <==>
      ServiceArguments(bookId, daysRequested, firstName, lastName).Success?
      && ServiceArguments(bookId, daysRequested, firstName, lastName).value.bookId in books
      && !books[ServiceArguments(bookId, daysRequested, firstName, lastName).value.bookId].available
    ensures !ServiceArguments(bookId, daysRequested, firstName, lastName).Success? ==>
      r == Some(ServiceArguments(bookId, daysRequested, firstName, lastName).error)
    ensures (&& ServiceArguments(bookId, daysRequested, firstName, lastName).Success?
             && BookService.IsBookAvailable(books, ServiceArguments(bookId, daysRequested, firstName, lastName).value.bookId)
             && !(1000 <= today.year <= 9999))
      ==> r == Some(InvalidLoanDate)
  {
    var args := ServiceArguments(bookId, daysRequested, firstName, lastName);
    LaterMessagesAreDistinct();
    if args.Failure? then Some(args.error)
    else if args.value.bookId !in books then Some(BookMissing)
    else if !books[args.value.bookId].available then Some(BookUnavailable)
    else
      ReturnDateOfToday(today, args.value.days);
      if CalculateReturnDate(Calendar.FormatDate(today), args.value.days).Failure? then Some(InvalidLoanDate)
      else None
  }

  /** `createLoan(bookId, daysRequested, readerFirstName, readerLastName)` on
      the day `today`, as one transaction: every refusal rolls back and leaves
      both tables as they were; a success inserts one loan under the next id
      of the sequence and marks its book as lent. */
  method CreateLoan(db: Store.Database, bookId: JsValues.JsVal, daysRequested: JsValues.JsVal,
                    firstName: JsValues.JsVal, lastName: JsValues.JsVal, today: Calendar.Date)
    returns (r: Result<LoanCreated, string>)
    requires Calendar.Valid(today)
    modifies db
    ensures r.Failure? <==> CreateRejection(old(db.books), bookId, daysRequested, firstName, lastName, today).Some?
    ensures r.Failure? ==>
      && r.error == WrapCreateError(CreateRejection(old(db.books), bookId, daysRequested, firstName, lastName, today).value)
      && Text.Contains(r.error, CreatePrefix)
      && db.books == old(db.books) && db.loans == old(db.loans) && db.nextLoanId == old(db.nextLoanId)
    ensures r.Success? ==>
      var a := ServiceArguments(bookId, daysRequested, firstName, lastName).value;
      && r.value.id == old(db.nextLoanId)
      && r.value.loan == Store.Loan(a.bookId, today, ReturnDateFor(today, a.days), a.days, a.firstName, a.lastName)
      && r.value.book == BookService.BookRow(a.bookId, old(db.books)[a.bookId])
      && r.value.book.book.available
      && db.loans == old(db.loans)[r.value.id := r.value.loan]
      && db.books == BookService.SetAvailability(old(db.books), a.bookId, false)
      && db.nextLoanId == old(db.nextLoanId) + 1
    ensures r.Success? && old(db.WellFormed()) ==> r.value.id !in old(db.loans)
    ensures old(db.WellFormed()) ==> db.WellFormed()
    ensures old(db.WellFormed()) && old(LoanInvariant(db.books, db.loans)) ==> LoanInvariant(db.books, db.loans)
  {
    ghost var rejection := CreateRejection(db.books, bookId, daysRequested, firstName, lastName, today);
    var args := ServiceArguments(bookId, daysRequested, firstName, lastName);
    if args.Failure? {
      assert rejection == Some(args.error);
      return Failure(WrapCreateError(args.error));
    }
    var a := args.value;
    var book := BookService.GetBookById(db.books, a.bookId);
    if book.None? {
      assert rejection == Some(BookMissing);
      return Failure(WrapCreateError(BookMissing));
    }
    // The row re-read under the lock: the same row, since nothing else runs in between.
    if !db.books[a.bookId].available {
      assert rejection == Some(BookUnavailable);
      return Failure(WrapCreateError(BookUnavailable));
    }
    var loanDate := Calendar.FormatDate(today);
    var returnDate := CalculateReturnDate(loanDate, a.days);
    ReturnDateOfToday(today, a.days);
    if returnDate.Failure? {
      assert rejection == Some(InvalidLoanDate);
      return Failure(WrapCreateError(returnDate.error));
    }
    assert rejection == None;
    // The DATE columns hold the dates the two texts name.
    var loan := Store.Loan(a.bookId, today, ReturnDateFor(today, a.days), a.days, a.firstName, a.lastName);
    var id := InsertLoan(db, loan);
    r := Success(LoanCreated(id, loan, book.value));
  }

  /** The two writes of a loan: the row inserted under the next id of the
      sequence, and its book marked as lent. */
  method InsertLoan(db: Store.Database, loan: Store.Loan) returns (id: int)
    requires loan.bookId in db.books && db.books[loan.bookId].available
    modifies db
    ensures id == old(db.nextLoanId)
    ensures db.loans == old(db.loans)[id := loan]
    ensures db.books == BookService.SetAvailability(old(db.books), loan.bookId, false)
    ensures db.nextLoanId == old(db.nextLoanId) + 1
    ensures old(db.WellFormed()) ==> db.WellFormed() && id !in old(db.loans)
    ensures old(db.WellFormed()) && old(LoanInvariant(db.books, db.loans)) ==> LoanInvariant(db.books, db.loans)
  {
    id := db.nextLoanId;
    if db.WellFormed() && LoanInvariant(db.books, db.loans) {
      CreatePreservesInvariant(db.books, db.loans, id, loan);
    }
    db.loans := db.loans[id := loan];
    db.nextLoanId := db.nextLoanId + 1;
    BookService.MarkAsUnavailable(db, loan.bookId);
  }

  // ----- returnBook -----

  /** `returnBook(loanId)` as one transaction: the loan, found through its join
      with `books`, is deleted and its book is marked available; an unknown id
      rolls back and leaves both tables as they were. */
  method ReturnBook(db: Store.Database, loanId: int) returns (r: Result<string, string>)
    modifies db
    ensures r.Success? <==> loanId in old(db.loans) && old(db.loans)[loanId].bookId in old(db.books)
    ensures r.Success? ==>
      && r.value == BookReturned
      && db.books == BookService.SetAvailability(old(db.books), old(db.loans)[loanId].bookId, true)
      && db.loans == old(db.loans) - {loanId}
      && db.nextLoanId == old(db.nextLoanId)
    ensures r.Failure? ==>
      && r.error == ReturnPrefix + ": " + LoanNotFound
      && db.books == old(db.books) && db.loans == old(db.loans) && db.nextLoanId == old(db.nextLoanId)
    ensures old(db.WellFormed()) ==> db.WellFormed()
    ensures old(LoanInvariant(db.books, db.loans)) ==> LoanInvariant(db.books, db.loans)
  {
    if loanId !in db.loans || db.loans[loanId].bookId !in db.books {
      return Failure(ReturnPrefix + ": " + LoanNotFound);
    }
    var bookId := db.loans[loanId].bookId;
    if LoanInvariant(db.books, db.loans) {
      ReturnPreservesInvariant(db.books, db.loans, loanId);
    }
    BookService.MarkAsAvailable(db, bookId);
    db.loans := db.loans - {loanId};
    r := Success(BookReturned);
  }

  // ----- The read queries -----

  /** A loan joined with the title, author and code of its book. */
  datatype LoanRow = LoanRow(id: int, loan: Store.Loan, title: string, author: string, code: string)

  /** `row` is the join of loan `row.id` with its book. */
  predicate JoinedRow(books: map<int, Store.Book>, loans: map<int, Store.Loan>, row: LoanRow)
  {
    && row.id in loans && row.loan == loans[row.id] && row.loan.bookId in books
    && var b := books[row.loan.bookId];
       row.title == b.title && row.author == b.author && row.code == b.code
  }

  function Joined(books: map<int, Store.Book>, loans: map<int, Store.Loan>, id: int): LoanRow
    requires id in loans && loans[id].bookId in books
  {
    var b := books[loans[id].bookId];
    LoanRow(id, loans[id], b.title, b.author, b.code)
  }

  ghost predicate RowsKeyedById(rows: set<LoanRow>)
  {
    forall x, y | x in rows && y in rows && x.id == y.id :: x == y
  }

  /** ORDER BY l.loan_date DESC; equal dates in id order. */
  predicate LaterLoan(x: LoanRow, y: LoanRow)
  {
    var dx, dy := Calendar.DayNumber(x.loan.loanDate), Calendar.DayNumber(y.loan.loanDate);
    dx > dy || (dx == dy && x.id < y.id)
  }

  /** ORDER BY l.return_date ASC; equal dates in id order. */
  predicate EarlierReturn(x: LoanRow, y: LoanRow)
  {
    var dx, dy := Calendar.DayNumber(x.loan.returnDate), Calendar.DayNumber(y.loan.returnDate);
    dx < dy || (dx == dy && x.id < y.id)
  }

  lemma LoanOrdersAreStrict(rows: set<LoanRow>)
    requires RowsKeyedById(rows)
    ensures Ordering.StrictOrderOn(rows, LaterLoan)
    ensures Ordering.StrictOrderOn(rows, EarlierReturn)
  {
  }

  /** `getAllLoans()`: every loan joined with its book, latest loan date first. */
  function GetAllLoans(books: map<int, Store.Book>, loans: map<int, Store.Loan>): (r: seq<LoanRow>)
    ensures forall row :: row in r <==> JoinedRow(books, loans, row)
    ensures forall i, j | 0 <= i < j < |r| ::
      Calendar.DayNumber(r[j].loan.loanDate) <= Calendar.DayNumber(r[i].loan.loanDate)
    ensures forall i, j | 0 <= i < j < |r| :: r[i].id != r[j].id
  {
    var rows := set id | id in loans && loans[id].bookId in books :: Joined(books, loans, id);
    LoanOrdersAreStrict(rows);
    Ordering.SortSet(rows, LaterLoan)
  }

  /** With every reference intact, no loan is lost in the join. */
  lemma AllLoansListed(books: map<int, Store.Book>, loans: map<int, Store.Loan>)
    requires Store.ReferencesExist(books, loans)
    ensures |GetAllLoans(books, loans)| == |loans|
  {
    var r := GetAllLoans(books, loans);
    var rows := set id | id in loans && loans[id].bookId in books :: Joined(books, loans, id);
    assert rows == set id | id in loans.Keys :: Joined(books, loans, id);
    JoinedCount(books, loans, loans.Keys);
    assert |r| == |rows| by {
      assert forall row :: row in r <==> row in rows;
      DistinctRows(r, rows);
    }
  }

  lemma {:induction false} JoinedCount(books: map<int, Store.Book>, loans: map<int, Store.Loan>, ids: set<int>)
    requires ids <= loans.Keys && Store.ReferencesExist(books, loans)
    ensures |set id | id in ids :: Joined(books, loans, id)| == |ids|
    decreases |ids|
  {
    if ids != {} {
      var k := Ordering.Pick(ids);
      JoinedCount(books, loans, ids - {k});
      assert (set id | id in ids :: Joined(books, loans, id))
        == (set id | id in ids - {k} :: Joined(books, loans, id)) + {Joined(books, loans, k)};
    }
  }

  /** A list of distinct rows holding exactly the rows of a set is as long as the set. */
  lemma {:induction false} DistinctRows(r: seq<LoanRow>, rows: set<LoanRow>)
    requires forall row :: row in r <==> row in rows
    requires forall i, j | 0 <= i < j < |r| :: r[i].id != r[j].id
    ensures |r| == |rows|
    decreases |r|
  {
    if r != [] {
      var last := r[|r| - 1];
      var init := r[..|r| - 1];
      assert last !in init;
      forall row
        ensures row in init <==> row in rows - {last}
      {
        if row in rows - {last} {
          var i :| 0 <= i < |r| && r[i] == row;
          assert init[i] == row;
        }
      }
      DistinctRows(init, rows - {last});
    }
  }

  const Overdue := "Vencido"
  const DueToday := "Vence hoy"
  const Active := "Activo"

  /** The CASE label of a loan due on `returnDate`, seen on `today`. */
  function LoanStatus(returnDate: Calendar.Date, today: Calendar.Date): (s: string)
    ensures s == Overdue <==> Calendar.DayNumber(returnDate) < Calendar.DayNumber(today)
    ensures s == DueToday <==> Calendar.DayNumber(returnDate) == Calendar.DayNumber(today)
    ensures s == Active <==> Calendar.DayNumber(returnDate) > Calendar.DayNumber(today)
  {
    var r, t := Calendar.DayNumber(returnDate), Calendar.DayNumber(today);
    if r < t then Overdue else if r == t then DueToday else Active
  }

  /** A row of `getActiveLoans()`: the joined loan and its label. */
  datatype ActiveLoan = ActiveLoan(row: LoanRow, status: string)

  /** Due no earlier than yesterday: `return_date >= CURRENT_DATE - INTERVAL '1 day'`. */
  predicate StillListed(loan: Store.Loan, today: Calendar.Date)
  {
    Calendar.DayNumber(loan.returnDate) >= Calendar.DayNumber(today) - 1
  }

  /** `getActiveLoans()` on the day `today`: the loans due yesterday or later,
      each labelled, the soonest due first. */
  function GetActiveLoans(books: map<int, Store.Book>, loans: map<int, Store.Loan>, today: Calendar.Date): (r: seq<ActiveLoan>)
    ensures forall a :: a in r <==>
      JoinedRow(books, loans, a.row) && StillListed(a.row.loan, today) && a.status == LoanStatus(a.row.loan.returnDate, today)
    ensures forall i, j | 0 <= i < j < |r| ::
      Calendar.DayNumber(r[i].row.loan.returnDate) <= Calendar.DayNumber(r[j].row.loan.returnDate)
    ensures forall i, j | 0 <= i < j < |r| :: r[i].row.id != r[j].row.id
  {
    var rows := set id | id in loans && loans[id].bookId in books && StillListed(loans[id], today) :: Joined(books, loans, id);
    LoanOrdersAreStrict(rows);
    var sorted := Ordering.SortSet(rows, EarlierReturn);
    Labelled(sorted, today)
  }

  /** Each row with the label of its return date. */
  function Labelled(rows: seq<LoanRow>, today: Calendar.Date): (r: seq<ActiveLoan>)
    ensures |r| == |rows|
    ensures forall i | 0 <= i < |r| :: r[i].row == rows[i]
    ensures forall a :: a in r <==> a.row in rows && a.status == LoanStatus(a.row.loan.returnDate, today)
  {
    var r := seq(|rows|, i requires 0 <= i < |rows| => ActiveLoan(rows[i], LoanStatus(rows[i].loan.returnDate, today)));
    forall a: ActiveLoan | a.row in rows && a.status == LoanStatus(a.row.loan.returnDate, today)
      ensures a in r
    {
      var i :| 0 <= i < |rows| && rows[i] == a.row;
      assert r[i] == a;
    }
    r
  }

  /** An overdue loan stays on the active list for one day only: every
      "Vencido" row there was due exactly yesterday. */
  lemma ListedOverdueIsOneDayLate(books: map<int, Store.Book>, loans: map<int, Store.Loan>, today: Calendar.Date)
    ensures forall a | a in GetActiveLoans(books, loans, today) && a.status == Overdue ::
      Calendar.DayNumber(a.row.loan.returnDate) == Calendar.DayNumber(today) - 1
  {
  }

  /** The five counts of `getStatistics()`. */
  datatype Statistics = Statistics(totalBooks: nat, availableBooks: nat, loanedBooks: nat, activeLoans: nat, overdueLoans: nat)

  function AvailableIds(books: map<int, Store.Book>): set<int>
  {
    set b | b in books && books[b].available
  }

  function LoanedIds(books: map<int, Store.Book>): set<int>
  {
    set b | b in books && !books[b].available
  }

  /** The loans due on day `t` or later. */
  function ActiveIds(loans: map<int, Store.Loan>, t: int): set<int>
  {
    set id | id in loans && Calendar.DayNumber(loans[id].returnDate) >= t
  }

  /** The loans due before day `t`. */
  function OverdueIds(loans: map<int, Store.Loan>, t: int): set<int>
  {
    set id | id in loans && Calendar.DayNumber(loans[id].returnDate) < t
  }

  /** Every book is either available or lent, and not both. */
  lemma BooksPartition(books: map<int, Store.Book>)
    ensures |AvailableIds(books)| + |LoanedIds(books)| == |books|
  {
    assert AvailableIds(books) + LoanedIds(books) == books.Keys;
    assert AvailableIds(books) * LoanedIds(books) == {};
  }

  /** Every loan is either still running or overdue, and not both. */
  lemma LoansPartition(loans: map<int, Store.Loan>, t: int)
    ensures |ActiveIds(loans, t)| + |OverdueIds(loans, t)| == |loans|
  {
    assert ActiveIds(loans, t) + OverdueIds(loans, t) == loans.Keys;
    assert ActiveIds(loans, t) * OverdueIds(loans, t) == {};
  }

  /** `getStatistics()` on the day `today`. */
  function GetStatistics(books: map<int, Store.Book>, loans: map<int, Store.Loan>, today: Calendar.Date): (r: Statistics)
    ensures r.totalBooks == |books|
    ensures r.availableBooks == |AvailableIds(books)| && r.loanedBooks == |LoanedIds(books)|
    ensures r.activeLoans == |ActiveIds(loans, Calendar.DayNumber(today))|
    ensures r.overdueLoans == |OverdueIds(loans, Calendar.DayNumber(today))|
    ensures r.availableBooks + r.loanedBooks == r.totalBooks
    ensures r.activeLoans + r.overdueLoans == |loans|
  {
    var t := Calendar.DayNumber(today);
    BooksPartition(books);
    LoansPartition(loans, t);
    Statistics(|books|, |AvailableIds(books)|, |LoanedIds(books)|, |ActiveIds(loans, t)|, |OverdueIds(loans, t)|)
  }

  /** Under the invariant the lent books are counted once per loan. */
  lemma StatisticsMatchLoans(books: map<int, Store.Book>, loans: map<int, Store.Loan>, today: Calendar.Date)
    requires LoanInvariant(books, loans)
    ensures GetStatistics(books, loans, today).loanedBooks == |loans|
    ensures GetStatistics(books, loans, today).availableBooks == |books| - |loans|
  {
    var lent := set id | id in loans :: loans[id].bookId;
    forall b
      ensures b in LoanedIds(books) <==> b in lent
    {
      if b in lent {
        var i :| i in loans && loans[i].bookId == b;
      }
    }
    assert LoanedIds(books) == lent;
    assert lent == set id | id in loans.Keys :: loans[id].bookId;
    BookIdsCount(loans, loans.Keys);
  }

  lemma {:induction false} BookIdsCount(loans: map<int, Store.Loan>, ids: set<int>)
    requires ids <= loans.Keys && OneLoanPerBook(loans)
    ensures |set id | id in ids :: loans[id].bookId| == |ids|
    decreases |ids|
  {
    if ids != {} {
      var k := Ordering.Pick(ids);
      BookIdsCount(loans, ids - {k});
      assert (set id | id in ids :: loans[id].bookId)
        == (set id | id in ids - {k} :: loans[id].bookId) + {loans[k].bookId};
    }
  }
}
