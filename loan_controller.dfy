/**
 * The HTTP side of lending: the checks the controller runs on a loan request
 * before it calls the service, the status code it gives a service error, and
 * the two handlers that lend and take back a book.
 */
module LoanController {
  import opened Wrappers
  import Text
  import JsValues
  import Calendar
  import Store
  import BookService
  import LoanService

  /** The four fields of the JSON body of `POST /api/loans`. */
  datatype LoanRequest = LoanRequest(
    bookId: JsValues.JsVal,
    daysRequested: JsValues.JsVal,
    readerFirstName: JsValues.JsVal,
    readerLastName: JsValues.JsVal)

  /** Either the normalised arguments the service is called with, or the
      response the controller gives without calling it. */
  datatype Validation = Accepted(args: LoanService.LoanArguments) | Rejected(status: int, message: string)

  /** A response: its status code and the `message` of its body. */
  datatype Response = Response(status: int, message: string)

  const BookIdRequired := "El ID del libro es requerido"
  const DaysRequired := "Los días de préstamo son requeridos"
  const BookIdNotANumber := "El ID del libro debe ser un número válido"
  const DaysNotANumber := "Los días de préstamo deben ser un número"
  const DaysTooFew := "Los días de préstamo deben ser al menos 1"
  const DaysTooMany := "Los días de préstamo no pueden exceder 15 días"
  const LoanRegistered := "Préstamo registrado exitosamente"
  const CreateFallback := "Error al crear el préstamo"
  const ReturnFallback := "Error al devolver el libro"

  // ----- Classifying an error -----

  /** A message naming a missing or unavailable book or an out-of-range argument. */
  predicate IsBadRequest(message: string)
  {
    Text.Contains(message, "no existe") || Text.Contains(message, "no está disponible")
    || Text.Contains(message, "inválido") || Text.Contains(message, "deben estar entre")
  }

  /** A message about authorisation. */
  predicate IsForbidden(message: string)
  {
    Text.Contains(message, "no autorizado") || Text.Contains(message, "permiso")
  }

  /** The status the catch block of `createLoan` gives an error with this message. */
  function ErrorStatus(message: string): (status: int)
    ensures status == 400 || status == 403 || status == 500
    ensures status == 400 <==> IsBadRequest(message)
    ensures status == 403 <==> !IsBadRequest(message) && IsForbidden(message)
    ensures status == 500 <==> !IsBadRequest(message) && !IsForbidden(message)
  {
    if IsBadRequest(message) then 400 else if IsForbidden(message) then 403 else 500
  }

  /** `error.message || fallback`: an empty message is replaced. */
  function MessageOr(message: string, fallback: string): (r: string)
    ensures message != [] ==> r == message
    ensures message == [] ==> r == fallback
  {
    if message == [] then fallback else message
  }

  /** The TypeError of `.trim()` on a non-string name falls through every test
      of the classifier and becomes a server error. */
  lemma TrimTypeErrorIsServerError()
    ensures ErrorStatus(JsValues.TrimTypeError("readerFirstName")) == 500
    ensures ErrorStatus(JsValues.TrimTypeError("readerLastName")) == 500
  {
    assert LacksNeedleCharacters("readerFirstName");
    assert LacksNeedleCharacters("readerLastName");
    TypeErrorOfNameIsServerError("readerFirstName");
    TypeErrorOfNameIsServerError("readerLastName");
  }

  /** None of the characters that tell the classifier's needles apart. */
  predicate LacksNeedleCharacters(s: string)
  {
    'x' !in s && 'á' !in s && 'b' !in s && 'z' !in s && 'p' !in s
  }

  lemma TypeErrorSuffix()
    ensures LacksNeedleCharacters(".trim") && LacksNeedleCharacters(" is not") && LacksNeedleCharacters(" a function")
  {
  }

  /** Each needle of the classifier holds a character that neither the name nor
      the rest of the TypeError message holds. */
  lemma TypeErrorOfNameIsServerError(name: string)
    requires LacksNeedleCharacters(name)
    ensures ErrorStatus(JsValues.TrimTypeError(name)) == 500
  {
    var e := JsValues.TrimTypeError(name);
    TypeErrorSuffix();
    assert LacksNeedleCharacters(e);
    assert !IsBadRequest(e) by {
      assert "no existe"[4] == 'x';
      assert "no está disponible"[6] == 'á';
      assert "inválido"[3] == 'á';
      assert "deben estar entre"[2] == 'b';
      Text.LacksCharacter(e, "no existe", 'x');
      Text.LacksCharacter(e, "no está disponible", 'á');
      Text.LacksCharacter(e, "inválido", 'á');
      Text.LacksCharacter(e, "deben estar entre", 'b');
    }
    assert !IsForbidden(e) by {
      assert "no autorizado"[9] == 'z';
      assert "permiso"[0] == 'p';
      Text.LacksCharacter(e, "no autorizado", 'z');
      Text.LacksCharacter(e, "permiso", 'p');
    }
  }

  /** A missing or lent book, wrapped or not, is a bad request. */
  lemma BookRefusalsAreBadRequests()
    ensures ErrorStatus(LoanService.WrapCreateError(LoanService.BookMissing)) == 400
    ensures ErrorStatus(LoanService.WrapCreateError(LoanService.BookUnavailable)) == 400
  {
    var missing, lent := LoanService.BookMissing, LoanService.BookUnavailable;
    Text.OccursByCharacters(missing, "no existe", 9);
    Text.OccursByCharacters(lent, "no está disponible", 9);
    Text.ContainsTransitive(LoanService.WrapCreateError(missing), missing, "no existe");
    Text.ContainsTransitive(LoanService.WrapCreateError(lent), lent, "no está disponible");
  }

  // ----- Validating a request -----

  /** `parseInt(bookId)` is a number and greater than zero. */
  predicate PositiveId(v: JsValues.JsVal)
  {
    JsValues.ParseInt(v).Some? && JsValues.ParseInt(v).value > 0
  }

  /** The first four guards pass: both numbers present, both names non-blank strings. */
  predicate NamesGiven(req: LoanRequest)
  {
    && !JsValues.Absent(req.bookId) && !JsValues.Absent(req.daysRequested)
    && JsValues.TrimmedText(req.readerFirstName).Given? && JsValues.TrimmedText(req.readerLastName).Given?
  }

  /** The guards of `createLoan`, in their order; the first that fails gives the response. */
  function ValidateCreateLoan(req: LoanRequest): (r: Validation)
    ensures r == Rejected(400, BookIdRequired) <==> JsValues.Absent(req.bookId)
    ensures r == Rejected(400, DaysRequired) <==> !JsValues.Absent(req.bookId) && JsValues.Absent(req.daysRequested)
    ensures r == Rejected(400, LoanService.FirstNameRequired) <==>
      !JsValues.Absent(req.bookId) && !JsValues.Absent(req.daysRequested)
      && JsValues.TrimmedText(req.readerFirstName).Blank?
    ensures r == Rejected(400, LoanService.LastNameRequired) <==>
      !JsValues.Absent(req.bookId) && !JsValues.Absent(req.daysRequested)
      && JsValues.TrimmedText(req.readerFirstName).Given? && JsValues.TrimmedText(req.readerLastName).Blank?
    ensures r == Rejected(500, JsValues.TrimTypeError("readerFirstName")) <==>
      !JsValues.Absent(req.bookId) && !JsValues.Absent(req.daysRequested)
      && JsValues.TrimmedText(req.readerFirstName).NotAString?
    ensures r == Rejected(500, JsValues.TrimTypeError("readerLastName")) <==>
      !JsValues.Absent(req.bookId) && !JsValues.Absent(req.daysRequested)
      && JsValues.TrimmedText(req.readerFirstName).Given? && JsValues.TrimmedText(req.readerLastName).NotAString?
    ensures r == Rejected(400, BookIdNotANumber) <==>
      NamesGiven(req) && !PositiveId(req.bookId)
    ensures r == Rejected(400, DaysNotANumber) <==>
      NamesGiven(req) && PositiveId(req.bookId) && JsValues.ParseInt(req.daysRequested).None?
    ensures r == Rejected(400, DaysTooFew) <==>
      NamesGiven(req) && PositiveId(req.bookId)
      && JsValues.ParseInt(req.daysRequested).Some? && JsValues.ParseInt(req.daysRequested).value < 1
    ensures r == Rejected(400, DaysTooMany) <==>
      NamesGiven(req) && PositiveId(req.bookId)
      && JsValues.ParseInt(req.daysRequested).Some? && JsValues.ParseInt(req.daysRequested).value > 15
    ensures r.Accepted? <==>
      && NamesGiven(req) && PositiveId(req.bookId)
      && JsValues.ParseInt(req.daysRequested).Some? && 1 <= JsValues.ParseInt(req.daysRequested).value <= 15
    ensures r.Accepted? ==> r.args == LoanService.LoanArguments(
      JsValues.ParseInt(req.bookId).value, JsValues.ParseInt(req.daysRequested).value,
      JsValues.TrimmedText(req.readerFirstName).trimmed, JsValues.TrimmedText(req.readerLastName).trimmed)
    ensures r.Accepted? ==>
      && r.args.bookId > 0 && 1 <= r.args.days <= 15
      && r.args.firstName != [] && Text.Trim(r.args.firstName) == r.args.firstName
      && r.args.lastName != [] && Text.Trim(r.args.lastName) == r.args.lastName
  {
    TrimTypeErrorIsServerError();
    TrimmedNameStays(req.readerFirstName);
    TrimmedNameStays(req.readerLastName);
    if JsValues.Absent(req.bookId) then Rejected(400, BookIdRequired)
    else if JsValues.Absent(req.daysRequested) then Rejected(400, DaysRequired)
    else match JsValues.TrimmedText(req.readerFirstName)
      case Blank => Rejected(400, LoanService.FirstNameRequired)
      case NotAString =>
        var m := JsValues.TrimTypeError("readerFirstName");
        Rejected(ErrorStatus(m), m)
      case Given(first) =>
        match JsValues.TrimmedText(req.readerLastName)
        case Blank => Rejected(400, LoanService.LastNameRequired)
        case NotAString =>
          var m := JsValues.TrimTypeError("readerLastName");
          Rejected(ErrorStatus(m), m)
        case Given(last) =>
          if !PositiveId(req.bookId) then Rejected(400, BookIdNotANumber)
          else match JsValues.ParseInt(req.daysRequested)
            case None => Rejected(400, DaysNotANumber)
            case Some(days) =>
              if days < 1 then Rejected(400, DaysTooFew)
              else if days > 15 then Rejected(400, DaysTooMany)
              else Accepted(LoanService.LoanArguments(JsValues.ParseInt(req.bookId).value, days, first, last))
  }

  /** The arguments as the service reads them back. The controller hands it
      the book id as a number, and `parseInt` of that number reads its text
      `String(id)`: the id itself below 1e21, only its first digit from there
      on. The days and the trimmed names come through as they are. */
  function AsReadByService(a: LoanService.LoanArguments): (r: LoanService.LoanArguments)
    ensures r.days == a.days && r.firstName == a.firstName && r.lastName == a.lastName
    ensures JsValues.Magnitude(a.bookId) < JsValues.ExponentialFrom ==> r == a
    ensures a.bookId >= JsValues.ExponentialFrom ==> r.bookId == JsValues.LeadingDigit(a.bookId)
    ensures a.bookId > 0 ==> r.bookId > 0
  {
    a.(bookId := JsValues.ParseInt(JsValues.Num(a.bookId)).value)
  }

  /** Arguments in the controller's normal form pass every check of the
      service, which reads them back as `AsReadByService` says. */
  lemma NormalisedArgumentsPassTheService(a: LoanService.LoanArguments)
    requires a.bookId > 0 && 1 <= a.days <= 15
    requires a.firstName != [] && Text.Trim(a.firstName) == a.firstName
    requires a.lastName != [] && Text.Trim(a.lastName) == a.lastName
    ensures LoanService.ServiceArguments(JsValues.Num(a.bookId), JsValues.Num(a.days),
      JsValues.Str(a.firstName), JsValues.Str(a.lastName)) == Success(AsReadByService(a))
  {
    TrimmedIsGiven(a.firstName);
    TrimmedIsGiven(a.lastName);
    LoanService.ArgumentsOfNumbersAndNames(a.bookId, a.days, a.firstName, a.lastName);
  }

  /** A book id written out in full from 1e21 on passes the guards as that
      number, and the service, reading its text `String(id)` in exponential
      notation, looks up the book numbered by its first digit: for
      `"1000000000000000000000"` that is `"1e+21"`, book 1. */
  lemma LargeBookIdReadsFirstDigit(req: LoanRequest, n: nat)
    requires n >= JsValues.ExponentialFrom
    requires req.bookId == JsValues.Str(Text.NatToDecimal(n)) && req.daysRequested == JsValues.Num(7)
    requires JsValues.TrimmedText(req.readerFirstName).Given? && JsValues.TrimmedText(req.readerLastName).Given?
    ensures ValidateCreateLoan(req).Accepted?
    ensures ValidateCreateLoan(req).args.bookId == n
    ensures AsReadByService(ValidateCreateLoan(req).args).bookId == JsValues.LeadingDigit(n)
  {
    JsValues.ParseIntOfDigits(n, []);
    assert Text.NatToDecimal(n) + [] == Text.NatToDecimal(n);
    assert JsValues.ParseInt(req.bookId) == Some(n);
    assert JsValues.ParseInt(req.daysRequested) == Some(7);
  }

  lemma TrimmedIsGiven(name: string)
    requires name != [] && Text.Trim(name) == name
    ensures JsValues.TrimmedText(JsValues.Str(name)) == JsValues.Given(name)
  {
  }

  /** A name the controller has trimmed is trimmed again to itself by the service. */
  lemma TrimmedNameStays(v: JsValues.JsVal)
    ensures JsValues.TrimmedText(v).Given? ==>
      var t := JsValues.TrimmedText(v).trimmed;
      Text.Trim(t) == t && JsValues.TrimmedText(JsValues.Str(t)) == JsValues.Given(t)
  {
    if v.Str? {
      Text.TrimIdempotent(v.s);
    }
  }

  // ----- The handlers -----

  /** `POST /api/loans` on the day `today`: the guards, then the service, then the
      status of its outcome. */
  method CreateLoan(db: Store.Database, req: LoanRequest, today: Calendar.Date)
    returns (res: Response, data: Option<LoanService.LoanCreated>)
    requires Calendar.Valid(today)
    modifies db
    ensures ValidateCreateLoan(req).Rejected? ==>
      && res == Response(ValidateCreateLoan(req).status, ValidateCreateLoan(req).message) && data == None
      && db.books == old(db.books) && db.loans == old(db.loans) && db.nextLoanId == old(db.nextLoanId)
    ensures ValidateCreateLoan(req).Accepted? ==>
      var a := AsReadByService(ValidateCreateLoan(req).args);
      && (res.status == 201 <==> BookService.IsBookAvailable(old(db.books), a.bookId) && 1000 <= today.year <= 9999)
      && (res.status == 201 ==>
            && res.message == LoanRegistered && data == Some(Created(old(db.books), old(db.nextLoanId), a, today))
            && db.loans == old(db.loans)[old(db.nextLoanId) := data.value.loan]
            && db.books == BookService.SetAvailability(old(db.books), a.bookId, false)
            && db.nextLoanId == old(db.nextLoanId) + 1)
      && (res.status != 201 ==>
            data == None && db.books == old(db.books) && db.loans == old(db.loans) && db.nextLoanId == old(db.nextLoanId))
      && (!BookService.IsBookAvailable(old(db.books), a.bookId) ==> res.status == 400)
      && (res.status != 201 ==> res.status == ErrorStatus(res.message) && Text.Contains(res.message, LoanService.CreatePrefix))
    ensures old(db.WellFormed()) ==> db.WellFormed()
    ensures old(db.WellFormed()) && old(LoanService.LoanInvariant(db.books, db.loans)) ==>
      LoanService.LoanInvariant(db.books, db.loans)
  {
    var v := ValidateCreateLoan(req);
    if v.Rejected? {
      return Response(v.status, v.message), None;
    }
    res, data := CallService(db, v.args, today);
  }

  /** For arguments in normal form the service refuses only a book that is
      missing or lent, or a date it cannot write with four year digits. */
  lemma RejectionOfNormalised(books: map<int, Store.Book>, a: LoanService.LoanArguments, today: Calendar.Date)
    requires Calendar.Valid(today)
    requires a.bookId > 0 && 1 <= a.days <= 15
    requires a.firstName != [] && Text.Trim(a.firstName) == a.firstName
    requires a.lastName != [] && Text.Trim(a.lastName) == a.lastName
    ensures LoanService.ServiceArguments(JsValues.Num(a.bookId), JsValues.Num(a.days),
      JsValues.Str(a.firstName), JsValues.Str(a.lastName)) == Success(AsReadByService(a))
    ensures var rejection := LoanService.CreateRejection(books, JsValues.Num(a.bookId), JsValues.Num(a.days),
      JsValues.Str(a.firstName), JsValues.Str(a.lastName), today);
      && (rejection.None? <==> BookService.IsBookAvailable(books, AsReadByService(a).bookId) && 1000 <= today.year <= 9999)
      && (!BookService.IsBookAvailable(books, AsReadByService(a).bookId) ==>
            rejection == Some(LoanService.BookMissing) || rejection == Some(LoanService.BookUnavailable))
  {
    NormalisedArgumentsPassTheService(a);
  }

  /** The status and message the catch block gives a refusal of the service. */
  lemma RefusalStatus(e: string)
    requires Text.Contains(e, LoanService.CreatePrefix)
    ensures MessageOr(e, CreateFallback) == e
    ensures e == LoanService.WrapCreateError(LoanService.BookMissing) ==> ErrorStatus(e) == 400
    ensures e == LoanService.WrapCreateError(LoanService.BookUnavailable) ==> ErrorStatus(e) == 400
  {
    var i :| 0 <= i <= |e| - |LoanService.CreatePrefix| && Text.OccursAt(e, LoanService.CreatePrefix, i);
    BookRefusalsAreBadRequests();
  }

  /** What a successful loan returns: the new id, the inserted row and the book
      as it was read. The book must be in the catalog. */
  function Created(books: map<int, Store.Book>, id: int, a: LoanService.LoanArguments, today: Calendar.Date): (c: LoanService.LoanCreated)
    requires Calendar.Valid(today) && a.bookId in books
    ensures c.id == id && c.loan.bookId == a.bookId && c.book.id == a.bookId
  {
    LoanService.LoanCreated(id,
      Store.Loan(a.bookId, today, LoanService.ReturnDateFor(today, a.days), a.days, a.firstName, a.lastName),
      BookService.BookRow(a.bookId, books[a.bookId]))
  }

  /** The service call of `createLoan` with the validated arguments. */
  method CallService(db: Store.Database, a: LoanService.LoanArguments, today: Calendar.Date)
    returns (res: Response, data: Option<LoanService.LoanCreated>)
    requires Calendar.Valid(today)
    requires a.bookId > 0 && 1 <= a.days <= 15
    requires a.firstName != [] && Text.Trim(a.firstName) == a.firstName
    requires a.lastName != [] && Text.Trim(a.lastName) == a.lastName
    modifies db
    ensures res.status == 201 <==> BookService.IsBookAvailable(old(db.books), AsReadByService(a).bookId) && 1000 <= today.year <= 9999
    ensures res.status == 201 ==> res.message == LoanRegistered && data == Some(Created(old(db.books), old(db.nextLoanId), AsReadByService(a), today))
    ensures res.status == 201 ==>
      && db.loans == old(db.loans)[old(db.nextLoanId) := data.value.loan]
      && db.books == BookService.SetAvailability(old(db.books), AsReadByService(a).bookId, false)
      && db.nextLoanId == old(db.nextLoanId) + 1
    ensures res.status != 201 ==>
      data == None && db.books == old(db.books) && db.loans == old(db.loans) && db.nextLoanId == old(db.nextLoanId)
    ensures !BookService.IsBookAvailable(old(db.books), AsReadByService(a).bookId) ==> res.status == 400
    ensures res.status != 201 ==> res.status == ErrorStatus(res.message) && Text.Contains(res.message, LoanService.CreatePrefix)
    ensures old(db.WellFormed()) ==> db.WellFormed()
    ensures old(db.WellFormed()) && old(LoanService.LoanInvariant(db.books, db.loans)) ==>
      LoanService.LoanInvariant(db.books, db.loans)
  {
    RejectionOfNormalised(db.books, a, today);
    var r := LoanService.CreateLoan(db, JsValues.Num(a.bookId), JsValues.Num(a.days),
                                    JsValues.Str(a.firstName), JsValues.Str(a.lastName), today);
    match r
    case Success(loan) =>
      res, data := Response(201, LoanRegistered), Some(loan);
    case Failure(e) =>
      RefusalStatus(e);
      var m := MessageOr(e, CreateFallback);
      res, data := Response(ErrorStatus(m), m), None;
  }

  /** `POST /api/loans/return/:id`: every failure of the service, an unknown loan
      included, is a server error carrying the service's message. */
  method ReturnBook(db: Store.Database, loanId: int) returns (res: Response)
    modifies db
    ensures res.status == 200 || res.status == 500
    ensures res.status == 200 <==> loanId in old(db.loans) && old(db.loans)[loanId].bookId in old(db.books)
    ensures res.status == 200 ==>
      && res.message == LoanService.BookReturned
      && db.books == BookService.SetAvailability(old(db.books), old(db.loans)[loanId].bookId, true)
      && db.loans == old(db.loans) - {loanId}
    ensures res.status == 500 ==>
      && res.message == LoanService.ReturnPrefix + ": " + LoanService.LoanNotFound
      && db.books == old(db.books) && db.loans == old(db.loans)
    ensures db.nextLoanId == old(db.nextLoanId)
    ensures old(LoanService.LoanInvariant(db.books, db.loans)) ==> LoanService.LoanInvariant(db.books, db.loans)
  {
    var r := LoanService.ReturnBook(db, loanId);
    match r
    case Success(message) =>
      res := Response(200, message);
    case Failure(e) =>
      res := Response(500, MessageOr(e, ReturnFallback));
  }
}
