/**
 * The two tables of the relational store, held in memory: `books` and `loans`
 * keyed by id, and the sequence that numbers new loans. Both services read and
 * write the same object, as both share one connection pool in the system.
 */
module Store {
  import Calendar

  /** A row of `books` without its id. */
  datatype Book = Book(title: string, author: string, code: string, available: bool)

  /** A row of `loans` without its id. */
  datatype Loan = Loan(
    bookId: int,
    loanDate: Calendar.Date,
    returnDate: Calendar.Date,
    daysRequested: int,
    readerFirstName: string,
    readerLastName: string)

  /** The foreign key `loans.book_id`: every loan references an existing book. */
  predicate ReferencesExist(books: map<int, Book>, loans: map<int, Loan>)
  {
    forall id | id in loans :: loans[id].bookId in books
  }

  class Database {
    var books: map<int, Book>
    var loans: map<int, Loan>
    /** The next value of the SERIAL sequence behind `loans.id`. */
    var nextLoanId: int

    /** A store holding the given catalog and no loan yet. */
    constructor (catalog: map<int, Book>)
      ensures books == catalog && loans == map[] && nextLoanId == 1
      ensures WellFormed()
    {
      books := catalog;
      loans := map[];
      nextLoanId := 1;
    }

    /** What the schema itself guarantees: every loan id was handed out by the
        sequence, and `loans.book_id` references an existing book. */
    ghost predicate WellFormed()
      reads this
    {
      && (forall id | id in loans :: id < nextLoanId)
      && ReferencesExist(books, loans)
    }
  }
}
