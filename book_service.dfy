/**
 * The catalog accessor: lookups, title-ordered listings and the ILIKE search
 * over the `books` table, and the two updates of a book's `available` flag.
 */
module BookService {
  import opened Wrappers
  import Text
  import Ordering
  import Store

  /** A row the catalog queries return: the book's id and its columns. */
  datatype BookRow = BookRow(id: int, book: Store.Book)

  // ----- SQL LIKE, with PostgreSQL's default escape character -----

  /** `s LIKE p`: `%` matches any run of characters, `_` any one character,
      a backslash makes the next pattern character literal, and every other
      pattern character matches itself. A backslash that ends the pattern
      matches a literal backslash here, where PostgreSQL raises an error; the
      search patterns of this system always end in `%`, so that case is never
      reached. */
  predicate LikeMatch(s: string, p: string)
    decreases |p|, |s|
  {
    if p == [] then s == []
    else if p[0] == '%' then LikeMatch(s, p[1..]) || (s != [] && LikeMatch(s[1..], p))
    else if p[0] == '_' then s != [] && LikeMatch(s[1..], p[1..])
    else if p[0] == '\\' && |p| >= 2 then s != [] && s[0] == p[1] && LikeMatch(s[1..], p[2..])
    else s != [] && s[0] == p[0] && LikeMatch(s[1..], p[1..])
  }

  /** `s ILIKE p`: LIKE after lower-casing both sides. */
  predicate ILike(s: string, p: string)
  {
    LikeMatch(Text.Lower(s), Text.Lower(p))
  }

  predicate IsLikeSpecial(c: char)
  {
    c == '%' || c == '_' || c == '\\'
  }

  /** The query holds no character that LIKE treats specially. */
  predicate NoWildcards(q: string)
  {
    forall i | 0 <= i < |q| :: !IsLikeSpecial(q[i])
  }

  /** The query with every special LIKE character escaped by a backslash. */
  function EscapeLike(q: string): (r: string)
    ensures NoWildcards(q) ==> r == q
  {
    if q == [] then []
    else (if IsLikeSpecial(q[0]) then ['\\', q[0]] else [q[0]]) + EscapeLike(q[1..])
  }

  lemma {:induction false} LikeAnything(s: string)
    ensures LikeMatch(s, "%")
    decreases |s|
  {
    if s != [] {
      LikeAnything(s[1..]);
    }
  }

  /** A leading `%` lets the rest of the pattern match any suffix. */
  lemma {:induction false} LikeLeadingPercent(s: string, p: string)
    ensures LikeMatch(s, ['%'] + p) == exists i | 0 <= i <= |s| :: LikeMatch(s[i..], p)
    decreases |s|
  {
    var pp := ['%'] + p;
    assert pp[1..] == p;
    if s == [] {
      assert s[0..] == s;
    } else {
      LikeLeadingPercent(s[1..], p);
      assert s[0..] == s;
      assert forall i | 1 <= i <= |s| :: s[1..][i - 1..] == s[i..];
      if LikeMatch(s[1..], pp) {
        var i :| 0 <= i <= |s[1..]| && LikeMatch(s[1..][i..], p);
        assert LikeMatch(s[i + 1..], p);
      }
      if exists i | 0 <= i <= |s| :: LikeMatch(s[i..], p) {
        var i :| 0 <= i <= |s| && LikeMatch(s[i..], p);
        if i > 0 {
          assert LikeMatch(s[1..][i - 1..], p);
        }
      }
    }
  }

  /** An escaped query matches exactly its own characters, then the rest of the pattern. */
  lemma {:induction false} LikeEscaped(s: string, q: string, rest: string)
    ensures LikeMatch(s, EscapeLike(q) + rest) == (|q| <= |s| && s[..|q|] == q && LikeMatch(s[|q|..], rest))
    decreases |q|
  {
    if q == [] {
      assert EscapeLike(q) + rest == rest;
    } else {
      var head := if IsLikeSpecial(q[0]) then ['\\', q[0]] else [q[0]];
      var tail := EscapeLike(q[1..]) + rest;
      assert EscapeLike(q) == head + EscapeLike(q[1..]);
      assert EscapeLike(q) + rest == head + tail;
      LikeEscapedHead(s, q[0], tail);
      if s != [] {
        assert LikeMatch(s, EscapeLike(q) + rest) == (s[0] == q[0] && LikeMatch(s[1..], tail));
        LikeEscaped(s[1..], q[1..], rest);
        PrefixStep(s, q);
      }
    }
  }

  /** One character of an escaped query, escaped or not, matches itself only. */
  lemma LikeEscapedHead(s: string, c: char, p: string)
    ensures LikeMatch(s, (if IsLikeSpecial(c) then ['\\', c] else [c]) + p) == (s != [] && s[0] == c && LikeMatch(s[1..], p))
  {
    var pp := (if IsLikeSpecial(c) then ['\\', c] else [c]) + p;
    if IsLikeSpecial(c) {
      assert pp[0] == '\\' && pp[1] == c && pp[2..] == p;
    } else {
      assert pp[0] == c && pp[1..] == p;
    }
  }

  /** `q` is a prefix of `s` when their first characters agree and the rest of
      `q` is a prefix of the rest of `s`. */
  lemma PrefixStep(s: string, q: string)
    requires s != [] && q != []
    ensures (s[0] == q[0] && |q| - 1 <= |s| - 1 && s[1..][..|q| - 1] == q[1..]) == (|q| <= |s| && s[..|q|] == q)
    ensures |q| <= |s| ==> s[1..][|q| - 1..] == s[|q|..]
  {
    if |q| <= |s| {
      assert s[..|q|] == [s[0]] + s[1..][..|q| - 1];
      assert q == [q[0]] + q[1..];
    }
  }

  /** `%` + escaped query + `%` is a substring test. */
  lemma LikeContains(s: string, q: string)
    ensures LikeMatch(s, "%" + EscapeLike(q) + "%") == Text.Contains(s, q)
  {
    var e := EscapeLike(q) + "%";
    assert "%" + EscapeLike(q) + "%" == ['%'] + e;
    LikeLeadingPercent(s, e);
    if Text.Contains(s, q) {
      var i :| 0 <= i <= |s| - |q| && Text.OccursAt(s, q, i);
      LikeEscaped(s[i..], q, "%");
      assert s[i..][..|q|] == s[i..i + |q|];
      LikeAnything(s[i..][|q|..]);
    }
    if LikeMatch(s, ['%'] + e) {
      var i :| 0 <= i <= |s| && LikeMatch(s[i..], e);
      LikeEscaped(s[i..], q, "%");
      assert s[i..][..|q|] == s[i..i + |q|];
      assert Text.OccursAt(s, q, i);
    }
  }

  /** Lower-casing commutes with escaping, since the special characters have no case. */
  lemma {:induction false} LowerEscape(q: string)
    ensures Text.Lower(EscapeLike(q)) == EscapeLike(Text.Lower(q))
    decreases |q|
  {
    if q != [] {
      LowerEscape(q[1..]);
      assert Text.Lower(q)[1..] == Text.Lower(q[1..]);
      var head := if IsLikeSpecial(q[0]) then ['\\', q[0]] else [q[0]];
      assert EscapeLike(q) == head + EscapeLike(q[1..]);
      Text.LowerAppend(head, EscapeLike(q[1..]));
      assert Text.Lower(head) == if IsLikeSpecial(q[0]) then ['\\', Text.LowerChar(q[0])] else [Text.LowerChar(q[0])];
    }
  }

  // ----- The queries -----

  /** The ILIKE pattern the search builds: the query between two `%`, not escaped. */
  function SearchPattern(query: string): string
  {
    "%" + query + "%"
  }

  /** The WHERE clause of the search: title, author or code ILIKE the pattern. */
  predicate MatchesSearch(b: Store.Book, query: string)
  {
    var p := SearchPattern(query);
    ILike(b.title, p) || ILike(b.author, p) || ILike(b.code, p)
  }

  /** Case-insensitive substring containment in one of the three searched fields. */
  predicate ContainsQuery(b: Store.Book, query: string)
  {
    var q := Text.Lower(query);
    Text.Contains(Text.Lower(b.title), q) || Text.Contains(Text.Lower(b.author), q)
      || Text.Contains(Text.Lower(b.code), q)
  }

  /** ORDER BY title ASC; rows with equal titles come in id order. */
  predicate TitleBefore(x: BookRow, y: BookRow)
  {
    Text.TextLess(x.book.title, y.book.title) || (x.book.title == y.book.title && x.id < y.id)
  }

  /** Rows read from a table: one row per id. */
  ghost predicate KeyedById(rows: set<BookRow>)
  {
    forall x, y | x in rows && y in rows && x.id == y.id :: x == y
  }

  lemma TitleOrderIsStrict(rows: set<BookRow>)
    requires KeyedById(rows)
    ensures Ordering.StrictOrderOn(rows, TitleBefore)
  {
    forall x | x in rows
      ensures !TitleBefore(x, x)
    {
      Text.TextLessIrreflexive(x.book.title);
    }
    forall x, y, z | x in rows && y in rows && z in rows && TitleBefore(x, y) && TitleBefore(y, z)
      ensures TitleBefore(x, z)
    {
      if Text.TextLess(x.book.title, y.book.title) && Text.TextLess(y.book.title, z.book.title) {
        Text.TextLessTransitive(x.book.title, y.book.title, z.book.title);
      }
    }
    forall x, y | x in rows && y in rows && x != y
      ensures TitleBefore(x, y) || TitleBefore(y, x)
    {
      if x.book.title != y.book.title {
        Text.TextLessTotal(x.book.title, y.book.title);
      }
    }
  }

  /** The rows listed by title: each once, titles never decreasing. */
  function OrderByTitle(rows: set<BookRow>): (r: seq<BookRow>)
    requires KeyedById(rows)
    ensures |r| == |rows|
    ensures forall x | x in rows :: x in r
    ensures forall i | 0 <= i < |r| :: r[i] in rows
    ensures forall i, j | 0 <= i < j < |r| :: !Text.TextLess(r[j].book.title, r[i].book.title)
    ensures forall i, j | 0 <= i < j < |r| :: r[i].id != r[j].id
  {
    TitleOrderIsStrict(rows);
    var r := Ordering.SortSet(rows, TitleBefore);
    forall i, j | 0 <= i < j < |r|
      ensures !Text.TextLess(r[j].book.title, r[i].book.title)
    {
      Text.TextLessIrreflexive(r[i].book.title);
      if Text.TextLess(r[j].book.title, r[i].book.title) && Text.TextLess(r[i].book.title, r[j].book.title) {
        Text.TextLessTransitive(r[i].book.title, r[j].book.title, r[i].book.title);
      }
    }
    r
  }

  /** `searchBooks(query)`: every book whose title, author or code matches
      `%query%` under ILIKE, each once, ordered by title. */
  function SearchBooks(books: map<int, Store.Book>, query: string): (r: seq<BookRow>)
    ensures forall row :: row in r <==> row.id in books && row.book == books[row.id] && MatchesSearch(row.book, query)
    ensures forall i, j | 0 <= i < j < |r| :: !Text.TextLess(r[j].book.title, r[i].book.title)
    ensures forall i, j | 0 <= i < j < |r| :: r[i].id != r[j].id
  {
    OrderByTitle(set id | id in books && MatchesSearch(books[id], query) :: BookRow(id, books[id]))
  }

  /** The search as written is not a substring search: `_` in the query is a
      wildcard, so the query "_" selects a book none of whose fields holds "_". */
  lemma WildcardQueryCounterexample()
    ensures var b := Store.Book("abc", "abc", "abc", true);
      MatchesSearch(b, "_") && !ContainsQuery(b, "_")
  {
    var s := "abc";
    assert Text.Lower(s) == s;
    assert Text.Lower(SearchPattern("_")) == "%_%";
    LikeAnything("bc");
    assert LikeMatch("abc", "_%");
    assert LikeMatch("abc", "%_%");
    assert Text.Lower("_") == "_";
    assert !Text.Contains(s, "_") by {
      forall i | 0 <= i <= |s| - 1
        ensures !Text.OccursAt(s, "_", i)
      {
        assert s[i..i + 1] == [s[i]];
      }
    }
  }

  /** The search pattern with the query's wildcards escaped. */
  function EscapedPattern(query: string): string
  {
    "%" + EscapeLike(query) + "%"
  }

  predicate MatchesEscapedSearch(b: Store.Book, query: string)
  {
    var p := EscapedPattern(query);
    ILike(b.title, p) || ILike(b.author, p) || ILike(b.code, p)
  }

  /** With the query escaped, ILIKE against `%query%` is case-insensitive containment. */
  lemma EscapedMatchIsContainment(field: string, query: string)
    ensures ILike(field, EscapedPattern(query)) == Text.Contains(Text.Lower(field), Text.Lower(query))
  {
    var e := EscapeLike(query);
    assert Text.Lower(EscapedPattern(query)) == "%" + Text.Lower(e) + "%";
    LowerEscape(query);
    LikeContains(Text.Lower(field), Text.Lower(query));
  }

  lemma EscapedSearchIsContainment(b: Store.Book, query: string)
    ensures MatchesEscapedSearch(b, query) == ContainsQuery(b, query)
  {
    EscapedMatchIsContainment(b.title, query);
    EscapedMatchIsContainment(b.author, query);
    EscapedMatchIsContainment(b.code, query);
  }

  /** The search the catalog evidently intends: every book with the query as a
      case-insensitive substring of its title, author or code, each once, by title. */
  function SearchBooksEscaped(books: map<int, Store.Book>, query: string): (r: seq<BookRow>)
    ensures forall row :: row in r <==> row.id in books && row.book == books[row.id] && ContainsQuery(row.book, query)
    ensures forall i, j | 0 <= i < j < |r| :: !Text.TextLess(r[j].book.title, r[i].book.title)
    ensures forall i, j | 0 <= i < j < |r| :: r[i].id != r[j].id
  {
    forall id | id in books {
      EscapedSearchIsContainment(books[id], query);
    }
    OrderByTitle(set id | id in books && MatchesEscapedSearch(books[id], query) :: BookRow(id, books[id]))
  }

  /** For a query without `%`, `_` or a backslash the search as written is the intended one. */
  lemma SearchWithoutWildcards(books: map<int, Store.Book>, query: string)
    requires NoWildcards(query)
    ensures SearchBooks(books, query) == SearchBooksEscaped(books, query)
  {
    assert EscapedPattern(query) == SearchPattern(query);
    assert (set id | id in books && MatchesSearch(books[id], query) :: BookRow(id, books[id]))
      == (set id | id in books && MatchesEscapedSearch(books[id], query) :: BookRow(id, books[id]));
  }

  /** `getAllBooks()`: every book, each once, ordered by title. */
  function GetAllBooks(books: map<int, Store.Book>): (r: seq<BookRow>)
    ensures forall row :: row in r <==> row.id in books && row.book == books[row.id]
    ensures |r| == |books|
    ensures forall i, j | 0 <= i < j < |r| :: !Text.TextLess(r[j].book.title, r[i].book.title)
  {
    var rows := set id | id in books :: BookRow(id, books[id]);
    assert |rows| == |books| by {
      assert rows == set id | id in books.Keys :: BookRow(id, books[id]);
      IdsCount(books, books.Keys);
    }
    OrderByTitle(rows)
  }

  lemma {:induction false} IdsCount(books: map<int, Store.Book>, ids: set<int>)
    requires ids <= books.Keys
    ensures |set id | id in ids :: BookRow(id, books[id])| == |ids|
    decreases |ids|
  {
    if ids != {} {
      var k := Ordering.Pick(ids);
      IdsCount(books, ids - {k});
      assert (set id | id in ids :: BookRow(id, books[id]))
        == (set id | id in ids - {k} :: BookRow(id, books[id])) + {BookRow(k, books[k])};
    }
  }

  /** `getBookById(id)`: the row with that id, or no row at all (not an error). */
  function GetBookById(books: map<int, Store.Book>, id: int): (r: Option<BookRow>)
    ensures r.Some? <==> id in books
    ensures r.Some? ==> r.value.id == id && r.value.book == books[id]
  {
    if id in books then Some(BookRow(id, books[id])) else None
  }

  /** `isBookAvailable(id)`: the book exists and its flag is true. */
  function IsBookAvailable(books: map<int, Store.Book>, id: int): (r: bool)
    ensures r <==> id in books && books[id].available
  {
    match GetBookById(books, id)
    case None => false
    case Some(row) => row.book.available
  }

  /** `UPDATE books SET available = value WHERE id = $1`: that row's flag changes, nothing else. */
  function SetAvailability(books: map<int, Store.Book>, id: int, value: bool): (r: map<int, Store.Book>)
    ensures r.Keys == books.Keys
    ensures forall k | k in books && k != id :: r[k] == books[k]
    ensures id in books ==> r[id] == books[id].(available := value)
  {
    if id in books then books[id := books[id].(available := value)] else books
  }

  /** Setting the flag twice is setting it once; an absent id changes nothing. */
  lemma SetAvailabilityIdempotent(books: map<int, Store.Book>, id: int, value: bool)
    ensures SetAvailability(SetAvailability(books, id, value), id, value) == SetAvailability(books, id, value)
    ensures id !in books ==> SetAvailability(books, id, value) == books
  {
  }

  /** `markAsUnavailable(id)`. */
  method MarkAsUnavailable(db: Store.Database, id: int)
    modifies db
    ensures db.books == SetAvailability(old(db.books), id, false)
    ensures db.loans == old(db.loans) && db.nextLoanId == old(db.nextLoanId)
    ensures old(db.WellFormed()) ==> db.WellFormed()
  {
    db.books := SetAvailability(db.books, id, false);
  }

  /** `markAsAvailable(id)`. */
  method MarkAsAvailable(db: Store.Database, id: int)
    modifies db
    ensures db.books == SetAvailability(old(db.books), id, true)
    ensures db.loans == old(db.loans) && db.nextLoanId == old(db.nextLoanId)
    ensures old(db.WellFormed()) ==> db.WellFormed()
  {
    db.books := SetAvailability(db.books, id, true);
  }
}
