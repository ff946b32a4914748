/** The catalog's records (catalog/models.py): genres, languages, books,
    authors and the loanable copies of books, together with the in-memory
    store that stands in for the database and its "set null on delete"
    behaviour. Dates are day numbers; the current date is a parameter. */
module Models {
  import opened Wrappers
  import opened Text
  import opened Sorting

  /** A calendar date as a day number: day `d + 1` is the day after `d`. */
  type Date = int

  /** Record keys. The source's UUIDs and auto-increment keys are opaque, distinct values. */
  type UserId = nat
  type AuthorId = nat
  type LanguageId = nat
  type BookId = nat
  type InstanceId = nat

  /** `BookInstance.LOAN_STATUS`, plus the empty string that `blank=True`
      lets the admin form store. */
  datatype LoanStatus = Maintenance | OnLoan | Available | Reserved | Blank

  /** A copy that is created without a status is under maintenance. */
  const DefaultStatus: LoanStatus := Maintenance

  /** The one-letter code stored in the `status` column. */
  function StatusCode(s: LoanStatus): string
  {
    match s
    case Maintenance => "m"
    case OnLoan => "o"
    case Available => "a"
    case Reserved => "r"
    case Blank => ""
  }

  /** Reads a stored code back; anything outside the choices is refused. */
  function StatusFromCode(code: string): (r: Option<LoanStatus>)
    ensures r.Some? <==> code in ["m", "o", "a", "r", ""]
    ensures r.Some? ==> StatusCode(r.value) == code
  {
    if code == "m" then Some(Maintenance)
    else if code == "o" then Some(OnLoan)
    else if code == "a" then Some(Available)
    else if code == "r" then Some(Reserved)
    else if code == "" then Some(Blank)
    else None
  }

  /** Every status is stored as a code that reads back as itself. */
  lemma StatusCodeRoundTrip(s: LoanStatus)
    ensures StatusFromCode(StatusCode(s)) == Some(s)
  {
  }

  datatype Genre = Genre(name: string)

  datatype Language = Language(id: LanguageId, name: string)

  /** A title. Its genres are held by value, in the order the many-to-many
      relation lists them. */
  datatype Book = Book(
    id: BookId,
    title: string,
    author: Option<AuthorId>,
    summary: string,
    isbn: string,
    genres: seq<Genre>,
    language: Option<LanguageId>)

  /** One loanable copy of a book. */
  datatype BookInstance = BookInstance(
    id: InstanceId,
    book: Option<BookId>,
    imprint: string,
    dueBack: Option<Date>,
    status: LoanStatus,
    borrower: Option<UserId>)

  datatype Author = Author(
    id: AuthorId,
    firstName: string,
    lastName: string,
    dateOfBirth: Option<Date>,
    dateOfDeath: Option<Date>)

  /** `BookInstance.is_overdue`: the copy has a due date and that date has passed. */
  function IsOverdue(b: BookInstance, today: Date): (r: bool)
    ensures r <==> b.dueBack.Some? && b.dueBack.value < today
  {
    match b.dueBack
    case Some(d) => today > d
    case None => false
  }

  /** `Author.__str__`: last name, separator, first name. */
  function AuthorString(a: Author): (r: string)
    ensures |r| == |a.lastName| + |Separator| + |a.firstName|
    ensures r[..|a.lastName|] == a.lastName && r[|a.lastName| + |Separator|..] == a.firstName
    ensures r[|a.lastName|..|a.lastName| + |Separator|] == Separator
  {
    a.lastName + Separator + a.firstName
  }

  /** When the last name holds no comma, the first piece of the string form
      is the last name and the rest joins back into the first name. */
  lemma AuthorStringParses(a: Author)
    requires ',' !in a.lastName
    ensures Split(AuthorString(a))[0] == a.lastName
    ensures Join(Split(AuthorString(a))[1..]) == a.firstName
  {
    SplitAfterHead(a.lastName, a.firstName);
    JoinSplit(a.firstName);
  }

  /** The names of `gs`, in order. */
  function GenreNames(gs: seq<Genre>): (r: seq<string>)
    ensures |r| == |gs|
    ensures forall k :: 0 <= k < |gs| ==> r[k] == gs[k].name
  {
    seq(|gs|, k requires 0 <= k < |gs| => gs[k].name)
  }

  /** `Book.display_genre`: the names of the first three genres joined by the separator. */
  function DisplayGenre(b: Book): (r: string)
    ensures |b.genres| == 0 ==> r == ""
    ensures |b.genres| >= 1 ==> b.genres[0].name <= r
    ensures |b.genres| == 1 ==> r == b.genres[0].name
    ensures |b.genres| == 2 ==> r == b.genres[0].name + Separator + b.genres[1].name
    ensures |b.genres| >= 3 ==>
      r == b.genres[0].name + Separator + b.genres[1].name + Separator + b.genres[2].name
  {
    var shown := if |b.genres| <= 3 then b.genres else b.genres[..3];
    var names := GenreNames(shown);
    JoinUpToThree(names);
    Join(names)
  }

  /** When no genre name holds a comma, the display string splits back into
      exactly the names of the first three genres, in order. */
  lemma DisplayGenreSplits(b: Book)
    requires |b.genres| >= 1
    requires forall k :: 0 <= k < |b.genres| ==> ',' !in b.genres[k].name
    ensures |Split(DisplayGenre(b))| == if |b.genres| <= 3 then |b.genres| else 3
    ensures forall k :: 0 <= k < |Split(DisplayGenre(b))| ==> Split(DisplayGenre(b))[k] == b.genres[k].name
  {
    var shown := if |b.genres| <= 3 then b.genres else b.genres[..3];
    SplitJoin(GenreNames(shown));
  }

  /** The database's ascending order on a nullable date: absent dates first
      (as SQLite sorts NULL), then by day. */
  predicate DueBackLe(a: Option<Date>, b: Option<Date>)
  {
    a.None? || (b.Some? && a.value <= b.value)
  }

  /** `BookInstance.Meta.ordering = ['due_back']`. */
  predicate ByDueBack(x: BookInstance, y: BookInstance)
  {
    DueBackLe(x.dueBack, y.dueBack)
  }

  lemma ByDueBackIsTotalPreorder()
    ensures TotalPreorder(ByDueBack)
  {
  }

  /** Code-point lexicographic order on strings, as Python and the database compare them. */
  predicate StrLe(a: string, b: string)
    decreases |a|
  {
    if |a| == 0 then true
    else if |b| == 0 then false
    else if a[0] != b[0] then a[0] < b[0]
    else StrLe(a[1..], b[1..])
  }

  lemma {:induction false} StrLeTotal(a: string, b: string)
    ensures StrLe(a, b) || StrLe(b, a)
    decreases |a|
  {
    if |a| > 0 && |b| > 0 && a[0] == b[0] {
      StrLeTotal(a[1..], b[1..]);
    }
  }

  lemma {:induction false} StrLeTransitive(a: string, b: string, c: string)
    requires StrLe(a, b) && StrLe(b, c)
    ensures StrLe(a, c)
    decreases |a|
  {
    if |a| > 0 && |b| > 0 && |c| > 0 && a[0] == b[0] && b[0] == c[0] {
      StrLeTransitive(a[1..], b[1..], c[1..]);
    }
  }

  /** `Author.Meta.ordering = ['last_name']`. */
  predicate ByLastName(x: Author, y: Author)
  {
    StrLe(x.lastName, y.lastName)
  }

  lemma ByLastNameIsTotalPreorder()
    ensures TotalPreorder(ByLastName)
  {
    forall x: Author, y: Author ensures ByLastName(x, y) || ByLastName(y, x) {
      StrLeTotal(x.lastName, y.lastName);
    }
    forall x: Author, y: Author, z: Author | ByLastName(x, y) && ByLastName(y, z)
      ensures ByLastName(x, z)
    {
      StrLeTransitive(x.lastName, y.lastName, z.lastName);
    }
  }

  /** The copies in their default order: by due date, ascending. */
  function OrderedInstances(s: seq<BookInstance>): (r: seq<BookInstance>)
    ensures multiset(r) == multiset(s)
    ensures forall i, j :: 0 <= i < j < |r| ==> DueBackLe(r[i].dueBack, r[j].dueBack)
  {
    ByDueBackIsTotalPreorder();
    SortBy(s, ByDueBack)
  }

  /** The authors in their default order: by last name. */
  function OrderedAuthors(s: seq<Author>): (r: seq<Author>)
    ensures multiset(r) == multiset(s)
    ensures forall i, j :: 0 <= i < j < |r| ==> StrLe(r[i].lastName, r[j].lastName)
    ensures |r| == |s| && forall a :: a in r <==> a in s
  {
    ByLastNameIsTotalPreorder();
    var r := SortBy(s, ByLastName);
    assert |r| == |multiset(r)| == |multiset(s)| == |s|;
    assert forall a :: a in r <==> a in multiset(r);
    r
  }

  /** The number of copies in `s` whose status is `st`. */
  function CountStatus(s: seq<BookInstance>, st: LoanStatus): (n: nat)
    ensures n <= |s|
    ensures n == 0 <==> forall k :: 0 <= k < |s| ==> s[k].status != st
  {
    if |s| == 0 then 0
    else (if s[0].status == st then 1 else 0) + CountStatus(s[1..], st)
  }

  /** Every copy has exactly one of the statuses, so the per-status counts add up to the total. */
  lemma {:induction false} StatusCountsPartition(s: seq<BookInstance>)
    ensures CountStatus(s, Maintenance) + CountStatus(s, OnLoan) + CountStatus(s, Available)
          + CountStatus(s, Reserved) + CountStatus(s, Blank) == |s|
  {
    if |s| > 0 {
      StatusCountsPartition(s[1..]);
    }
  }

  /** The number of books in `s` whose title contains `sub`, as SQLite's
      `LIKE` matches it. */
  function CountTitlesContaining(s: seq<Book>, sub: string): (n: nat)
    ensures n <= |s|
    ensures n == 0 <==> forall k :: 0 <= k < |s| ==> !LikeContains(s[k].title, sub)
  {
    if |s| == 0 then 0
    else (if LikeContains(s[0].title, sub) then 1 else 0) + CountTitlesContaining(s[1..], sub)
  }

  function AuthorIds(s: seq<Author>): set<AuthorId> { set a | a in s :: a.id }
  function LanguageIds(s: seq<Language>): set<LanguageId> { set l | l in s :: l.id }
  function LanguageNames(s: seq<Language>): set<string> { set l | l in s :: l.name }
  function BookIds(s: seq<Book>): set<BookId> { set b | b in s :: b.id }
  function InstanceIds(s: seq<BookInstance>): set<InstanceId> { set b | b in s :: b.id }

  /** No dangling author reference: every book's author is in `authors`. */
  ghost predicate AuthorRefsValid(books: seq<Book>, authors: seq<Author>)
  {
    forall b :: b in books && b.author.Some? ==> b.author.value in AuthorIds(authors)
  }

  ghost predicate LanguageRefsValid(books: seq<Book>, languages: seq<Language>)
  {
    forall b :: b in books && b.language.Some? ==> b.language.value in LanguageIds(languages)
  }

  ghost predicate BookRefsValid(instances: seq<BookInstance>, books: seq<Book>)
  {
    forall c :: c in instances && c.book.Some? ==> c.book.value in BookIds(books)
  }

  ghost predicate BorrowerRefsValid(instances: seq<BookInstance>, users: set<UserId>)
  {
    forall c :: c in instances && c.borrower.Some? ==> c.borrower.value in users
  }

  /** `on_delete=SET_NULL` on `Book.author`: no book keeps a reference to `id`;
      every other book is untouched. */
  function ClearAuthorRefs(books: seq<Book>, id: AuthorId): (r: seq<Book>)
    ensures |r| == |books|
    ensures forall k :: 0 <= k < |r| ==> r[k] == books[k].(author := r[k].author)
    ensures forall k :: 0 <= k < |r| ==>
      if books[k].author == Some(id) then r[k].author == None else r[k].author == books[k].author
  {
    seq(|books|, k requires 0 <= k < |books| =>
      if books[k].author == Some(id) then books[k].(author := None) else books[k])
  }

  /** `on_delete=SET_NULL` on `Book.language`. */
  function ClearLanguageRefs(books: seq<Book>, id: LanguageId): (r: seq<Book>)
    ensures |r| == |books|
    ensures forall k :: 0 <= k < |r| ==> r[k] == books[k].(language := r[k].language)
    ensures forall k :: 0 <= k < |r| ==>
      if books[k].language == Some(id) then r[k].language == None else r[k].language == books[k].language
  {
    seq(|books|, k requires 0 <= k < |books| =>
      if books[k].language == Some(id) then books[k].(language := None) else books[k])
  }

  /** `on_delete=SET_NULL` on `BookInstance.book`. */
  function ClearBookRefs(instances: seq<BookInstance>, id: BookId): (r: seq<BookInstance>)
    ensures |r| == |instances|
    ensures forall k :: 0 <= k < |r| ==> r[k] == instances[k].(book := r[k].book)
    ensures forall k :: 0 <= k < |r| ==>
      if instances[k].book == Some(id) then r[k].book == None else r[k].book == instances[k].book
  {
    seq(|instances|, k requires 0 <= k < |instances| =>
      if instances[k].book == Some(id) then instances[k].(book := None) else instances[k])
  }

  /** `on_delete=SET_NULL` on `BookInstance.borrower`. */
  function ClearBorrowerRefs(instances: seq<BookInstance>, id: UserId): (r: seq<BookInstance>)
    ensures |r| == |instances|
    ensures forall k :: 0 <= k < |r| ==> r[k] == instances[k].(borrower := r[k].borrower)
    ensures forall k :: 0 <= k < |r| ==>
      if instances[k].borrower == Some(id) then r[k].borrower == None else r[k].borrower == instances[k].borrower
  {
    seq(|instances|, k requires 0 <= k < |instances| =>
      if instances[k].borrower == Some(id) then instances[k].(borrower := None) else instances[k])
  }

  /** The authors other than `id`, in their order. */
  function WithoutAuthor(s: seq<Author>, id: AuthorId): (r: seq<Author>)
    ensures forall a :: a in r <==> a in s && a.id != id
    ensures AuthorIds(r) == AuthorIds(s) - {id}
    ensures (forall i, j :: 0 <= i < j < |s| ==> s[i].id != s[j].id) ==>
      forall i, j :: 0 <= i < j < |r| ==> r[i].id != r[j].id
  {
    var keep := (a: Author) => a.id != id;
    FilterUnique(s, keep, (a: Author) => a.id);
    Filter(s, keep)
  }

  function WithoutLanguage(s: seq<Language>, id: LanguageId): (r: seq<Language>)
    ensures forall l :: l in r <==> l in s && l.id != id
    ensures LanguageIds(r) == LanguageIds(s) - {id}
    ensures (forall i, j :: 0 <= i < j < |s| ==> s[i].id != s[j].id) ==>
      forall i, j :: 0 <= i < j < |r| ==> r[i].id != r[j].id
    ensures (forall i, j :: 0 <= i < j < |s| ==> s[i].name != s[j].name) ==>
      forall i, j :: 0 <= i < j < |r| ==> r[i].name != r[j].name
  {
    var keep := (l: Language) => l.id != id;
    FilterUnique(s, keep, (l: Language) => l.id);
    FilterUnique(s, keep, (l: Language) => l.name);
    Filter(s, keep)
  }

  function WithoutBook(s: seq<Book>, id: BookId): (r: seq<Book>)
    ensures forall b :: b in r <==> b in s && b.id != id
    ensures BookIds(r) == BookIds(s) - {id}
    ensures (forall i, j :: 0 <= i < j < |s| ==> s[i].id != s[j].id) ==>
      forall i, j :: 0 <= i < j < |r| ==> r[i].id != r[j].id
  {
    var keep := (b: Book) => b.id != id;
    FilterUnique(s, keep, (b: Book) => b.id);
    Filter(s, keep)
  }

  /** Keys are unique per table and below `nextId`, language names are
      unique, and every reference names a stored record. */
  ghost predicate Consistent(authors: seq<Author>, languages: seq<Language>, books: seq<Book>,
                             instances: seq<BookInstance>, users: set<UserId>, nextId: nat)
  {
    (forall i, j :: 0 <= i < j < |authors| ==> authors[i].id != authors[j].id) &&
    (forall i, j :: 0 <= i < j < |languages| ==> languages[i].id != languages[j].id) &&
    (forall i, j :: 0 <= i < j < |languages| ==> languages[i].name != languages[j].name) &&
    (forall i, j :: 0 <= i < j < |books| ==> books[i].id != books[j].id) &&
    (forall i, j :: 0 <= i < j < |instances| ==> instances[i].id != instances[j].id) &&
    (forall x :: x in LanguageIds(languages) ==> x < nextId) &&
    (forall x :: x in InstanceIds(instances) ==> x < nextId) &&
    AuthorRefsValid(books, authors) &&
    LanguageRefsValid(books, languages) &&
    BookRefsValid(instances, books) &&
    BorrowerRefsValid(instances, users)
  }

  /** Deleting an author with `on_delete=SET_NULL` leaves no dangling author or
      language reference, and the books keep their distinct keys. */
  lemma {:induction false} DeleteAuthorKeepsRefs(books: seq<Book>, authors: seq<Author>,
                                                  languages: seq<Language>, id: AuthorId)
    requires AuthorRefsValid(books, authors) && LanguageRefsValid(books, languages)
    ensures AuthorRefsValid(ClearAuthorRefs(books, id), WithoutAuthor(authors, id))
    ensures LanguageRefsValid(ClearAuthorRefs(books, id), languages)
    ensures BookIds(ClearAuthorRefs(books, id)) == BookIds(books)
    ensures (forall i, j :: 0 <= i < j < |books| ==> books[i].id != books[j].id) ==>
      forall i, j :: 0 <= i < j < |books| ==> ClearAuthorRefs(books, id)[i].id != ClearAuthorRefs(books, id)[j].id
  {
    var r := ClearAuthorRefs(books, id);
    forall b | b in r
      ensures b.author.Some? ==> b.author.value in AuthorIds(WithoutAuthor(authors, id))
      ensures b.language.Some? ==> b.language.value in LanguageIds(languages)
      ensures b.id in BookIds(books)
    {
      var k :| 0 <= k < |r| && r[k] == b;
      assert books[k] in books;
    }
    forall x | x in BookIds(books) ensures x in BookIds(r) {
      var k :| 0 <= k < |books| && books[k].id == x;
      assert r[k] in r;
    }
  }

  /** The same for a language. */
  lemma {:induction false} DeleteLanguageKeepsRefs(books: seq<Book>, authors: seq<Author>,
                                                    languages: seq<Language>, id: LanguageId)
    requires AuthorRefsValid(books, authors) && LanguageRefsValid(books, languages)
    ensures AuthorRefsValid(ClearLanguageRefs(books, id), authors)
    ensures LanguageRefsValid(ClearLanguageRefs(books, id), WithoutLanguage(languages, id))
    ensures BookIds(ClearLanguageRefs(books, id)) == BookIds(books)
    ensures (forall i, j :: 0 <= i < j < |books| ==> books[i].id != books[j].id) ==>
      forall i, j :: 0 <= i < j < |books| ==> ClearLanguageRefs(books, id)[i].id != ClearLanguageRefs(books, id)[j].id
  {
    var r := ClearLanguageRefs(books, id);
    forall b | b in r
      ensures b.author.Some? ==> b.author.value in AuthorIds(authors)
      ensures b.language.Some? ==> b.language.value in LanguageIds(WithoutLanguage(languages, id))
      ensures b.id in BookIds(books)
    {
      var k :| 0 <= k < |r| && r[k] == b;
      assert books[k] in books;
    }
    forall x | x in BookIds(books) ensures x in BookIds(r) {
      var k :| 0 <= k < |books| && books[k].id == x;
      assert r[k] in r;
    }
  }

  /** Deleting a book with `on_delete=SET_NULL` leaves no dangling book or
      borrower reference, and the copies keep their keys. */
  lemma {:induction false} DeleteBookKeepsRefs(instances: seq<BookInstance>, books: seq<Book>,
                                                users: set<UserId>, id: BookId)
    requires BookRefsValid(instances, books) && BorrowerRefsValid(instances, users)
    ensures BookRefsValid(ClearBookRefs(instances, id), WithoutBook(books, id))
    ensures BorrowerRefsValid(ClearBookRefs(instances, id), users)
    ensures InstanceIds(ClearBookRefs(instances, id)) == InstanceIds(instances)
    ensures forall k :: 0 <= k < |instances| ==> ClearBookRefs(instances, id)[k].id == instances[k].id
  {
    var r := ClearBookRefs(instances, id);
    forall c | c in r
      ensures c.book.Some? ==> c.book.value in BookIds(WithoutBook(books, id))
      ensures c.borrower.Some? ==> c.borrower.value in users
      ensures c.id in InstanceIds(instances)
    {
      var k :| 0 <= k < |r| && r[k] == c;
      assert instances[k] in instances;
    }
    forall x | x in InstanceIds(instances) ensures x in InstanceIds(r) {
      var k :| 0 <= k < |instances| && instances[k].id == x;
      assert r[k] in r;
    }
  }

  /** Deleting a user with `on_delete=SET_NULL` leaves no dangling book or
      borrower reference, and the copies keep their keys. */
  lemma {:induction false} DeleteUserKeepsRefs(instances: seq<BookInstance>, books: seq<Book>,
                                                users: set<UserId>, id: UserId)
    requires BookRefsValid(instances, books) && BorrowerRefsValid(instances, users)
    ensures BookRefsValid(ClearBorrowerRefs(instances, id), books)
    ensures BorrowerRefsValid(ClearBorrowerRefs(instances, id), users - {id})
    ensures InstanceIds(ClearBorrowerRefs(instances, id)) == InstanceIds(instances)
    ensures forall k :: 0 <= k < |instances| ==> ClearBorrowerRefs(instances, id)[k].id == instances[k].id
  {
    var r := ClearBorrowerRefs(instances, id);
    forall c | c in r
      ensures c.book.Some? ==> c.book.value in BookIds(books)
      ensures c.borrower.Some? ==> c.borrower.value in users - {id}
      ensures c.id in InstanceIds(instances)
    {
      var k :| 0 <= k < |r| && r[k] == c;
      assert instances[k] in instances;
    }
    forall x | x in InstanceIds(instances) ensures x in InstanceIds(r) {
      var k :| 0 <= k < |instances| && instances[k].id == x;
      assert r[k] in r;
    }
  }

  /** Renewing a copy changes only its due date, so every reference stays
      valid and every copy keeps its key. */
  lemma {:induction false} SetDueBackKeepsRefs(instances: seq<BookInstance>, books: seq<Book>,
                                                users: set<UserId>, i: nat, d: Option<Date>)
    requires i < |instances|
    requires BookRefsValid(instances, books) && BorrowerRefsValid(instances, users)
    ensures BookRefsValid(instances[i := instances[i].(dueBack := d)], books)
    ensures BorrowerRefsValid(instances[i := instances[i].(dueBack := d)], users)
    ensures InstanceIds(instances[i := instances[i].(dueBack := d)]) == InstanceIds(instances)
  {
    var r := instances[i := instances[i].(dueBack := d)];
    forall c | c in r
      ensures c.book.Some? ==> c.book.value in BookIds(books)
      ensures c.borrower.Some? ==> c.borrower.value in users
      ensures c.id in InstanceIds(instances)
    {
      var k :| 0 <= k < |r| && r[k] == c;
      assert instances[k] in instances;
    }
    forall x | x in InstanceIds(instances) ensures x in InstanceIds(r) {
      var k :| 0 <= k < |instances| && instances[k].id == x;
      assert r[k] in r;
    }
  }

  /** Deleting an author, with its references cleared, keeps the store consistent. */
  lemma DeleteAuthorKeepsConsistent(authors: seq<Author>, languages: seq<Language>, books: seq<Book>,
                                    instances: seq<BookInstance>, users: set<UserId>, nextId: nat, id: AuthorId)
    requires Consistent(authors, languages, books, instances, users, nextId)
    ensures Consistent(WithoutAuthor(authors, id), languages, ClearAuthorRefs(books, id), instances, users, nextId)
  {
    DeleteAuthorKeepsRefs(books, authors, languages, id);
  }

  /** Deleting a language, with its references cleared, keeps the store consistent. */
  lemma DeleteLanguageKeepsConsistent(authors: seq<Author>, languages: seq<Language>, books: seq<Book>,
                                      instances: seq<BookInstance>, users: set<UserId>, nextId: nat, id: LanguageId)
    requires Consistent(authors, languages, books, instances, users, nextId)
    ensures Consistent(authors, WithoutLanguage(languages, id), ClearLanguageRefs(books, id), instances, users, nextId)
  {
    DeleteLanguageKeepsRefs(books, authors, languages, id);
    var rest := WithoutLanguage(languages, id);
    forall x | x in LanguageIds(rest) ensures x < nextId {
      assert x in LanguageIds(languages);
    }
  }

  /** Deleting a book, with its references cleared, keeps the store consistent. */
  lemma DeleteBookKeepsConsistent(authors: seq<Author>, languages: seq<Language>, books: seq<Book>,
                                  instances: seq<BookInstance>, users: set<UserId>, nextId: nat, id: BookId)
    requires Consistent(authors, languages, books, instances, users, nextId)
    ensures Consistent(authors, languages, WithoutBook(books, id), ClearBookRefs(instances, id), users, nextId)
  {
    DeleteBookKeepsRefs(instances, books, users, id);
    var rest := WithoutBook(books, id);
    forall b | b in rest
      ensures b.author.Some? ==> b.author.value in AuthorIds(authors)
      ensures b.language.Some? ==> b.language.value in LanguageIds(languages)
    {
      assert b in books;
    }
  }

  /** Deleting a user, with their borrowings cleared, keeps the store consistent. */
  lemma DeleteUserKeepsConsistent(authors: seq<Author>, languages: seq<Language>, books: seq<Book>,
                                  instances: seq<BookInstance>, users: set<UserId>, nextId: nat, id: UserId)
    requires Consistent(authors, languages, books, instances, users, nextId)
    ensures Consistent(authors, languages, books, ClearBorrowerRefs(instances, id), users - {id}, nextId)
  {
    DeleteUserKeepsRefs(instances, books, users, id);
  }

  /** Errors the database reports on insertion. */
  datatype StoreError =
    | DuplicateName     // `Language.name` is declared `unique=True`
    | DanglingReference // a foreign key names a record that is not stored

  /** The catalog's tables, held in memory. `nextId` hands out keys no record uses. */
  class Catalog {
    var authors: seq<Author>
    var genres: seq<Genre>
    var languages: seq<Language>
    var books: seq<Book>
    var instances: seq<BookInstance>
    var users: set<UserId>
    var nextId: nat

    /** The stored tables are consistent. */
    ghost predicate Valid()
      reads this
    {
      Consistent(authors, languages, books, instances, users, nextId)
    }

    constructor ()
      ensures Valid()
      ensures authors == [] && genres == [] && languages == [] && books == [] && instances == []
      ensures users == {} && nextId == 0
    {
      authors, genres, languages, books, instances := [], [], [], [], [];
      users, nextId := {}, 0;
    }

    /** Inserts a language; a name already stored is refused and nothing changes. */
    method AddLanguage(name: string) returns (r: Result<LanguageId, StoreError>)
      requires Valid()
      modifies this
      ensures Valid()
      ensures name in LanguageNames(old(languages)) ==>
        r == Failure(DuplicateName) && languages == old(languages) && nextId == old(nextId)
      ensures name !in LanguageNames(old(languages)) ==>
        r == Success(old(nextId)) && languages == old(languages) + [Language(old(nextId), name)] &&
        nextId == old(nextId) + 1
      ensures authors == old(authors) && genres == old(genres) && books == old(books)
      ensures instances == old(instances) && users == old(users)
    {
      if name in LanguageNames(languages) {
        r := Failure(DuplicateName);
      } else {
        var id := nextId;
        forall i | 0 <= i < |languages| ensures languages[i].name != name && languages[i].id != id {
          assert languages[i] in languages;
          assert languages[i].id in LanguageIds(languages);
        }
        assert LanguageIds(languages + [Language(id, name)]) == LanguageIds(languages) + {id};
        languages := languages + [Language(id, name)];
        nextId := nextId + 1;
        r := Success(id);
      }
    }

    /** Inserts a copy; a status left out defaults to maintenance, and a book
        or borrower that is not stored is refused. */
    method AddBookInstance(book: Option<BookId>, imprint: string, dueBack: Option<Date>,
                           status: Option<LoanStatus>, borrower: Option<UserId>)
      returns (r: Result<InstanceId, StoreError>)
      requires Valid()
      modifies this
      ensures Valid()
      ensures r.Failure? <==>
        (book.Some? && book.value !in BookIds(old(books))) || (borrower.Some? && borrower.value !in old(users))
      ensures r.Failure? ==> r.error == DanglingReference && instances == old(instances) && nextId == old(nextId)
      ensures r.Success? ==> r.value == old(nextId) && nextId == old(nextId) + 1
      ensures r.Success? ==>
        instances == old(instances) + [BookInstance(r.value, book, imprint, dueBack, status.GetOr(DefaultStatus), borrower)]
      ensures r.Success? && status.None? ==> instances[|instances| - 1].status == Maintenance
      ensures authors == old(authors) && genres == old(genres) && books == old(books)
      ensures languages == old(languages) && users == old(users)
    {
      if (book.Some? && book.value !in BookIds(books)) || (borrower.Some? && borrower.value !in users) {
        r := Failure(DanglingReference);
      } else {
        var id := nextId;
        var c := BookInstance(id, book, imprint, dueBack, status.GetOr(DefaultStatus), borrower);
        forall i | 0 <= i < |instances| ensures instances[i].id != id {
          assert instances[i] in instances;
          assert instances[i].id in InstanceIds(instances);
        }
        assert InstanceIds(instances + [c]) == InstanceIds(instances) + {id};
        instances := instances + [c];
        nextId := nextId + 1;
        r := Success(id);
      }
    }

    /** Deletes an author. Books that named it keep every field but lose the
        reference; no book is removed. An absent author changes nothing. */
    method DeleteAuthor(id: AuthorId) returns (found: bool)
      requires Valid()
      modifies this
      ensures Valid()
      ensures found <==> id in AuthorIds(old(authors))
      ensures found ==> authors == WithoutAuthor(old(authors), id) && books == ClearAuthorRefs(old(books), id)
      ensures !found ==> authors == old(authors) && books == old(books)
      ensures genres == old(genres) && languages == old(languages) && instances == old(instances)
      ensures users == old(users) && nextId == old(nextId)
    {
      found := id in AuthorIds(authors);
      if found {
        DeleteAuthorKeepsConsistent(authors, languages, books, instances, users, nextId, id);
        authors := WithoutAuthor(authors, id);
        books := ClearAuthorRefs(books, id);
      }
    }

    /** Deletes a language. Books in it keep every field but lose the
        reference; no book is removed. An absent language changes nothing. */
    method DeleteLanguage(id: LanguageId) returns (found: bool)
      requires Valid()
      modifies this
      ensures Valid()
      ensures found <==> id in LanguageIds(old(languages))
      ensures found ==> languages == WithoutLanguage(old(languages), id) && books == ClearLanguageRefs(old(books), id)
      ensures !found ==> languages == old(languages) && books == old(books)
      ensures authors == old(authors) && genres == old(genres) && instances == old(instances)
      ensures users == old(users) && nextId == old(nextId)
    {
      found := id in LanguageIds(languages);
      if found {
        DeleteLanguageKeepsConsistent(authors, languages, books, instances, users, nextId, id);
        languages := WithoutLanguage(languages, id);
        books := ClearLanguageRefs(books, id);
      }
    }

    /** Deletes a book. Its copies keep every field but lose the reference;
        no copy is removed. An absent book changes nothing. */
    method DeleteBook(id: BookId) returns (found: bool)
      requires Valid()
      modifies this
      ensures Valid()
      ensures found <==> id in BookIds(old(books))
      ensures found ==> books == WithoutBook(old(books), id) && instances == ClearBookRefs(old(instances), id)
      ensures !found ==> books == old(books) && instances == old(instances)
      ensures authors == old(authors) && genres == old(genres) && languages == old(languages)
      ensures users == old(users) && nextId == old(nextId)
    {
      found := id in BookIds(books);
      if found {
        DeleteBookKeepsConsistent(authors, languages, books, instances, users, nextId, id);
        books := WithoutBook(books, id);
        instances := ClearBookRefs(instances, id);
      }
    }

    /** Deletes a user. Copies they borrowed keep every field but lose the
        borrower; no copy is removed. An absent user changes nothing. */
    method DeleteUser(id: UserId) returns (found: bool)
      requires Valid()
      modifies this
      ensures Valid()
      ensures found <==> id in old(users)
      ensures found ==> users == old(users) - {id} && instances == ClearBorrowerRefs(old(instances), id)
      ensures !found ==> users == old(users) && instances == old(instances)
      ensures authors == old(authors) && genres == old(genres) && languages == old(languages)
      ensures books == old(books) && nextId == old(nextId)
    {
      found := id in users;
      if found {
        DeleteUserKeepsConsistent(authors, languages, books, instances, users, nextId, id);
        users := users - {id};
        instances := ClearBorrowerRefs(instances, id);
      }
    }
  }
}
