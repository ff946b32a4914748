/** The request handlers of catalog/views.py, with the web framework taken
    out: the caller and the requested page are parameters, the database is
    a `Catalog`, the session is a `Session`, and each rendered template,
    redirect or error status is a constructor of a response datatype. */
module Views {
  import opened Wrappers
  import opened Sorting
  import opened Models
  import opened Forms
  import opened Text

  // ---------------------------------------------------------------- access

  /** The permission that marks a librarian. */
  const CanMarkReturned: string := "catalog.can_mark_returned"

  /** Who sends the request: nobody logged in, or a user with their granted permissions. */
  datatype Caller = Anonymous | User(id: UserId, perms: set<string>)

  predicate IsLibrarian(c: Caller)
  {
    c.User? && CanMarkReturned in c.perms
  }

  datatype View =
    | Index | BookList | BookDetail | AuthorList | AuthorDetail
    | MyBorrowed | AllBorrowed | RenewBook
    | AuthorCreate | AuthorUpdate | AuthorDelete
    | BookCreate | BookUpdate | BookDelete

  /** How a view is protected in the source. */
  datatype Guard =
    | Open                // no mixin, no decorator
    | LoginRequired       // `LoginRequiredMixin`
    | LoginAndPermission  // `LoginRequiredMixin, PermissionRequiredMixin`
    | PermissionMixin     // `PermissionRequiredMixin` alone
    | PermissionDecorator // `@permission_required`

  function GuardOf(v: View): Guard
  {
    match v
    case Index | BookDetail | AuthorList | AuthorDetail => Open
    case BookList | MyBorrowed => LoginRequired
    case AllBorrowed => LoginAndPermission
    case RenewBook => PermissionDecorator
    case AuthorCreate | AuthorUpdate | AuthorDelete | BookCreate | BookUpdate | BookDelete => PermissionMixin
  }

  /** The outcome of the guard: go on, redirect to the login page, or answer 403. */
  datatype Gate = Pass | ToLogin | Denied

  /** The guard's decision. The permission mixin answers 403 to a logged-in
      caller without the permission and sends an anonymous one to log in;
      the decorator sends both to log in. */
  function Access(v: View, c: Caller): (g: Gate)
    ensures g == Pass <==> (NeedsLogin(v) ==> c.User?) && (NeedsLibrarian(v) ==> IsLibrarian(c))
    ensures g == Denied <==> c.User? && NeedsLibrarian(v) && !IsLibrarian(c) && v != RenewBook
  {
    match GuardOf(v)
    case Open => Pass
    case LoginRequired => if c.Anonymous? then ToLogin else Pass
    case LoginAndPermission =>
      if c.Anonymous? then ToLogin else if !IsLibrarian(c) then Denied else Pass
    case PermissionMixin =>
      if IsLibrarian(c) then Pass else if c.User? then Denied else ToLogin
    case PermissionDecorator => if IsLibrarian(c) then Pass else ToLogin
  }

  /** The views an anonymous caller is turned away from. */
  predicate NeedsLogin(v: View)
  {
    v in {BookList, MyBorrowed, AllBorrowed, RenewBook,
          AuthorCreate, AuthorUpdate, AuthorDelete, BookCreate, BookUpdate, BookDelete}
  }

  /** The views only a librarian may use. */
  predicate NeedsLibrarian(v: View)
  {
    v in {AllBorrowed, RenewBook,
          AuthorCreate, AuthorUpdate, AuthorDelete, BookCreate, BookUpdate, BookDelete}
  }

  /** A librarian passes every guard; an anonymous caller passes only the open views. */
  lemma AccessExtremes(v: View, c: Caller)
    ensures IsLibrarian(c) ==> Access(v, c) == Pass
    ensures c.Anonymous? ==> (Access(v, c) == Pass <==> GuardOf(v) == Open)
    ensures Access(v, c) == Denied ==> GuardOf(v) in {LoginAndPermission, PermissionMixin}
  {
  }

  /** Granting more permissions never takes access away. */
  lemma AccessMonotone(v: View, id: UserId, p: set<string>, q: set<string>)
    requires p <= q
    ensures Access(v, User(id, p)) == Pass ==> Access(v, User(id, q)) == Pass
  {
  }

  // ------------------------------------------------------------ pagination

  /** `paginate_by` of each list view. */
  const BookPageSize: nat := 5
  const AuthorPageSize: nat := 10
  const LoanPageSize: nat := 10

  /** The paginator's page count: an empty list still has one (empty) page. */
  function NumPages(n: nat, size: nat): (p: nat)
    requires size > 0
    ensures p >= 1
    ensures n == 0 ==> p == 1
  {
    var m := if n == 0 then 1 else n;
    (m + size - 1) / size
  }

  /** The page count is the number of pages of `size` that `n` items fill, the last perhaps partly. */
  lemma NumPagesBounds(n: nat, size: nat)
    requires size > 0
    ensures n > 0 ==> (NumPages(n, size) - 1) * size < n <= NumPages(n, size) * size
  {
  }

  /** Page `number` (counted from 1) of `s`, or nothing when there is no such page. */
  function Paginate<T>(s: seq<T>, size: nat, number: int): (r: Option<seq<T>>)
    requires size > 0
    ensures r.Some? <==> 1 <= number <= NumPages(|s|, size)
    ensures r.Some? ==> |r.value| <= size
  {
    if 1 <= number <= NumPages(|s|, size) then
      PageBounds(|s|, size, number);
      Some(s[PageStart(size, number)..PageEnd(|s|, size, number)])
    else None
  }

  /** The paginator's `bottom`: the index of the page's first item. */
  function PageStart(size: nat, number: int): int
  {
    (number - 1) * size
  }

  /** The paginator's `top`: one past the page's last item, cut at the end of the list. */
  function PageEnd(n: nat, size: nat, number: int): int
  {
    if number * size <= n then number * size else n
  }

  /** An existing page starts inside the list and holds at most `size` items. */
  lemma PageBounds(n: nat, size: nat, number: int)
    requires size > 0 && 1 <= number <= NumPages(n, size)
    ensures 0 <= PageStart(size, number) <= PageEnd(n, size, number) <= n
    ensures PageEnd(n, size, number) - PageStart(size, number) <= size
  {
    NumPagesBounds(n, size);
    MulMonotone(number - 1, NumPages(n, size) - 1, size);
    DistributeOne(number - 1, size);
  }

  lemma MulMonotone(a: nat, b: nat, c: nat)
    requires a <= b
    ensures a * c <= b * c
  {
  }

  /** An independent description of the pages: cut `size` elements off the
      front until at most `size` remain. */
  function Chunks<T>(s: seq<T>, size: nat): (r: seq<seq<T>>)
    requires size > 0
    ensures |r| == NumPages(|s|, size)
    decreases |s|
  {
    if |s| <= size then [s]
    else
      var rest := Chunks(s[size..], size);
      NumPagesStep(|s|, size);
      [s[..size]] + rest
  }

  /** Removing one full page removes one from the count. */
  lemma NumPagesStep(n: nat, size: nat)
    requires size > 0 && n > size
    ensures NumPages(n, size) == NumPages(n - size, size) + 1
  {
    var p, q := NumPages(n, size), NumPages(n - size, size);
    NumPagesBounds(n, size);
    NumPagesBounds(n - size, size);
    assert (q + 1 - 1) * size < n <= (q + 1) * size;
    if p < q + 1 {
      MulMonotone(p, q, size);
    } else if p > q + 1 {
      MulMonotone(q + 1, p - 1, size);
    }
  }

  function Flatten<T>(pages: seq<seq<T>>): seq<T>
  {
    if |pages| == 0 then [] else pages[0] + Flatten(pages[1..])
  }

  /** Each page the paginator serves is the corresponding chunk. */
  lemma {:induction false} PageIsChunk<T>(s: seq<T>, size: nat, number: int)
    requires size > 0 && 1 <= number <= NumPages(|s|, size)
    ensures Paginate(s, size, number) == Some(Chunks(s, size)[number - 1])
    decreases |s|
  {
    if number == 1 {
      var hi := if size <= |s| then size else |s|;
      assert PageStart(size, 1) == 0 && PageEnd(|s|, size, 1) == hi;
      if |s| <= size {
        assert s[0..hi] == s;
      }
    } else {
      NumPagesSingle(|s|, size);
      NumPagesStep(|s|, size);
      PageIsChunk(s[size..], size, number - 1);
      assert Chunks(s, size)[number - 1] == Chunks(s[size..], size)[number - 2];
      PageShift(s, size, number);
    }
  }

  /** Up to `size` items fit on a single page. */
  lemma NumPagesSingle(n: nat, size: nat)
    requires size > 0
    ensures NumPages(n, size) == 1 <==> n <= size
  {
  }

  /** Page `number` of `s` is page `number - 1` of `s` without its first page. */
  lemma PageShift<T>(s: seq<T>, size: nat, number: int)
    requires size > 0 && |s| > size && 2 <= number <= NumPages(|s|, size)
    requires NumPages(|s|, size) == NumPages(|s| - size, size) + 1
    ensures Paginate(s, size, number) == Paginate(s[size..], size, number - 1)
  {
    var n := |s|;
    PageBounds(n, size, number);
    PageBounds(n - size, size, number - 1);
    var lo, hi := PageStart(size, number), PageEnd(n, size, number);
    var lo', hi' := PageStart(size, number - 1), PageEnd(n - size, size, number - 1);
    assert lo' == lo - size && hi' == hi - size by {
      DistributeOne(number - 1, size);
      DistributeOne(number - 2, size);
    }
    DropSlice(s, size, lo', hi');
  }

  lemma DropSlice<T>(s: seq<T>, d: nat, lo: nat, hi: nat)
    requires d <= |s| && lo <= hi <= |s| - d
    ensures s[d..][lo..hi] == s[lo + d..hi + d]
  {
  }

  lemma DistributeOne(k: int, size: int)
    ensures (k + 1) * size == k * size + size
  {
  }

  /** The pages, read in order, are the whole list: nothing is skipped or repeated. */
  lemma {:induction false} ChunksCover<T>(s: seq<T>, size: nat)
    requires size > 0
    ensures Flatten(Chunks(s, size)) == s
    decreases |s|
  {
    if |s| > size {
      ChunksCover(s[size..], size);
      var c := Chunks(s, size);
      assert c[1..] == Chunks(s[size..], size);
      assert s == s[..size] + s[size..];
    } else {
      assert Flatten([s]) == s + [];
    }
  }

  // --------------------------------------------------------------- queries

  /** `LoanedBooksByUserListView.get_queryset`: the caller's copies on loan, by due date. */
  function MyBorrowedBooks(instances: seq<BookInstance>, user: UserId): (r: seq<BookInstance>)
    ensures forall c :: multiset(r)[c] ==
                        if c.borrower == Some(user) && c.status == OnLoan then multiset(instances)[c] else 0
    ensures forall c :: c in r <==> c in instances && c.borrower == Some(user) && c.status == OnLoan
    ensures forall i, j :: 0 <= i < j < |r| ==> DueBackLe(r[i].dueBack, r[j].dueBack)
  {
    var r := OrderedInstances(Filter(instances, (c: BookInstance) => c.borrower == Some(user) && c.status == OnLoan));
    assert forall c :: c in r <==> c in multiset(r);
    r
  }

  /** `LoanedBooksLibrarianView.get_queryset`: every copy on loan, whoever holds it, by due date. */
  function LoanedBooks(instances: seq<BookInstance>): (r: seq<BookInstance>)
    ensures forall c :: multiset(r)[c] == if c.status == OnLoan then multiset(instances)[c] else 0
    ensures forall c :: c in r <==> c in instances && c.status == OnLoan
    ensures forall i, j :: 0 <= i < j < |r| ==> DueBackLe(r[i].dueBack, r[j].dueBack)
  {
    var r := OrderedInstances(Filter(instances, (c: BookInstance) => c.status == OnLoan));
    assert forall c :: c in r <==> c in multiset(r);
    r
  }

  /** Two borrowers' lists never share a copy, and together they fit inside the librarian's list. */
  lemma BorrowersWithinLoaned(instances: seq<BookInstance>, u: UserId, w: UserId)
    requires u != w
    ensures multiset(MyBorrowedBooks(instances, u)) + multiset(MyBorrowedBooks(instances, w))
            <= multiset(LoanedBooks(instances))
    ensures multiset(MyBorrowedBooks(instances, u)) !! multiset(MyBorrowedBooks(instances, w))
  {
    var a, b, l := MyBorrowedBooks(instances, u), MyBorrowedBooks(instances, w), LoanedBooks(instances);
    forall c ensures (multiset(a) + multiset(b))[c] <= multiset(l)[c] && (multiset(a)[c] == 0 || multiset(b)[c] == 0) {
      var m := multiset(instances)[c];
      assert multiset(a)[c] == if c.borrower == Some(u) && c.status == OnLoan then m else 0;
      assert multiset(b)[c] == if c.borrower == Some(w) && c.status == OnLoan then m else 0;
      assert multiset(l)[c] == if c.status == OnLoan then m else 0;
    }
  }

  // ------------------------------------------------------------ list views

  /** What a list view answers: the guard's refusal, 404 for a page that does
      not exist, or the page with the paginator's `is_paginated` flag. */
  datatype ListResponse<T> = Refused(gate: Gate) | PageNotFound | Listing(items: seq<T>, isPaginated: bool)

  /** A `ListView` with `paginate_by = size` over the already ordered `ordered`. */
  function ListPage<T>(ordered: seq<T>, size: nat, number: int): (r: ListResponse<T>)
    requires size > 0
    ensures r.PageNotFound? <==> !(1 <= number <= NumPages(|ordered|, size))
    ensures r.Listing? ==> |r.items| <= size && r.isPaginated == (|ordered| > size)
    ensures r.Listing? ==> r.items == Chunks(ordered, size)[number - 1]
    ensures !r.Refused?
  {
    match Paginate(ordered, size, number)
    case None => PageNotFound
    case Some(items) =>
      PageIsChunk(ordered, size, number);
      NumPagesSingle(|ordered|, size);
      Listing(items, NumPages(|ordered|, size) > 1)
  }

  /** `BookListView`: logged-in callers only, five books a page, in stored order. */
  function BookListView(books: seq<Book>, c: Caller, number: int): (r: ListResponse<Book>)
    ensures c.Anonymous? <==> r == Refused(ToLogin)
    ensures r.Refused? <==> Access(BookList, c) != Pass
    ensures r.Refused? ==> r.gate == Access(BookList, c)
    ensures r.Listing? ==> |r.items| <= BookPageSize && forall b :: b in r.items ==> b in books
    ensures c.User? ==> (r.PageNotFound? <==> !(1 <= number <= NumPages(|books|, BookPageSize)))
    ensures r.Listing? ==> r.items == Chunks(books, BookPageSize)[number - 1]
  {
    if Access(BookList, c) != Pass then Refused(Access(BookList, c))
    else
      var r := ListPage(books, BookPageSize, number);
      if r.Listing? then
        ChunkWithin(books, BookPageSize, number - 1);
        r
      else r
  }

  /** `AuthorListView`: open to all, ten authors a page, by last name. */
  function AuthorListView(authors: seq<Author>, number: int): (r: ListResponse<Author>)
    ensures !r.Refused?
    ensures r.Listing? ==> |r.items| <= AuthorPageSize
    ensures r.PageNotFound? <==> !(1 <= number <= NumPages(|authors|, AuthorPageSize))
    ensures r.Listing? ==> forall x :: x in r.items ==> x in authors
    ensures r.Listing? ==> r.items == Chunks(OrderedAuthors(authors), AuthorPageSize)[number - 1]
    ensures r.Listing? ==> forall i, j :: 0 <= i < j < |r.items| ==> StrLe(r.items[i].lastName, r.items[j].lastName)
  {
    var ordered := OrderedAuthors(authors);
    var r := ListPage(ordered, AuthorPageSize, number);
    if r.Listing? then
      AuthorPageInOrder(ordered, number - 1);
      r
    else r
  }

  /** `LoanedBooksByUserListView`: a logged-in caller's own copies on loan, ten a page, by due date. */
  function MyBorrowedView(instances: seq<BookInstance>, c: Caller, number: int): (r: ListResponse<BookInstance>)
    ensures r.Refused? <==> Access(MyBorrowed, c) != Pass
    ensures r.Refused? ==> r.gate == Access(MyBorrowed, c)
    ensures c.Anonymous? <==> r == Refused(ToLogin)
    ensures r.Listing? ==> |r.items| <= LoanPageSize
    ensures r.Listing? ==> forall b :: b in r.items ==>
      b in instances && b.borrower == Some(c.id) && b.status == OnLoan
    ensures c.User? ==>
      (r.PageNotFound? <==> !(1 <= number <= NumPages(|MyBorrowedBooks(instances, c.id)|, LoanPageSize)))
    ensures r.Listing? ==> r.items == Chunks(MyBorrowedBooks(instances, c.id), LoanPageSize)[number - 1]
    ensures r.Listing? ==> forall i, j :: 0 <= i < j < |r.items| ==> DueBackLe(r.items[i].dueBack, r.items[j].dueBack)
  {
    if Access(MyBorrowed, c) != Pass then Refused(Access(MyBorrowed, c))
    else
      var r := ListPage(MyBorrowedBooks(instances, c.id), LoanPageSize, number);
      if r.Listing? then
        MyBorrowedPage(instances, c.id, number - 1);
        r
      else r
  }

  /** Every page of a borrower's list holds only their own copies on loan, in due-date order. */
  lemma MyBorrowedPage(instances: seq<BookInstance>, user: UserId, k: nat)
    requires k < |Chunks(MyBorrowedBooks(instances, user), LoanPageSize)|
    ensures forall b :: b in Chunks(MyBorrowedBooks(instances, user), LoanPageSize)[k] ==>
      b in instances && b.borrower == Some(user) && b.status == OnLoan
    ensures var page := Chunks(MyBorrowedBooks(instances, user), LoanPageSize)[k];
      forall i, j :: 0 <= i < j < |page| ==> DueBackLe(page[i].dueBack, page[j].dueBack)
  {
    LoanPageInOrder(MyBorrowedBooks(instances, user), k);
  }

  /** `LoanedBooksLibrarianView`: librarians only, every copy on loan, ten a page, by due date. */
  function LoanedBooksView(instances: seq<BookInstance>, c: Caller, number: int): (r: ListResponse<BookInstance>)
    ensures r.Refused? <==> Access(AllBorrowed, c) != Pass
    ensures r.Refused? ==> r.gate == Access(AllBorrowed, c)
    ensures c.Anonymous? <==> r == Refused(ToLogin)
    ensures c.User? && !IsLibrarian(c) <==> r == Refused(Denied)
    ensures r.Listing? ==> |r.items| <= LoanPageSize
    ensures r.Listing? ==> forall b :: b in r.items ==> b in instances && b.status == OnLoan
    ensures IsLibrarian(c) ==> (r.PageNotFound? <==> !(1 <= number <= NumPages(|LoanedBooks(instances)|, LoanPageSize)))
    ensures r.Listing? ==> r.items == Chunks(LoanedBooks(instances), LoanPageSize)[number - 1]
    ensures r.Listing? ==> forall i, j :: 0 <= i < j < |r.items| ==> DueBackLe(r.items[i].dueBack, r.items[j].dueBack)
  {
    if Access(AllBorrowed, c) != Pass then Refused(Access(AllBorrowed, c))
    else
      var ordered := LoanedBooks(instances);
      var r := ListPage(ordered, LoanPageSize, number);
      if r.Listing? then
        LoanPageInOrder(ordered, number - 1);
        r
      else r
  }

  /** A page of a list of copies in due-date order is in due-date order, and
      holds only copies of the list. */
  lemma LoanPageInOrder(ordered: seq<BookInstance>, k: nat)
    requires k < |Chunks(ordered, LoanPageSize)|
    requires forall i, j :: 0 <= i < j < |ordered| ==> DueBackLe(ordered[i].dueBack, ordered[j].dueBack)
    ensures forall x :: x in Chunks(ordered, LoanPageSize)[k] ==> x in ordered
    ensures forall i, j :: 0 <= i < j < |Chunks(ordered, LoanPageSize)[k]| ==>
      DueBackLe(Chunks(ordered, LoanPageSize)[k][i].dueBack, Chunks(ordered, LoanPageSize)[k][j].dueBack)
  {
    var lo, hi := ChunkIsSlice(ordered, LoanPageSize, k);
    var page := ordered[lo..hi];
    forall i, j | 0 <= i < j < |page| ensures DueBackLe(page[i].dueBack, page[j].dueBack) {
      assert page[i] == ordered[lo + i] && page[j] == ordered[lo + j];
    }
  }

  /** A page of a list of authors in last-name order is in last-name order,
      and holds only authors of the list. */
  lemma AuthorPageInOrder(ordered: seq<Author>, k: nat)
    requires k < |Chunks(ordered, AuthorPageSize)|
    requires forall i, j :: 0 <= i < j < |ordered| ==> StrLe(ordered[i].lastName, ordered[j].lastName)
    ensures forall x :: x in Chunks(ordered, AuthorPageSize)[k] ==> x in ordered
    ensures forall i, j :: 0 <= i < j < |Chunks(ordered, AuthorPageSize)[k]| ==>
      StrLe(Chunks(ordered, AuthorPageSize)[k][i].lastName, Chunks(ordered, AuthorPageSize)[k][j].lastName)
  {
    var lo, hi := ChunkIsSlice(ordered, AuthorPageSize, k);
    var page := ordered[lo..hi];
    forall i, j | 0 <= i < j < |page| ensures StrLe(page[i].lastName, page[j].lastName) {
      assert page[i] == ordered[lo + i] && page[j] == ordered[lo + j];
    }
  }

  /** Chunk `k` is the run of the list from `lo` to `hi`. */
  lemma ChunkIsSlice<T>(s: seq<T>, size: nat, k: nat) returns (lo: nat, hi: nat)
    requires size > 0 && k < |Chunks(s, size)|
    ensures lo <= hi <= |s| && Chunks(s, size)[k] == s[lo..hi]
  {
    PageIsChunk(s, size, k + 1);
    PageBounds(|s|, size, k + 1);
    lo, hi := PageStart(size, k + 1), PageEnd(|s|, size, k + 1);
  }

  /** Every element of a chunk is an element of the list. */
  lemma ChunkWithin<T>(s: seq<T>, size: nat, k: nat)
    requires size > 0 && k < |Chunks(s, size)|
    ensures forall x :: x in Chunks(s, size)[k] ==> x in s
  {
    var lo, hi := ChunkIsSlice(s, size, k);
    assert forall x :: x in s[lo..hi] ==> x in s;
  }

  /** Thirteen authors make two pages, of ten and of three, and no third page. */
  lemma ThirteenAuthorsPaginate(authors: seq<Author>)
    requires |authors| == 13
    ensures AuthorListView(authors, 1).Listing? && |AuthorListView(authors, 1).items| == 10
    ensures AuthorListView(authors, 1).isPaginated
    ensures AuthorListView(authors, 2).Listing? && |AuthorListView(authors, 2).items| == 3
    ensures AuthorListView(authors, 3) == PageNotFound
  {
    var ordered := OrderedAuthors(authors);
    assert |ordered| == 13 by { assert |multiset(ordered)| == |multiset(authors)|; }
    assert NumPages(13, 10) == 2;
    PageIsChunk(ordered, 10, 1);
    PageIsChunk(ordered, 10, 2);
  }

  // --------------------------------------------------------------- renewal

  /** `get_object_or_404(BookInstance, pk=pk)`: the position of the copy with key `pk`. */
  function FindInstance(s: seq<BookInstance>, pk: InstanceId): (r: Option<nat>)
    ensures r.Some? ==> r.value < |s| && s[r.value].id == pk
    ensures r.None? <==> pk !in InstanceIds(s)
  {
    if |s| == 0 then None
    else if s[0].id == pk then Some(0)
    else
      match FindInstance(s[1..], pk)
      case None =>
        assert s == [s[0]] + s[1..];
        None
      case Some(i) => Some(i + 1)
  }

  /** The request method: a POST carries the submitted date (absent when the
      field is missing or does not parse); anything else shows the form. */
  datatype RenewRequest = Get | Post(renewalDate: DateInput)

  datatype RenewResponse =
    | RenewToLogin                                          // the decorator's redirect
    | InstanceNotFound                                      // 404
    | ShowRenewForm(proposed: Date, instance: BookInstance) // the form, filled with a proposal
    | ShowFormErrors(error: FormError, instance: BookInstance) // the form again, with its error
    | RenewedRedirect                                       // redirect to the loaned-books list

  /** `renew_book_librarian`: a librarian's GET proposes today plus three
      weeks; a valid POST sets the copy's due date and nothing else. */
  method RenewBookLibrarian(cat: Catalog, c: Caller, pk: InstanceId, req: RenewRequest, today: Date)
    returns (resp: RenewResponse)
    requires cat.Valid()
    modifies cat
    ensures cat.Valid()
    ensures cat.authors == old(cat.authors) && cat.genres == old(cat.genres) && cat.languages == old(cat.languages)
    ensures cat.books == old(cat.books) && cat.users == old(cat.users) && cat.nextId == old(cat.nextId)
    ensures !IsLibrarian(c) ==> resp == RenewToLogin
    ensures IsLibrarian(c) && pk !in InstanceIds(old(cat.instances)) ==> resp == InstanceNotFound
    ensures IsLibrarian(c) && pk in InstanceIds(old(cat.instances)) ==>
      var i := FindInstance(old(cat.instances), pk).value;
      var inst := old(cat.instances)[i];
      match req
      case Get => resp == ShowRenewForm(today + ProposedRenewalDays, inst)
      case Post(d) =>
        match ValidateRenewBookForm(d, today)
        case Success(date) =>
          resp == RenewedRedirect && cat.instances == old(cat.instances)[i := inst.(dueBack := Some(date))]
        case Failure(e) => resp == ShowFormErrors(e, inst)
    ensures resp != RenewedRedirect ==> cat.instances == old(cat.instances)
  {
    if !IsLibrarian(c) {
      return RenewToLogin;
    }
    var found := FindInstance(cat.instances, pk);
    if found.None? {
      return InstanceNotFound;
    }
    var i := found.value;
    var inst := cat.instances[i];
    match req {
      case Get =>
        resp := ShowRenewForm(today + ProposedRenewalDays, inst);
      case Post(d) =>
        match ValidateRenewBookForm(d, today) {
          case Success(date) =>
            SetDueBackKeepsRefs(cat.instances, cat.books, cat.users, i, Some(date));
            cat.instances := cat.instances[i := inst.(dueBack := Some(date))];
            resp := RenewedRedirect;
          case Failure(e) =>
            resp := ShowFormErrors(e, inst);
        }
    }
  }

  /** A copy renewed to an accepted date is not overdue today, and is overdue
      29 days later at the latest. */
  lemma RenewedNotOverdue(inst: BookInstance, input: DateInput, today: Date)
    requires ValidateRenewBookForm(input, today).Success?
    ensures !IsOverdue(inst.(dueBack := Some(input.date)), today)
    ensures IsOverdue(inst.(dueBack := Some(input.date)), today + MaxRenewalDays + 1)
  {
  }

  // ------------------------------------------------------------ home page

  /** The visitor's session; `numVisits` is absent until the first visit. */
  class Session {
    var numVisits: Option<int>

    constructor ()
      ensures numVisits == None
    {
      numVisits := None;
    }
  }

  /** The substring whose titles the home page counts. */
  const WordY: string := " y "

  /** Under SQLite's `LIKE` the home page's count also takes titles with " Y ". */
  lemma WordYIgnoresCase()
    ensures LikeContains("Sol Y Luna", WordY)
    ensures LikeContains("sol y luna", WordY)
  {
    assert Lower("Sol Y Luna")[3..6] == WordY;
    assert OccursAt(Lower("Sol Y Luna"), Lower(WordY), 3);
    LikeContainsExact("sol y luna", WordY, 3);
  }

  /** The count wants " y " as a word: a "y" between hyphens does not match. */
  lemma WordYNeedsSpaces()
    ensures !LikeContains("Sol-Y-Luna", WordY)
  {
    var t := "Sol-Y-Luna";
    forall k | 0 <= k < |t| ensures Lower(t)[k] != ' ' {
      assert t[k] != ' ';
    }
    assert Lower(WordY)[0] == ' ';
  }

  datatype IndexContext = IndexContext(
    numBooks: nat,
    numInstances: nat,
    numInstancesAvailable: nat,
    numAuthors: nat,
    numGenres: nat,
    numBooksWithY: nat,
    numVisits: int)

  /** `index`: counts the catalog and records one more visit in the session. */
  method IndexView(cat: Catalog, session: Session) returns (ctx: IndexContext)
    modifies session
    ensures ctx.numBooks == |cat.books| && ctx.numInstances == |cat.instances|
    ensures ctx.numAuthors == |cat.authors| && ctx.numGenres == |cat.genres|
    ensures ctx.numInstancesAvailable == CountStatus(cat.instances, Available)
    ensures ctx.numBooksWithY == CountTitlesContaining(cat.books, WordY)
    ensures ctx.numVisits == old(session.numVisits).GetOr(0) + 1
    ensures session.numVisits == Some(ctx.numVisits)
  {
    var visits := session.numVisits.GetOr(0);
    visits := visits + 1;
    session.numVisits := Some(visits);
    ctx := IndexContext(
      |cat.books|, |cat.instances|, CountStatus(cat.instances, Available),
      |cat.authors|, |cat.genres|, CountTitlesContaining(cat.books, WordY), visits);
  }
}
