# Local library catalogue: loan and renewal rules

A verified Dafny model of the domain rules of a small library catalogue web
application: its books, authors, genres and languages, and the loanable copies
of books ("book instances") that borrowers take out and librarians renew.
The web framework is taken out. Dates are day numbers, and the current date
`today` is a parameter. Four weeks are 28 days and three weeks are 21. The
database is an in-memory `Catalog` of sequences. The caller, the requested
page number and the session are parameters. Templates, redirects and HTTP
statuses are constructors of response datatypes. The database is SQLite,
the default of a Django project: absent due dates sort first, and `__contains`
is SQLite's `LIKE`, which ignores the case of ASCII letters.

Modules, one per source file plus three helpers:

- `Forms` (catalog/forms.py): the renewal form and `clean_renewal_date`. A date
  before today is refused as "in the past". A date after today + 28 is refused
  as "more than 4 weeks". Any other date is returned unchanged.
- `Models` (catalog/models.py): the records; the loan status choices and
  their default; `is_overdue`; the default orderings; the `Author` string form;
  `display_genre`. It also holds the `Catalog` store class, which keeps
  language names unique and clears references ("set null") when a referenced
  author, language, book or user is deleted.
- `Views` (catalog/views.py): the access gate of every view; the two loan
  queries; the paginator; the renewal view (a method that updates the store);
  the home page (a method that counts the store and bumps the session's visit
  counter).
- `Text`, `Sorting`, `Wrappers`: `", ".join` and `split(", ")` (joining the
  pieces of a split gives the string back; splitting a join gives the parts
  back when no part holds a comma), substring search and SQLite's `LIKE`; `filter` and `order_by` (a generic insertion sort proved
  sorted and a permutation); `Option` and `Result`.

In three places the code is easy to misread; the model follows the code:

- Book detail (catalog/views.py:60) has no login mixin, so it is open to
  anonymous callers.
- `status` is declared `blank=True` (catalog/models.py:96), so the admin form
  can store the empty string. The model therefore has a fifth status, `Blank`,
  beside the four choices.
- The renewal view is guarded by the `@permission_required` decorator
  (catalog/views.py:94). A logged-in caller without the permission is
  therefore redirected to log in, not answered with 403. The mixin-based
  views do answer 403.

## Model

| member | source | states |
|---|---|---|
| `Forms.CleanRenewalDate` | catalog/forms.py:12-23 | The date is accepted, and returned unchanged, exactly when today ≤ d ≤ today+28. It is refused as in the past exactly when d < today, and as more than four weeks ahead exactly when d > today+28. |
| `Forms.ErrorMessagesDiffer` | catalog/forms.py:16-21 | The two refusals show different messages, so a date in the past can be told from one too far ahead. |
| `Forms.RenewalWindowBoundaries` | catalog/forms.py:16-21 | Both ends are inclusive: today and today+28 are accepted, while today−1 and today+29 are refused with the matching error. |
| `Forms.ExactlyOneOutcome` | catalog/forms.py:16-23 | Every date gets exactly one of accepted, in-the-past or too-far. The two error conditions never hold together. |
| `Forms.ProposedDateAccepted` | catalog/forms.py:10 | The proposed date today+21 is accepted, a week inside the limit. |
| `Forms.RenewalScenario` | catalog/forms.py:16-23 | One day back is refused as past, 31 days on is refused as too far, and 14 days on is accepted unchanged. |
| `Forms.ValidateRenewBookForm` | catalog/forms.py:9-23 | The form is valid exactly when a date was entered and the rule accepts it, and then it yields that date. An empty field is the `required` error, text that is not a date the `invalid` error, and a refused date carries the rule's own error (past or too far). |
| `Models.StatusFromCode` | catalog/models.py:89-96 | A stored code is read back exactly when it is one of 'm', 'o', 'a', 'r' or the blank the field allows, and it maps to the status with that code. |
| `Models.StatusCodeRoundTrip` | catalog/models.py:89-96 | Every status is stored as a code that reads back as itself. |
| `Models.IsOverdue` | catalog/models.py:104-108 | A copy is overdue exactly when it has a due date and that date is before today. An absent due date, or one equal to today, is not overdue. |
| `Models.AuthorString` | catalog/models.py:133-134 | The string form is the last name, then ", ", then the first name: its length and all three parts are stated. |
| `Models.AuthorStringParses` | catalog/models.py:133-134 | For a last name without a comma, splitting the string form on ", " gives back the last name, and the remaining pieces join back into the first name. |
| `Models.DisplayGenre` | catalog/models.py:56-60 | A book without genres displays as the empty string. Otherwise the display is the names of its first one, two or three genres joined by ", ", whatever the names hold. |
| `Models.DisplayGenreSplits` | catalog/models.py:56-60 | For comma-free genre names, the display splits back into exactly the names of the first min(3, n) genres, in order. |
| `Models.ByDueBackIsTotalPreorder` | catalog/models.py:100-101 | The due-date order compares every pair of copies and is transitive. |
| `Models.ByLastNameIsTotalPreorder` | catalog/models.py:136-137 | The last-name order on authors compares every pair and is transitive. |
| `Models.OrderedInstances` | catalog/models.py:100-101 | The default order of copies is a permutation of them, with due dates non-decreasing. |
| `Models.OrderedAuthors` | catalog/models.py:136-137 | The default order of authors is a permutation of them (same length, same members), with last names non-decreasing. |
| `Models.StatusCountsPartition` | catalog/models.py:89-96 | The per-status counts of any list of copies add up to its length: each copy has exactly one status. |
| `Models.CountStatus` | catalog/views.py:29 | The count is at most the number of copies, and it is zero exactly when no copy has that status. |
| `Models.CountTitlesContaining` | catalog/views.py:36 | The count is at most the number of books, and it is zero exactly when no title matches the substring under SQLite's `LIKE`. |
| `Text.LikeContains` | catalog/views.py:36 | `title__contains` on SQLite holds exactly when the substring occurs at some position of the title once ASCII letters are lowered on both sides. |
| `Text.LikeContainsExact` | catalog/views.py:36 | An exact occurrence of the substring is always a match. |
| `Text.LikeContainsIgnoresCase` | catalog/views.py:36 | Lowering the title or the substring first does not change the match. |
| `Views.WordYIgnoresCase` | catalog/views.py:36 | The home page's " y " count takes "Sol Y Luna" and "sol y luna": the match ignores case. |
| `Views.WordYNeedsSpaces` | catalog/views.py:36 | The home page's " y " count does not take "Sol-Y-Luna": the spaces must be there. |
| `Models.ClearAuthorRefs` | catalog/models.py:42 | Books that named the deleted author lose that reference and no other field. All other books are untouched, and none is removed. |
| `Models.ClearLanguageRefs` | catalog/models.py:54 | The same as above for a deleted language. |
| `Models.ClearBookRefs` | catalog/models.py:83 | The same as above for a deleted book, applied to copies. |
| `Models.ClearBorrowerRefs` | catalog/models.py:98 | The same as above for a deleted user, applied to copies. |
| `Models.WithoutLanguage` | catalog/models.py:26 | Removing a language keeps exactly the other languages, and keeps their keys and names distinct. |
| `Models.Catalog.AddLanguage` | catalog/models.py:26 | A name already stored is refused, and nothing changes, including the key counter. Otherwise the language is appended under the next key, the counter advances by one, and the store stays valid. |
| `Models.Catalog.AddBookInstance` | catalog/models.py:81-98 | A new copy gets the next key and the counter advances by one. Its status defaults to maintenance when none is given. A reference to a book or user that is not stored is refused, and nothing changes. |
| `Models.Catalog.DeleteAuthor` | catalog/models.py:42 | The author is removed. Its books stay with the reference cleared, and no other table changes. The store stays free of dangling references. |
| `Models.Catalog.DeleteLanguage` | catalog/models.py:54 | The same as above for a language. |
| `Models.Catalog.DeleteBook` | catalog/models.py:83 | The same as above for a book and its copies. |
| `Models.Catalog.DeleteUser` | catalog/models.py:98 | The same as above for a user and the copies they borrowed. |
| `Models.DeleteAuthorKeepsRefs` | catalog/models.py:42 | After an author is deleted and its references are cleared, no book names a missing author or language, and the books keep their distinct keys. |
| `Models.DeleteLanguageKeepsRefs` | catalog/models.py:54 | The same as above for a deleted language. |
| `Models.DeleteBookKeepsRefs` | catalog/models.py:83 | After a book is deleted and its references are cleared, no copy names a missing book or user, and every copy keeps its key. |
| `Models.DeleteUserKeepsRefs` | catalog/models.py:98 | The same as above for a deleted user. |
| `Models.DeleteAuthorKeepsConsistent` | catalog/models.py:42 | Deleting an author and clearing the references to it keeps the store consistent: keys stay unique and below the counter, language names stay unique, and no reference dangles. |
| `Models.DeleteLanguageKeepsConsistent` | catalog/models.py:54 | Deleting a language and clearing the references to it keeps the store consistent: keys stay unique and below the counter, language names stay unique, and no reference dangles. |
| `Models.DeleteBookKeepsConsistent` | catalog/models.py:83 | Deleting a book and clearing the references to it keeps the store consistent: keys stay unique and below the counter, language names stay unique, and no reference dangles. |
| `Models.DeleteUserKeepsConsistent` | catalog/models.py:98 | Deleting a user and clearing the references to it keeps the store consistent: keys stay unique and below the counter, language names stay unique, and no reference dangles. |
| `Models.SetDueBackKeepsRefs` | catalog/views.py:107-108 | Changing one copy's due date keeps every book and borrower reference valid and every key in place. |
| `Sorting.Filter` | catalog/views.py:80-81 | The filter keeps exactly the elements that satisfy the condition, with their multiplicities. |
| `Sorting.SortBy` | catalog/views.py:81 | `order_by` returns a permutation of its input, sorted under any total preorder. |
| `Views.Access` | catalog/views.py:53-157 | A view passes exactly when the caller satisfies its login and librarian requirements. It answers 403 exactly to a logged-in non-librarian on a librarian view other than renewal; every other refusal is a login redirect. |
| `Views.AccessExtremes` | catalog/tests/test_views.py:282-299 | A librarian passes every view, an anonymous caller passes only the open views, and 403 comes only from the permission mixins. |
| `Views.AccessMonotone` | catalog/views.py:84-88 | Granting more permissions never takes access away. |
| `Views.MyBorrowedBooks` | catalog/views.py:80-81 | The result holds exactly the caller's copies with status 'o', with their multiplicities, sorted by due date. |
| `Views.LoanedBooks` | catalog/views.py:90-91 | The result holds exactly the copies with status 'o', whoever borrowed them, sorted by due date. |
| `Views.BorrowersWithinLoaned` | catalog/tests/test_views.py:98-130 | Two borrowers' lists share no copy, and together they fit inside the librarian's list. |
| `Views.NumPagesBounds` | catalog/views.py:78 | The page count is the smallest number of pages of the given size that holds the list. |
| `Views.NumPagesSingle` | catalog/views.py:78 | There is a single page exactly when the list fits in one page. |
| `Views.Paginate` | catalog/views.py:78 | A page exists exactly when 1 ≤ p ≤ the page count, and it holds at most the page size. |
| `Views.PageIsChunk` | catalog/views.py:87 | Page p is the p-th run of at most k consecutive items, i.e. items (p−1)·k to min(p·k, n). |
| `Views.ChunksCover` | catalog/views.py:87 | The pages read in order are exactly the whole list. |
| `Views.ListPage` | catalog/views.py:66 | A missing page is 404. A served page has at most the page size items, and it is flagged paginated exactly when the list exceeds one page. |
| `Views.BookListView` | catalog/views.py:53-55 | The answer is refused exactly when the login gate refuses, and then anonymous callers are sent to log in. For others, page p is 404 exactly when p is outside 1 to the page count, and otherwise it is the p-th run of five stored books. |
| `Views.AuthorListView` | catalog/views.py:64-66 | Open to all. Page p is 404 exactly when p is outside 1 to the page count, and otherwise it is the p-th run of ten authors in last-name order, each a stored author. |
| `Views.MyBorrowedView` | catalog/views.py:72-81 | The answer is refused exactly when the login gate refuses, and then anonymous callers are sent to log in. For others, page p is 404 exactly when p is outside 1 to the page count, and otherwise it is the p-th run of ten of the caller's own on-loan copies in due-date order. |
| `Views.LoanedBooksView` | catalog/views.py:84-91 | The answer is refused exactly when the gate refuses: anonymous callers are sent to log in, and non-librarians get 403. For librarians, page p is 404 exactly when p is outside 1 to the page count, and otherwise it is the p-th run of ten on-loan copies in due-date order. |
| `Views.LoanPageInOrder` | catalog/views.py:78-91 | A page of a list in due-date order holds only copies of that list, and it is itself in due-date order. |
| `Views.MyBorrowedPage` | catalog/views.py:72-81 | Every page of a borrower's list holds only their own copies on loan, in due-date order. |
| `Views.AuthorPageInOrder` | catalog/views.py:64-66 | A page of a list of authors in last-name order holds only authors of that list, and it is itself in last-name order. |
| `Views.ThirteenAuthorsPaginate` | catalog/tests/test_views.py:34-47 | Thirteen authors make a paginated first page of ten, a second page of three, and no third page. |
| `Views.FindInstance` | catalog/views.py:96 | The lookup finds the position of the copy with that key, or reports not-found exactly when no copy has it. |
| `Views.RenewBookLibrarian` | catalog/views.py:94-123 | A non-librarian is sent to log in, and an unknown key is 404. A GET proposes today+21. A valid POST sets only that copy's due date to the submitted date. Any other outcome leaves the store unchanged, and the store stays valid. |
| `Views.RenewedNotOverdue` | catalog/views.py:105-108 | A copy renewed to an accepted date is not overdue today, and is overdue by today+29. |
| `Views.IndexView` | catalog/views.py:19-50 | The counters are the table sizes, the number of copies with status 'a', and the number of titles containing " y ". The visit counter is the previous value (0 when absent) plus one, and it is written back to the session. |

## Left out

- Templates, URL reversing (`reverse`, `get_absolute_url`), redirect targets and HTTP status codes are out of scope. They appear only as response constructors.
- The ORM, `save()`, querysets and transactions are replaced by the `Catalog` sequences. Each update is one assignment.
- Record keys are handed out by a counter (`nextId`). UUID generation and database auto-increment are not modelled, only their distinctness.
- The wall clock is not read. The source reads `date.today()` twice in the validator and could see two dates around midnight; the model uses one `today`.
- Message translation (`gettext`) is not modelled. The messages are the source's Spanish literals.
- Django's authentication machinery is an input. The caller is anonymous or a user with a permission set; superusers and inactive accounts are not distinguished.
- `BookInstance.__str__` is not modelled. It dereferences `book`, which set-null can clear. `Genre.__str__`, `Language.__str__` and `Book.__str__` only return a field.
- `AuthorCreate`'s initial date string is not modelled. It is a user-interface default in a locale-specific format.
- The create and update views are generic framework forms. Only their access gate is modelled; the deletes are modelled by the store's delete methods.
- The detail views' not-found answer for a missing book or author is not modelled.
- Genres are held by value in each book. A genre's deletion, which removes its many-to-many links, is not modelled.
- `max_length` limits on text fields are not modelled.
- The page parameter is an integer that already defaults to 1. The page names `last` and non-numeric pages are not modelled.
- `Models.DueBackLe`: absent due dates sort first, as SQLite (and MySQL) order NULL. PostgreSQL and Oracle, which put them last, are not modelled.
- `Text.LikeContains`: only SQLite's matching is modelled. On PostgreSQL, for example, `__contains` is case-sensitive.
- The display labels of the status choices ("Maintenance", "On loan", ...) are not modelled; only the stored codes are.
- The admin configuration (catalog/admin.py) is not modelled; it only affects display.
