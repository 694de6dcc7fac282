# Mini library store — a Dafny model

This project models the in-memory book store of `library-management.c`. The store is a fixed array of 200 `Book` records (`MAX_BOOKS`). The first `count` records are in use, and a `next_id` counter numbers new books from 1. On that array the program can:

- append a book, with its title and author truncated to the C buffer sizes;
- look a book up by id;
- find the first book whose title or author contains a query, ignoring case;
- borrow a book (available → borrowed) and return it (borrowed → available).

The model has three modules:

- `Text` (`text.dfy`) models `contains_ci`. Case folding is ASCII only. The nested loops are the method `ContainsCi`, proved equal to the predicate `ContainsIgnoringCase`: "some offset `i` with `i + N <= H` where all `N` characters match after lower-casing". A lemma ties that predicate to plain substring search on the lower-cased strings.
- `Books` (`books.dfy`) models the C functions that take `(Book *arr, int count, …)`. They are methods over an `array<Book>` and a `count`. `find_by_id` and the guarded availability change are specified by the pure functions `FindId` and `SetAvailable`. Lemmas about those functions give the borrow/return laws.
- `Library` (`library.dfy`) models the state `main` keeps in its locals: the array, `count` and `next_id`. It is a class whose invariant `Valid()` says the book in slot `i` has id `i + 1` and `nextId == count + 1`. `Add` combines `main`'s full check (line 56), `add_book` and the id assignment `books[idx].id = next_id++` (line 65). That combination is what makes the id invariant hold. `Lookup`, `Borrow` and `Return` restate `find_by_id`, `borrow_book` and `return_book` for a store that keeps the invariant. `Walkthrough` is a client that follows the add / borrow / borrow / return / return scenario from the contracts alone.

The C functions return `int` 1/0 for success. The model returns `bool`. Titles and authors are `seq<char>` that end where the C string's NUL would be.

## Model

| member | source | states |
|---|---|---|
| `Text.ContainsCi` | library-management.c:170-184 | The nested loops return true exactly when some offset `i` with `i + N <= H` matches all `N` needle characters after ASCII lower-casing. With an empty needle they return true at once. |
| `Text.EmptyNeedleMatches` | library-management.c:172 | An empty needle is contained in every haystack. |
| `Text.LongNeedleNeverMatches` | library-management.c:173 | A needle longer than the haystack is never contained: the offset loop cannot start. |
| `Text.LowerIdempotent` | library-management.c:176-177 | ASCII lower-casing applied twice is the same as applied once. |
| `Text.ContainsIffLoweredSubstring` | library-management.c:170-184 | Case-insensitive containment holds if and only if the lower-cased needle is a plain slice of the lower-cased haystack (both directions). |
| `Text.CaseOfNeedleIrrelevant` | library-management.c:177 | Lower-casing the query first never changes the answer. |
| `Text.CaseOfHaystackIrrelevant` | library-management.c:176 | Lower-casing the title or author first never changes the answer. |
| `Text.TomSawyer` | library-management.c:170-184 | "tom" and "SAWYER" are found in "Tom Sawyer"; "Tom Sawyer" is not found in "Tom". |
| `Books.Truncate` | library-management.c:154-155 | The stored text is a prefix of the input, at most `max` characters long. It is the whole input when that fits, and exactly `max` characters otherwise. |
| `Books.AddBook` | library-management.c:151-160 | When `count >= MAX_BOOKS` it returns -1 and leaves the count and every slot unchanged. Otherwise it returns the old count, the count goes up by one, and only slot `count` is written: title cut to 63 characters, author cut to 47, the given year, available, and the slot's old id kept. |
| `Books.FindId` | library-management.c:163-167 | The result is the least index holding the id, or -1 exactly when no book in use holds it. |
| `Books.FindIdOnlyReadsIds` | library-management.c:163-167 | Two book sequences with the same ids at the same places give the same lookup result. |
| `Books.FindById` | library-management.c:163-167 | The scan returns `FindId` of the books in use and changes nothing. |
| `Books.FindFirstTitle` | library-management.c:187-191 | Returns the least index whose title contains the query ignoring case, or -1 exactly when no title does. An empty query gives 0 on a non-empty store and -1 on an empty one. Nothing changes. |
| `Books.FindFirstAuthor` | library-management.c:194-198 | The same as `FindFirstTitle`, on the authors. |
| `Books.SetAvailable` | library-management.c:201-216 | The guarded change of availability to `flag` succeeds exactly when the id is found and the found book's flag differs from `flag`. On success only that book's `available` field changes. On failure the books are unchanged. |
| `Books.BorrowBook` | library-management.c:201-207 | The result and the books in use afterwards are those of `SetAvailable(…, id, false)`. Slots past `count` are untouched. |
| `Books.ReturnBook` | library-management.c:210-216 | The result and the books in use afterwards are those of `SetAvailable(…, id, true)`. Slots past `count` are untouched. |
| `Books.RepeatFails` | library-management.c:201-216 | After a successful borrow, borrowing the same id again fails. After a successful return, returning it again fails. |
| `Books.OppositeRestores` | library-management.c:201-216 | A successful borrow followed by a return of the same id succeeds and restores the original books exactly, and likewise a return followed by a borrow. |
| `Books.SlotIdsIncrease` | library-management.c:63-65 | When each slot `i` holds id `i + 1`, ids are strictly increasing in insertion order and hence unique. |
| `Books.FindIdBySlot` | library-management.c:163-167 | When each slot `i` holds id `i + 1`, the lookup of `id` gives `id - 1` for `1 <= id <= count`, and -1 for any id of 0 or less or greater than `count`. |
| `Library.Library.constructor` | library-management.c:34-36 | The store starts empty with a 200-slot array and next id 1, and the invariant holds. |
| `Library.Library.Add` | library-management.c:54-70 | A full store gives -1 and nothing changes. Otherwise the returned index is the old count, and the contents become the old contents plus one book with id `old(nextId)`, truncated title and author, the given year, available. The count and the next id each go up by one, and the id invariant is preserved. |
| `Library.Library.Lookup` | library-management.c:163-167 | Under the invariant, looking up `id` gives `id - 1` when `1 <= id <= count`, and -1 otherwise. |
| `Library.Library.Borrow` | library-management.c:95-100 | Succeeds exactly when `1 <= id <= count` and book `id - 1` is on the shelf. Then only that book's flag becomes false. On failure nothing changes. The invariant is preserved. |
| `Library.Library.Return` | library-management.c:101-106 | Succeeds exactly when `1 <= id <= count` and book `id - 1` is borrowed. Then only that book's flag becomes true. On failure nothing changes. The invariant is preserved. |

## Left out

- The interactive menu loop of `main` (lines 38-118) is not modelled: it reads stdin, prints messages and dispatches. Only its full check (line 56) and its id assignment (line 65) are modelled, both inside `Library.Add`. `Walkthrough` stands in for one run of the menu.
- `read_line`, `read_int` and `trim_newline` (lines 124-148) are not modelled: they are console input. `read_int`'s unchecked narrowing of a `long` to `int` and the end-of-input behaviour go with them. Every year, id and query in the model is a parameter.
- `list_books` (lines 219-229) is not modelled: it only prints a table, and reads the array without changing it.
- `tolower` is modelled as ASCII folding of 'A'..'Z'. Locale-dependent case mappings are not modelled.
- C strings are modelled as character sequences without their NUL terminator, one Dafny `char` standing for one C byte. `strlen`, the 63/47-character cut of `strncpy` and `tolower` all work byte by byte, so a multibyte UTF-8 title is read as its bytes. The program never calls `setlocale`, so `tolower` folds only 'A'..'Z'. A string holding an embedded NUL is not modelled (C would stop at it).
- 32-bit `int` widths are not modelled. At most 200 books are ever added, so `count` and `next_id` stay far from overflow. The year is stored without any arithmetic.
- Unused array slots are garbage in C. The model fills them with a blank book. No contract depends on their contents, except that `AddBook` keeps the old id of the slot it fills, as the C code does.
- Trace-level facts (for example "a return succeeds only if a borrow happened since the last successful return") are not modelled as histories. The model gives the one-step facts that imply them: `Add` creates books on the shelf, only a successful borrow clears the flag, and only a successful return sets it (`SetAvailable`, `RepeatFails`, `OppositeRestores`).
