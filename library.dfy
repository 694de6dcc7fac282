/** The state `main` of library-management.c keeps in its locals (the book
    array, `count` and `next_id`) and the operations it performs on it. The
    add operation combines `main`'s full check, `add_book` and the id
    assignment `books[idx].id = next_id++` that follows it. */
module Library {
  import opened Text
  import opened Books

  class Library {
    var books: array<Book>
    var count: nat
    var nextId: int

    /** The store's invariant: the array has the fixed capacity, at most that
        many books are in use, and the book in slot `i` has id `i + 1`, so
        the next id is `count + 1`. */
    ghost predicate Valid()
      reads this, books
    {
      && books.Length == MAX_BOOKS
      && count <= MAX_BOOKS
      && nextId == count + 1
      && IdsAreSlots(books[..count])
    }

    /** The books in use, in insertion order. */
    ghost function Contents(): seq<Book>
      reads this, books
      requires Valid()
    {
      books[..count]
    }

    /** The initial state: an empty store whose first id will be 1. */
    constructor ()
      ensures Valid() && fresh(books)
      ensures count == 0 && nextId == 1 && Contents() == []
    {
      books := new Book[MAX_BOOKS](_ => Blank);
      count := 0;
      nextId := 1;
    }

    /** Menu choice 1. A full store rejects the request with -1 and nothing
        changes; otherwise the new book, available and with the next id, is
        appended and its index returned. */
    method Add(title: string, author: string, year: int) returns (idx: int)
      requires Valid()
      modifies this, books
      ensures Valid() && books == old(books)
      ensures old(count) == MAX_BOOKS ==>
        && idx == -1 && count == old(count) && nextId == old(nextId)
        && books[..] == old(books[..])
      ensures old(count) < MAX_BOOKS ==>
        && idx == old(count) && count == old(count) + 1 && nextId == old(nextId) + 1
        && Contents() == old(Contents()) + [Filled(old(nextId), title, author, year)]
        && books[count..] == old(books[..])[count..]
    {
      if count >= MAX_BOOKS {
        return -1;
      }
      var newCount;
      idx, newCount := AddBook(books, count, title, author, year);
      count := newCount;
      if idx >= 0 {
        books[idx] := books[idx].(id := nextId);
        nextId := nextId + 1;
      }
    }

    /** `find_by_id` on this store: because of the invariant, the book with
        id `id` is in slot `id - 1`, and any other id is not found. */
    method Lookup(id: int) returns (i: int)
      requires Valid()
      ensures i == if 1 <= id <= count then id - 1 else -1
    {
      i := FindById(books, count, id);
      FindIdBySlot(books[..count], id);
    }

    /** Menu choice 4: borrowing succeeds exactly for an id in 1..count whose
        book is on the shelf, and then changes only that book's flag. */
    method Borrow(id: int) returns (ok: bool)
      requires Valid()
      modifies books
      ensures Valid()
      ensures ok == (1 <= id <= count && old(books[id - 1].available))
      ensures ok ==> OnlyFlagChanged(old(Contents()), Contents(), id - 1, false)
      ensures !ok ==> Contents() == old(Contents())
      ensures books[count..] == old(books[count..])
    {
      FindIdBySlot(books[..count], id);
      ok := BorrowBook(books, count, id);
      assert forall j :: 0 <= j < count ==> books[..count][j].id == old(books[..count])[j].id;
    }

    /** Menu choice 5: returning succeeds exactly for an id in 1..count whose
        book is borrowed, and then changes only that book's flag. */
    method Return(id: int) returns (ok: bool)
      requires Valid()
      modifies books
      ensures Valid()
      ensures ok == (1 <= id <= count && !old(books[id - 1].available))
      ensures ok ==> OnlyFlagChanged(old(Contents()), Contents(), id - 1, true)
      ensures !ok ==> Contents() == old(Contents())
      ensures books[count..] == old(books[count..])
    {
      FindIdBySlot(books[..count], id);
      ok := ReturnBook(books, count, id);
      assert forall j :: 0 <= j < count ==> books[..count][j].id == old(books[..count])[j].id;
    }
  }

  /** A session, followed from the contracts alone: a search on an empty
      store finds nothing; the first book added gets id 1 and is on the
      shelf; borrowing it twice succeeds once, returning it twice succeeds
      once; an empty query then finds that book. */
  method Walkthrough()
  {
    var lib := new Library();
    var none := FindFirstTitle(lib.books, lib.count, "x");
    assert none == -1;

    var idx := lib.Add("Dune", "Herbert", 1965);
    assert idx == 0 && lib.count == 1;
    assert lib.Contents()[0] == Book(1, "Dune", "Herbert", 1965, true);

    var ok := lib.Borrow(1);
    assert ok;
    assert !lib.books[0].available;
    ok := lib.Borrow(1);
    assert !ok;
    ok := lib.Return(1);
    assert ok;
    assert lib.books[0].available;
    ok := lib.Return(1);
    assert !ok;

    var first := FindFirstTitle(lib.books, lib.count, "");
    assert first == 0;
    TomSawyer();
  }
}
