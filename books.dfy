/** The book store of library-management.c: a caller-owned array of `Book`
    records of which the first `count` are in use, and the functions that
    append to it, search it and flip a book's availability in place. */
module Books {
  import opened Text

  /** Capacity of the store and sizes of the text buffers (NUL included). */
  const MAX_BOOKS: nat := 200
  const MAX_TITLE: nat := 64
  const MAX_AUTHOR: nat := 48

  /** One record; `available` is the C flag 1 = on the shelf, 0 = borrowed. */
  datatype Book = Book(id: int, title: string, author: string, year: int, available: bool)

  /** The value an unused slot of the array holds in this model. */
  const Blank: Book := Book(0, [], [], 0, false)

  /** What `strncpy` into a buffer of `max + 1` characters followed by a
      terminating NUL keeps of `s`: its first `max` characters at most. */
  function Truncate(s: string, max: nat): (r: string)
    ensures |r| <= max && r <= s
    ensures |s| <= max ==> r == s
    ensures |s| > max ==> |r| == max
  {
    if |s| <= max then s else s[..max]
  }

  /** The book `add_book` writes into a free slot whose old id was `oldId`:
      `add_book` itself never sets the id. */
  function Filled(oldId: int, title: string, author: string, year: int): Book
  {
    Book(oldId, Truncate(title, MAX_TITLE - 1), Truncate(author, MAX_AUTHOR - 1), year, true)
  }

  /** `add_book`: when the store is full, return -1 and change nothing;
      otherwise fill slot `count` and return its index. The new count is
      returned, since the C function increments it through a pointer. */
  method AddBook(arr: array<Book>, count: nat, title: string, author: string, year: int)
    returns (idx: int, newCount: nat)
    requires arr.Length == MAX_BOOKS
    modifies arr
    ensures count >= MAX_BOOKS ==>
      idx == -1 && newCount == count && arr[..] == old(arr[..])
    ensures count < MAX_BOOKS ==>
      && idx == count && newCount == count + 1
      && arr[..] == old(arr[..])[count := Filled(old(arr[count].id), title, author, year)]
  {
    if count >= MAX_BOOKS {
      return -1, count;
    }
    arr[count] := Filled(arr[count].id, title, author, year);
    newCount := count + 1;
    idx := newCount - 1;
  }

  /** Index of the first book with the given id, or -1. */
  function FindId(s: seq<Book>, id: int): (r: int)
    ensures -1 <= r < |s|
    ensures 0 <= r ==> s[r].id == id && forall j :: 0 <= j < r ==> s[j].id != id
    ensures r == -1 <==> forall j :: 0 <= j < |s| ==> s[j].id != id
  {
    if |s| == 0 then -1
    else if s[0].id == id then 0
    else
      var r := FindId(s[1..], id);
      if r == -1 then -1 else r + 1
  }

  /** FindId looks at nothing but the ids. */
  lemma FindIdOnlyReadsIds(s: seq<Book>, t: seq<Book>, id: int)
    requires |s| == |t|
    requires forall j :: 0 <= j < |s| ==> s[j].id == t[j].id
    ensures FindId(s, id) == FindId(t, id)
  {
  }

  /** `find_by_id`: a linear scan for the first matching id. */
  method FindById(arr: array<Book>, count: nat, id: int) returns (i: int)
    requires count <= arr.Length
    ensures i == FindId(arr[..count], id)
  {
    var j := 0;
    while j < count
      invariant j <= count
      invariant forall m :: 0 <= m < j ==> arr[m].id != id
    {
      if arr[j].id == id {
        assert arr[..count][j].id == id;
        return j;
      }
      j := j + 1;
    }
    return -1;
  }

  /** `find_first_title`: the first book whose title holds `query`, ignoring
      case, or -1. */
  method FindFirstTitle(arr: array<Book>, count: nat, query: string) returns (i: int)
    requires count <= arr.Length
    ensures -1 <= i < count
    ensures 0 <= i ==> ContainsIgnoringCase(arr[i].title, query)
    ensures 0 <= i ==> forall j :: 0 <= j < i ==> !ContainsIgnoringCase(arr[j].title, query)
    ensures i == -1 <==> forall j :: 0 <= j < count ==> !ContainsIgnoringCase(arr[j].title, query)
    ensures query == [] ==> i == (if count == 0 then -1 else 0)
  {
    if query == [] && count > 0 {
      EmptyNeedleMatches(arr[0].title);
    }
    var j := 0;
    while j < count
      invariant j <= count
      invariant forall m :: 0 <= m < j ==> !ContainsIgnoringCase(arr[m].title, query)
    {
      var hit := ContainsCi(arr[j].title, query);
      if hit {
        return j;
      }
      j := j + 1;
    }
    return -1;
  }

  /** `find_first_author`: the same scan over the authors. */
  method FindFirstAuthor(arr: array<Book>, count: nat, query: string) returns (i: int)
    requires count <= arr.Length
    ensures -1 <= i < count
    ensures 0 <= i ==> ContainsIgnoringCase(arr[i].author, query)
    ensures 0 <= i ==> forall j :: 0 <= j < i ==> !ContainsIgnoringCase(arr[j].author, query)
    ensures i == -1 <==> forall j :: 0 <= j < count ==> !ContainsIgnoringCase(arr[j].author, query)
    ensures query == [] ==> i == (if count == 0 then -1 else 0)
  {
    if query == [] && count > 0 {
      EmptyNeedleMatches(arr[0].author);
    }
    var j := 0;
    while j < count
      invariant j <= count
      invariant forall m :: 0 <= m < j ==> !ContainsIgnoringCase(arr[m].author, query)
    {
      var hit := ContainsCi(arr[j].author, query);
      if hit {
        return j;
      }
      j := j + 1;
    }
    return -1;
  }

  /** The outcome of a guarded availability change: whether it happened,
      and the books afterwards. */
  datatype Outcome = Outcome(ok: bool, books: seq<Book>)

  /** `s2` is `s` with only the availability of book `i` set to `flag`. */
  predicate OnlyFlagChanged(s: seq<Book>, s2: seq<Book>, i: int, flag: bool)
  {
    && |s2| == |s| && 0 <= i < |s|
    && s2[i] == s[i].(available := flag)
    && forall j :: 0 <= j < |s| && j != i ==> s2[j] == s[j]
  }

  /** The common shape of `borrow_book` (flag false) and `return_book`
      (flag true): it succeeds exactly when the id is found and that book's
      flag is not already `flag`; on success that one flag is set, on
      failure nothing changes. */
  function SetAvailable(s: seq<Book>, id: int, flag: bool): (t: Outcome)
    ensures |t.books| == |s|
    ensures t.ok <==> 0 <= FindId(s, id) && s[FindId(s, id)].available != flag
    ensures t.ok ==> OnlyFlagChanged(s, t.books, FindId(s, id), flag)
    ensures !t.ok ==> t.books == s
  {
    var i := FindId(s, id);
    if i < 0 || s[i].available == flag then Outcome(false, s)
    else Outcome(true, s[i := s[i].(available := flag)])
  }

  /** `borrow_book`. */
  method BorrowBook(arr: array<Book>, count: nat, id: int) returns (ok: bool)
    requires count <= arr.Length
    modifies arr
    ensures ok == SetAvailable(old(arr[..count]), id, false).ok
    ensures arr[..count] == SetAvailable(old(arr[..count]), id, false).books
    ensures arr[count..] == old(arr[count..])
  {
    var i := FindById(arr, count, id);
    if i < 0 {
      return false;
    }
    if !arr[i].available {
      return false;
    }
    arr[i] := arr[i].(available := false);
    return true;
  }

  /** `return_book`. */
  method ReturnBook(arr: array<Book>, count: nat, id: int) returns (ok: bool)
    requires count <= arr.Length
    modifies arr
    ensures ok == SetAvailable(old(arr[..count]), id, true).ok
    ensures arr[..count] == SetAvailable(old(arr[..count]), id, true).books
    ensures arr[count..] == old(arr[count..])
  {
    var i := FindById(arr, count, id);
    if i < 0 {
      return false;
    }
    if arr[i].available {
      return false;
    }
    arr[i] := arr[i].(available := true);
    return true;
  }

  /** After a successful change, the same change again is rejected: a second
      borrow of the same id fails, and so does a second return. */
  lemma RepeatFails(s: seq<Book>, id: int, flag: bool)
    requires SetAvailable(s, id, flag).ok
    ensures !SetAvailable(SetAvailable(s, id, flag).books, id, flag).ok
  {
  }

  /** A successful change followed by the opposite one succeeds and restores
      the books exactly: borrow then return, or return then borrow. */
  lemma OppositeRestores(s: seq<Book>, id: int, flag: bool)
    requires SetAvailable(s, id, flag).ok
    ensures SetAvailable(SetAvailable(s, id, flag).books, id, !flag) == Outcome(true, s)
  {
  }

  /** The ids of the books in use are their positions plus one. */
  predicate IdsAreSlots(s: seq<Book>)
  {
    forall i :: 0 <= i < |s| ==> s[i].id == i + 1
  }

  /** Under IdsAreSlots, ids are unique and strictly increasing in insertion
      order. */
  lemma SlotIdsIncrease(s: seq<Book>, i: int, j: int)
    requires IdsAreSlots(s)
    requires 0 <= i < j < |s|
    ensures s[i].id < s[j].id
  {
  }

  /** Under IdsAreSlots, the book with id `id` sits at `id - 1`; an id of 0
      or less, or one past the count, is not found. */
  lemma FindIdBySlot(s: seq<Book>, id: int)
    requires IdsAreSlots(s)
    ensures FindId(s, id) == if 1 <= id <= |s| then id - 1 else -1
  {
    if 1 <= id <= |s| {
      assert s[id - 1].id == id;
    }
  }
}
