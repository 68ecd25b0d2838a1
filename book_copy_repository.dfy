/** BookCopyRepository's derived queries over the copy table. */
module BookCopyRepository {
  import opened Entities
  import opened Seqs

  /** findByBook: the copies of book `book`. */
  function FindByBook(cs: seq<BookCopy>, book: nat): (r: seq<BookCopy>)
    ensures forall x :: multiset(r)[x] == if x.book == book then multiset(cs)[x] else 0
    ensures forall x :: x in r <==> x in cs && x.book == book
  {
    Filter(cs, (x: BookCopy) => x.book == book)
  }

  /** findByBookAndStatus: the copies of `book` whose status is `status`. */
  function FindByBookAndStatus(cs: seq<BookCopy>, book: nat, status: BookStatus): (r: seq<BookCopy>)
    ensures forall x :: multiset(r)[x] == if x.book == book && x.status == status then multiset(cs)[x] else 0
    ensures forall x :: x in r <==> x in cs && x.book == book && x.status == status
  {
    Filter(cs, (x: BookCopy) => x.book == book && x.status == status)
  }

  /** countByBookAndStatus, as a count over the table. */
  function CountByBookAndStatus(cs: seq<BookCopy>, book: nat, status: BookStatus): (n: nat)
    ensures n <= |cs|
  {
    if cs == [] then 0
    else CountByBookAndStatus(cs[..|cs| - 1], book, status)
         + (if cs[|cs| - 1].book == book && cs[|cs| - 1].status == status then 1 else 0)
  }

  /** The count is the size of the matching list. */
  lemma {:induction false} CountIsSizeOfFind(cs: seq<BookCopy>, book: nat, status: BookStatus)
    ensures CountByBookAndStatus(cs, book, status) == |FindByBookAndStatus(cs, book, status)|
  {
    if cs != [] {
      CountIsSizeOfFind(cs[..|cs| - 1], book, status);
    }
  }

  /** The copies of a book with a given status are among the book's copies. */
  lemma FindByStatusWithinFindByBook(cs: seq<BookCopy>, book: nat, status: BookStatus)
    ensures multiset(FindByBookAndStatus(cs, book, status)) <= multiset(FindByBook(cs, book))
    ensures |FindByBookAndStatus(cs, book, status)| <= |FindByBook(cs, book)|
  {
    var a, b := FindByBookAndStatus(cs, book, status), FindByBook(cs, book);
    assert forall x :: multiset(a)[x] <= multiset(b)[x];
    assert multiset(a) <= multiset(b);
    assert multiset(b) == multiset(a) + (multiset(b) - multiset(a));
    assert |multiset(a)| == |a| && |multiset(b)| == |b|;
  }

  /** A book never has more AVAILABLE copies than copies. */
  lemma AvailableNotAboveTotal(cs: seq<BookCopy>, book: nat)
    ensures CountByBookAndStatus(cs, book, Available) <= |FindByBook(cs, book)|
  {
    CountIsSizeOfFind(cs, book, Available);
    FindByStatusWithinFindByBook(cs, book, Available);
  }
}
