/** BookRepository.searchBooks: a case-insensitive substring search over four columns. */
module BookRepository {
  import opened Wrappers
  import opened Entities
  import opened Seqs
  import opened Text

  /** `LOWER(field) LIKE LOWER(CONCAT('%', q, '%'))`. */
  predicate ContainsIgnoringCase(field: string, q: string)
  {
    IsSubstring(Lower(q), Lower(field))
  }

  /** The WHERE clause: name, author or subject contain `q` ignoring case, or the ISBN contains it as is. */
  predicate SearchMatches(b: Book, q: string)
  {
    || ContainsIgnoringCase(b.name, q)
    || ContainsIgnoringCase(b.author, q)
    || (b.subject.Some? && ContainsIgnoringCase(b.subject.value, q))
    || IsSubstring(q, b.isbn)
  }

  function SearchBooks(bs: seq<Book>, q: string): (r: seq<Book>)
    ensures forall b :: multiset(r)[b] == if SearchMatches(b, q) then multiset(bs)[b] else 0
    ensures forall b :: b in r <==> b in bs && SearchMatches(b, q)
  {
    Filter(bs, (b: Book) => SearchMatches(b, q))
  }

  /** An occurrence with the same letters also occurs once both sides are lower-cased. */
  lemma LowerKeepsOccurrence(p: string, s: string, i: int)
    requires OccursAt(p, s, i)
    ensures OccursAt(Lower(p), Lower(s), i)
  {
    var lp, ls := Lower(p), Lower(s);
    forall k | 0 <= k < |p| ensures ls[i..i + |p|][k] == lp[k] {
      assert s[i..i + |p|][k] == p[k];
    }
  }

  /** A book whose name contains the query verbatim is found, whatever else it holds. */
  lemma NameContainingQueryIsFound(bs: seq<Book>, q: string, k: nat)
    requires k < |bs| && IsSubstring(q, bs[k].name)
    ensures bs[k] in SearchBooks(bs, q)
  {
    var i :| 0 <= i <= |bs[k].name| - |q| && OccursAt(q, bs[k].name, i);
    LowerKeepsOccurrence(q, bs[k].name, i);
  }

  /** The search ignores the case of the query's letters for the name, author and subject. */
  lemma QueryCaseIrrelevant(b: Book, q1: string, q2: string)
    requires Lower(q1) == Lower(q2) && !IsSubstring(q1, b.isbn) && !IsSubstring(q2, b.isbn)
    ensures SearchMatches(b, q1) <==> SearchMatches(b, q2)
  {
  }

  /** An empty query finds every book. */
  lemma EmptyQueryFindsAll(bs: seq<Book>)
    ensures SearchBooks(bs, "") == bs
  {
    forall i | 0 <= i < |bs| ensures SearchMatches(bs[i], "") {
      EmptyIsSubstring(bs[i].isbn);
    }
    FilterAll(bs, (b: Book) => SearchMatches(b, ""));
  }
}
