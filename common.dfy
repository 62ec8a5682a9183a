/** Failure-carrying wrappers and order-preserving selection from sequences,
    shared by every other module. A database query that filters a table is
    modelled as `Filter` over the sequence of rows the database returns. */
module Common {

  datatype Option<T> = None | Some(value: T)

  datatype Result<T, E> = Success(value: T) | Failure(error: E)

  /** `r` is obtained from `s` by deleting elements; the rest keep their order. */
  predicate IsSubsequence<T(==)>(r: seq<T>, s: seq<T>)
    decreases |s|
  {
    if r == [] then true
    else if s == [] then false
    else if r[0] == s[0] then IsSubsequence(r[1..], s[1..])
    else IsSubsequence(r, s[1..])
  }

  /** `r` keeps, in their original order, exactly the occurrences in `s` of
      the elements that satisfy `p`: every such occurrence and no other. */
  ghost predicate Selects<T(!new)>(r: seq<T>, s: seq<T>, p: T -> bool)
  {
    && IsSubsequence(r, s)
    && forall x :: multiset(r)[x] == if p(x) then multiset(s)[x] else 0
  }

  /** The rows of `s` that satisfy `p`, as a query's `.filter(...)` returns them. */
  function Filter<T(==,!new)>(s: seq<T>, p: T -> bool): (r: seq<T>)
    ensures Selects(r, s, p)
    ensures forall x :: x in r <==> x in s && p(x)
    decreases |s|
  {
    if s == [] then []
    else
      var rest := Filter(s[1..], p);
      assert s == [s[0]] + s[1..];
      assert rest != [] && !p(s[0]) ==> rest[0] in rest && rest[0] != s[0];
      if p(s[0]) then
        assert ([s[0]] + rest)[1..] == rest;
        [s[0]] + rest
      else rest
  }

  lemma {:induction false} SubsequenceTransitive<T>(a: seq<T>, b: seq<T>, c: seq<T>)
    requires IsSubsequence(a, b) && IsSubsequence(b, c)
    ensures IsSubsequence(a, c)
    decreases |c|
  {
    if a == [] {
    } else if b[0] == c[0] {
      if a[0] == b[0] {
        SubsequenceTransitive(a[1..], b[1..], c[1..]);
      } else {
        SubsequenceTransitive(a, b[1..], c[1..]);
      }
    } else {
      SubsequenceTransitive(a, b, c[1..]);
      if a[0] == c[0] {
        SubsequenceTail(a, c[1..]);
      }
    }
  }

  /** Dropping the first element of a subsequence leaves a subsequence. */
  lemma {:induction false} SubsequenceTail<T>(a: seq<T>, c: seq<T>)
    requires a != [] && IsSubsequence(a, c)
    ensures IsSubsequence(a[1..], c)
    decreases |c|
  {
    var b := a[1..];
    if a[0] != c[0] {
      SubsequenceTail(a, c[1..]);
    }
    if b != [] && b[0] == c[0] {
      SubsequenceTail(b, c[1..]);
    }
  }
  lemma {:induction false} SubsequenceRefl<T>(s: seq<T>)
    ensures IsSubsequence(s, s)
    decreases |s|
  {
    if s != [] {
      SubsequenceRefl(s[1..]);
    }
  }

  /** A query with no filter applied selects every row. */
  lemma SelectsAll<T(!new)>(s: seq<T>, p: T -> bool)
    requires forall x :: p(x)
    ensures Selects(s, s, p)
  {
    SubsequenceRefl(s);
  }

  /** The same selection described by an equivalent condition. */
  lemma SelectsSame<T(!new)>(r: seq<T>, s: seq<T>, p: T -> bool, p': T -> bool)
    requires Selects(r, s, p)
    requires forall x :: p(x) == p'(x)
    ensures Selects(r, s, p')
  {
  }

  /** Filtering a filtered query selects by the conjunction of both conditions. */
  lemma SelectsThen<T(!new)>(a: seq<T>, b: seq<T>, c: seq<T>, p: T -> bool, q: T -> bool, pq: T -> bool)
    requires Selects(b, a, p) && Selects(c, b, q)
    requires forall x :: pq(x) == (p(x) && q(x))
    ensures Selects(c, a, pq)
  {
    SubsequenceTransitive(c, b, a);
  }
}
