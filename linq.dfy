/**
 * The query operators the repositories compose their queries from
 * (Where, WhereIf, Any, Count, FirstOrDefault, Select, OrderBy, Take and
 * the paging extension), each over an in-memory sequence of rows.
 */
module Linq {

  datatype Option<T> = None | Some(value: T)

  /** `Where`: the rows that satisfy `keep`, in their original order. */
  function Where<T(==,!new)>(s: seq<T>, keep: T -> bool): (r: seq<T>)
    ensures |r| <= |s|
    ensures forall x :: x in r <==> x in s && keep(x)
  {
    if s == [] then []
    else
      assert s == [s[0]] + s[1..];
      if keep(s[0]) then [s[0]] + Where(s[1..], keep) else Where(s[1..], keep)
  }

  /** `WhereIf`: apply the filter only when the condition is set. */
  function WhereIf<T(==,!new)>(s: seq<T>, condition: bool, keep: T -> bool): seq<T>
  {
    if condition then Where(s, keep) else s
  }

  /** `Any`: some row satisfies `pred`. */
  function Any<T(==,!new)>(s: seq<T>, pred: T -> bool): (r: bool)
    ensures r <==> exists x :: x in s && pred(x)
  {
    if s == [] then false
    else
      assert s == [s[0]] + s[1..];
      pred(s[0]) || Any(s[1..], pred)
  }

  /** `Count`: the number of rows that satisfy `pred`. */
  function Count<T(==,!new)>(s: seq<T>, pred: T -> bool): (n: nat)
    ensures n == |Where(s, pred)|
    ensures n == 0 <==> !Any(s, pred)
  {
    if s == [] then 0
    else (if pred(s[0]) then 1 else 0) + Count(s[1..], pred)
  }

  /** `FirstOrDefault`: the first row, or nothing for an empty query. */
  function FirstOrDefault<T>(s: seq<T>): Option<T>
  {
    if s == [] then None else Some(s[0])
  }

  /** `Select`: the projection of every row, in order. */
  function Select<T, U>(s: seq<T>, f: T -> U): seq<U>
  {
    seq(|s|, i requires 0 <= i < |s| => f(s[i]))
  }

  /** `Take`: the first `n` rows; none when `n` is not positive. */
  function Take<T>(s: seq<T>, n: int): seq<T>
  {
    if n <= 0 then [] else if n < |s| then s[..n] else s
  }

  function Min(a: int, b: int): int { if a <= b then a else b }

  // ---------------------------------------------------------------------
  // Ordering

  /** `le(a, b)`: `a` may come before `b`. OrderBy needs it total and transitive. */
  ghost predicate TotalPreorder<T(!new)>(le: (T, T) -> bool)
  {
    && (forall a, b :: le(a, b) || le(b, a))
    && (forall a, b, c :: le(a, b) && le(b, c) ==> le(a, c))
  }

  ghost predicate SortedBy<T>(s: seq<T>, le: (T, T) -> bool)
  {
    forall i, j :: 0 <= i < j < |s| ==> le(s[i], s[j])
  }

  function Insert<T>(x: T, s: seq<T>, le: (T, T) -> bool): (r: seq<T>)
    ensures |r| == |s| + 1
    ensures multiset(r) == multiset(s) + multiset{x}
  {
    if s == [] then [x]
    else if le(x, s[0]) then [x] + s
    else
      assert s == [s[0]] + s[1..];
      [s[0]] + Insert(x, s[1..], le)
  }

  /** `OrderBy`: the rows rearranged so that `le` holds between every earlier and later row. */
  function OrderBy<T>(s: seq<T>, le: (T, T) -> bool): (r: seq<T>)
    ensures |r| == |s|
    ensures multiset(r) == multiset(s)
  {
    if s == [] then []
    else
      assert s == [s[0]] + s[1..];
      Insert(s[0], OrderBy(s[1..], le), le)
  }

  lemma {:induction false} InsertSorted<T(!new)>(x: T, s: seq<T>, le: (T, T) -> bool)
    requires TotalPreorder(le) && SortedBy(s, le)
    ensures SortedBy(Insert(x, s, le), le)
  {
    if s != [] && !le(x, s[0]) {
      var tail := Insert(x, s[1..], le);
      InsertSorted(x, s[1..], le);
      forall k | 0 <= k < |tail| ensures le(s[0], tail[k]) {
        assert tail[k] in multiset(tail);
        if tail[k] != x {
          assert tail[k] in multiset(s[1..]);
          var j :| 0 <= j < |s[1..]| && s[1..][j] == tail[k];
          assert s[j + 1] == tail[k];
        }
      }
      var r := [s[0]] + tail;
      forall i, j | 0 <= i < j < |r| ensures le(r[i], r[j]) {
        if i > 0 {
          assert r[i] == tail[i - 1] && r[j] == tail[j - 1];
        }
      }
    }
  }

  /** OrderBy yields a sorted permutation of its input. */
  lemma {:induction false} OrderBySorted<T(!new)>(s: seq<T>, le: (T, T) -> bool)
    requires TotalPreorder(le)
    ensures SortedBy(OrderBy(s, le), le)
    ensures multiset(OrderBy(s, le)) == multiset(s)
  {
    if s != [] {
      OrderBySorted(s[1..], le);
      InsertSorted(s[0], OrderBy(s[1..], le), le);
    }
  }

  /** `Take(n)` is the prefix of length n, clamped to 0 .. |s|. */
  lemma TakeIsPrefix<T>(s: seq<T>, n: int)
    ensures var k := if n <= 0 then 0 else Min(n, |s|);
      && Take(s, n) == s[..k]
      && multiset(s) == multiset(Take(s, n)) + multiset(s[k..])
  {
    var k := if n <= 0 then 0 else Min(n, |s|);
    assert s == s[..k] + s[k..];
  }

  /** A prefix of a sorted sequence is sorted. */
  lemma PrefixOfSorted<T>(s: seq<T>, le: (T, T) -> bool, k: int)
    requires SortedBy(s, le) && 0 <= k <= |s|
    ensures SortedBy(s[..k], le)
  {
    forall i, j | 0 <= i < j < k ensures le(s[..k][i], s[..k][j]) {
      assert s[..k][i] == s[i] && s[..k][j] == s[j];
    }
  }

  /** In a sorted sequence, every row of a prefix may come before every row after it. */
  lemma PrefixBeforeRest<T>(s: seq<T>, le: (T, T) -> bool, k: int)
    requires SortedBy(s, le) && 0 <= k <= |s|
    ensures forall x, y :: x in s[k..] && y in s[..k] ==> le(y, x)
  {
    forall x, y | x in s[k..] && y in s[..k] ensures le(y, x) {
      var a :| 0 <= a < |s| - k && s[k..][a] == x;
      var b :| 0 <= b < k && s[..k][b] == y;
      assert s[b] == y && s[k + a] == x;
    }
  }

  /**
   * Taking a prefix of a sorted sequence: the prefix is sorted, and every row
   * left out may come after every row taken.
   */
  lemma TakeOfSortedIsTop<T>(s: seq<T>, le: (T, T) -> bool, n: int)
    requires SortedBy(s, le)
    ensures SortedBy(Take(s, n), le)
    ensures forall x, y :: x in multiset(s) - multiset(Take(s, n)) && y in Take(s, n) ==> le(y, x)
  {
    var k := if n <= 0 then 0 else Min(n, |s|);
    TakeIsPrefix(s, n);
    PrefixOfSorted(s, le, k);
    PrefixBeforeRest(s, le, k);
    assert multiset(s) - multiset(s[..k]) == multiset(s[k..]);
    forall x | x in multiset(s[k..]) ensures x in s[k..] {
    }
  }

  /** `OrderBy(le).Take(n)` has the first `n` rows (all of them when there are fewer), drawn from the input. */
  lemma TakeOfOrderedSize<T>(s: seq<T>, le: (T, T) -> bool, n: int)
    ensures |Take(OrderBy(s, le), n)| == (if n <= 0 then 0 else Min(n, |s|))
    ensures multiset(Take(OrderBy(s, le), n)) <= multiset(s)
  {
    var sorted := OrderBy(s, le);
    var k := if n <= 0 then 0 else Min(n, |s|);
    TakeIsPrefix(sorted, n);
    assert multiset(sorted) == multiset(Take(sorted, n)) + multiset(sorted[k..]);
  }

  /** `OrderBy(le).Take(n)` is sorted, and every row left out may come after every row taken. */
  lemma TakeOfOrderedOrder<T>(s: seq<T>, le: (T, T) -> bool, n: int)
    requires SortedBy(OrderBy(s, le), le)
    ensures SortedBy(Take(OrderBy(s, le), n), le)
    ensures forall x, y :: x in multiset(s) - multiset(Take(OrderBy(s, le), n)) && y in Take(OrderBy(s, le), n) ==> le(y, x)
  {
    var sorted := OrderBy(s, le);
    TakeOfSortedIsTop(sorted, le, n);
    assert multiset(s) - multiset(Take(sorted, n)) == multiset(sorted) - multiset(Take(sorted, n));
  }

  /**
   * `OrderBy(le).Take(n)`: the first `n` rows in order (all of them when
   * there are fewer), sorted, and every row left out may come after every
   * row taken.
   */
  lemma TakeOfOrdered<T>(s: seq<T>, le: (T, T) -> bool, n: int)
    requires SortedBy(OrderBy(s, le), le)
    ensures |Take(OrderBy(s, le), n)| == (if n <= 0 then 0 else Min(n, |s|))
    ensures multiset(Take(OrderBy(s, le), n)) <= multiset(s)
    ensures SortedBy(Take(OrderBy(s, le), n), le)
    ensures forall x, y :: x in multiset(s) - multiset(Take(OrderBy(s, le), n)) && y in Take(OrderBy(s, le), n) ==> le(y, x)
  {
    TakeOfOrderedSize(s, le, n);
    TakeOfOrderedOrder(s, le, n);
  }

  // ---------------------------------------------------------------------
  // Where laws

  /** Where drops rows but never duplicates one. */
  lemma {:induction false} WhereIsSubMultiset<T(!new)>(s: seq<T>, keep: T -> bool)
    ensures multiset(Where(s, keep)) <= multiset(s)
  {
    if s != [] {
      WhereIsSubMultiset(s[1..], keep);
      assert s == [s[0]] + s[1..];
    }
  }

  /** Two filters that agree on every row select the same rows. */
  lemma {:induction false} WhereCongruence<T(!new)>(s: seq<T>, f: T -> bool, g: T -> bool)
    requires forall x :: x in s ==> f(x) == g(x)
    ensures Where(s, f) == Where(s, g)
  {
    if s != [] {
      WhereCongruence(s[1..], f, g);
    }
  }

  /** Filtering twice is filtering once by both tests. */
  lemma {:induction false} WhereWhere<T(!new)>(s: seq<T>, f: T -> bool, g: T -> bool, h: T -> bool)
    requires forall x :: x in s ==> h(x) == (f(x) && g(x))
    ensures Where(Where(s, f), g) == Where(s, h)
  {
    if s != [] {
      WhereWhere(s[1..], f, g, h);
    }
  }

  /** A filter every row passes keeps the whole sequence. */
  lemma {:induction false} WhereKeepsAll<T(!new)>(s: seq<T>, f: T -> bool)
    requires forall x :: x in s ==> f(x)
    ensures Where(s, f) == s
  {
    if s != [] {
      assert s == [s[0]] + s[1..];
      WhereKeepsAll(s[1..], f);
    }
  }

  /** A filter no row passes keeps nothing. */
  lemma {:induction false} WhereKeepsNone<T(!new)>(s: seq<T>, f: T -> bool)
    requires forall x :: x in s ==> !f(x)
    ensures Where(s, f) == []
  {
    if s != [] {
      assert s[0] in s;
      WhereKeepsNone(s[1..], f);
    }
  }

  // ---------------------------------------------------------------------
  // Select laws

  lemma SelectAppend<T, U>(a: seq<T>, b: seq<T>, f: T -> U)
    ensures Select(a + b, f) == Select(a, f) + Select(b, f)
  {
  }

  lemma SelectMember<T, U>(s: seq<T>, f: T -> U, y: U)
    requires y in Select(s, f)
    ensures exists i :: 0 <= i < |s| && y == f(s[i])
  {
    var i :| 0 <= i < |Select(s, f)| && Select(s, f)[i] == y;
  }

  /** A value is projected iff some row projects to it. */
  lemma SelectMembers<T, U>(s: seq<T>, f: T -> U, y: U)
    ensures y in Select(s, f) <==> exists x :: x in s && y == f(x)
  {
    if y in Select(s, f) {
      SelectMember(s, f, y);
      var i :| 0 <= i < |s| && y == f(s[i]);
      assert s[i] in s;
    }
    if exists x :: x in s && y == f(x) {
      var x :| x in s && y == f(x);
      var i :| 0 <= i < |s| && s[i] == x;
      assert Select(s, f)[i] == y;
    }
  }

  /** Ordering before projecting changes which rows come first, not which are there. */
  lemma SelectOrderByMembers<T, U>(s: seq<T>, le: (T, T) -> bool, f: T -> U, y: U)
    ensures y in Select(OrderBy(s, le), f) <==> exists x :: x in s && y == f(x)
  {
    var sorted := OrderBy(s, le);
    SelectMembers(sorted, f, y);
    if y in Select(sorted, f) {
      var x :| x in sorted && y == f(x);
      assert x in multiset(sorted);
      assert x in s;
    }
    if exists x :: x in s && y == f(x) {
      var x :| x in s && y == f(x);
      assert x in multiset(s);
      assert x in sorted;
    }
  }

  /** Projecting a sequence with one row taken out projects the rest. */
  lemma SelectRemove<T, U>(t: seq<T>, j: int, f: T -> U)
    requires 0 <= j < |t|
    ensures multiset(Select(t, f)) == multiset(Select(t[..j] + t[j + 1..], f)) + multiset{f(t[j])}
  {
    assert t == t[..j] + [t[j]] + t[j + 1..];
    SelectAppend(t[..j] + [t[j]], t[j + 1..], f);
    SelectAppend(t[..j], [t[j]], f);
    SelectAppend(t[..j], t[j + 1..], f);
    assert Select([t[j]], f) == [f(t[j])];
  }

  /** Taking one row out of a sequence takes it out of its multiset. */
  lemma RemoveAt<T>(t: seq<T>, j: int)
    requires 0 <= j < |t|
    ensures multiset(t[..j] + t[j + 1..]) == multiset(t) - multiset{t[j]}
  {
    assert t == t[..j] + [t[j]] + t[j + 1..];
  }

  lemma RemoveHead<T>(s: seq<T>)
    requires s != []
    ensures multiset(s[1..]) == multiset(s) - multiset{s[0]}
  {
    assert s == [s[0]] + s[1..];
  }

  lemma SelectHead<T, U>(s: seq<T>, f: T -> U)
    requires s != []
    ensures multiset(Select(s, f)) == multiset(Select(s[1..], f)) + multiset{f(s[0])}
  {
    assert Select(s, f) == [f(s[0])] + Select(s[1..], f);
  }

  /** A row of a multiset built from a sequence sits at some index. */
  lemma IndexOf<T>(t: seq<T>, x: T) returns (j: int)
    requires x in multiset(t)
    ensures 0 <= j < |t| && t[j] == x
  {
    assert x in t;
    j :| 0 <= j < |t| && t[j] == x;
  }

  /** Projecting two permutations of each other gives two permutations of each other. */
  lemma {:induction false} SelectPermutation<T, U>(s: seq<T>, t: seq<T>, f: T -> U)
    requires multiset(s) == multiset(t)
    ensures multiset(Select(s, f)) == multiset(Select(t, f))
    decreases |s|
  {
    if s == [] {
      assert |multiset(t)| == 0;
    } else {
      var j := IndexOf(t, s[0]);
      var rest := t[..j] + t[j + 1..];
      RemoveAt(t, j);
      RemoveHead(s);
      SelectPermutation(s[1..], rest, f);
      SelectRemove(t, j, f);
      SelectHead(s, f);
    }
  }

  // ---------------------------------------------------------------------
  // Paging: a page is the contiguous slice [(p-1)*k, p*k) of the ordered rows.

  datatype PagedList<T> = PagedList(items: seq<T>, pageNumber: int, pageSize: int, totalItemCount: nat)

  /** Where page `pageNumber` of `n` rows starts: `(pageNumber - 1) * pageSize`, capped at `n`. */
  function PageStart(n: nat, pageNumber: int, pageSize: int): (lo: nat)
    requires pageNumber >= 1 && pageSize > 0
    ensures lo <= n
  {
    Min((pageNumber - 1) * pageSize, n)
  }

  /** Where the page ends: `pageNumber * pageSize`, capped at `n`, never before its start. */
  function PageEnd(n: nat, pageNumber: int, pageSize: int): (hi: nat)
    requires pageNumber >= 1 && pageSize > 0
    ensures PageStart(n, pageNumber, pageSize) <= hi <= n
  {
    assert pageNumber * pageSize == (pageNumber - 1) * pageSize + pageSize;
    Min(pageNumber * pageSize, n)
  }

  function ToPagedList<T>(s: seq<T>, pageNumber: int, pageSize: int): (r: PagedList<T>)
    requires pageNumber >= 1 && pageSize > 0
    ensures |r.items| <= pageSize
    ensures r.totalItemCount == |s|
    ensures r.pageNumber == pageNumber && r.pageSize == pageSize
    ensures multiset(r.items) <= multiset(s)
    ensures r.items == s[PageStart(|s|, pageNumber, pageSize)..PageEnd(|s|, pageNumber, pageSize)]
  {
    var lo := PageStart(|s|, pageNumber, pageSize);
    var hi := PageEnd(|s|, pageNumber, pageSize);
    assert s == s[..lo] + s[lo..hi] + s[hi..];
    PagedList(s[lo..hi], pageNumber, pageSize, |s|)
  }

  /** A page of a sorted sequence is sorted. */
  lemma PageOfSorted<T>(s: seq<T>, pageNumber: int, pageSize: int, le: (T, T) -> bool)
    requires pageNumber >= 1 && pageSize > 0
    requires SortedBy(s, le)
    ensures SortedBy(ToPagedList(s, pageNumber, pageSize).items, le)
  {
    var lo := PageStart(|s|, pageNumber, pageSize);
    var items := ToPagedList(s, pageNumber, pageSize).items;
    forall i, j | 0 <= i < j < |items| ensures le(items[i], items[j]) {
      assert items[i] == s[lo + i] && items[j] == s[lo + j];
    }
  }

  /**
   * A page that starts inside the rows is full unless it is the last one;
   * a page past the end is empty.
   */
  lemma PageLength<T>(s: seq<T>, pageNumber: int, pageSize: int)
    requires pageNumber >= 1 && pageSize > 0
    ensures var items := ToPagedList(s, pageNumber, pageSize).items;
      && ((pageNumber - 1) * pageSize < |s| ==> |items| == Min(pageSize, |s| - (pageNumber - 1) * pageSize))
      && ((pageNumber - 1) * pageSize >= |s| ==> items == [])
  {
    assert pageNumber * pageSize == (pageNumber - 1) * pageSize + pageSize;
  }

  /** Position `j` of page `pageNumber` holds row `(pageNumber - 1) * pageSize + j`, when there is such a row. */
  lemma PageHoldsRow<T>(s: seq<T>, pageNumber: int, pageSize: int, j: int)
    requires pageNumber >= 1 && pageSize > 0
    requires 0 <= j < pageSize && (pageNumber - 1) * pageSize + j < |s|
    ensures var items := ToPagedList(s, pageNumber, pageSize).items;
      j < |items| && items[j] == s[(pageNumber - 1) * pageSize + j]
  {
    var start := (pageNumber - 1) * pageSize;
    assert pageNumber * pageSize == start + pageSize;
    assert PageStart(|s|, pageNumber, pageSize) == start;
  }
}
