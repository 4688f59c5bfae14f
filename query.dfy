/**
 * Relational query helpers shared by the store: the order SQLite uses on text
 * columns, composite ORDER BY keys, a stable sort by such a key, and WHERE as a
 * filter over rows.
 */
module Query {
  import opened Wrappers

  // ---------------------------------------------------------------- strings

  /** Code-point lexicographic order: SQLite's BINARY collation and Python's `<=` on str. */
  predicate StrLe(a: string, b: string)
    decreases |a|
  {
    a == [] || (b != [] && (if a[0] == b[0] then StrLe(a[1..], b[1..]) else a[0] < b[0]))
  }

  predicate StrLt(a: string, b: string) {
    StrLe(a, b) && a != b
  }

  lemma {:induction false} StrLeTotal(a: string, b: string)
    ensures StrLe(a, b) || StrLe(b, a)
    decreases |a|
  {
    if a != [] && b != [] && a[0] == b[0] {
      StrLeTotal(a[1..], b[1..]);
    }
  }

  lemma {:induction false} StrLeRefl(a: string)
    ensures StrLe(a, a)
    decreases |a|
  {
    if a != [] {
      StrLeRefl(a[1..]);
    }
  }

  lemma {:induction false} StrLeTrans(a: string, b: string, c: string)
    requires StrLe(a, b) && StrLe(b, c)
    ensures StrLe(a, c)
    decreases |a|
  {
    if a != [] && b != [] && c != [] && a[0] == b[0] && b[0] == c[0] {
      StrLeTrans(a[1..], b[1..], c[1..]);
    }
  }

  lemma {:induction false} StrLeAntisym(a: string, b: string)
    requires StrLe(a, b) && StrLe(b, a)
    ensures a == b
    decreases |a|
  {
    if a != [] && b != [] {
      StrLeAntisym(a[1..], b[1..]);
      assert a == [a[0]] + a[1..] && b == [b[0]] + b[1..];
    }
  }

  /** Every string is at least the empty string, and only "" is below "". */
  lemma EmptyIsLeast(a: string)
    ensures StrLe("", a)
    ensures StrLe(a, "") <==> a == ""
  {
  }

  // ---------------------------------------------------------- ORDER BY keys

  /** One ORDER BY term: an integer, a text column ascending, or a text column DESC. */
  datatype Atom = Num(n: int) | Asc(s: string) | Desc(s: string)

  /** A whole ORDER BY clause, compared term by term. */
  type Key = seq<Atom>

  function Rank(x: Atom): nat {
    match x
    case Num(_) => 0
    case Asc(_) => 1
    case Desc(_) => 2
  }

  predicate AtomLt(x: Atom, y: Atom) {
    match (x, y)
    case (Num(a), Num(b)) => a < b
    case (Asc(a), Asc(b)) => StrLt(a, b)
    case (Desc(a), Desc(b)) => StrLt(b, a)
    case _ => Rank(x) < Rank(y)
  }

  /** Lexicographic order on keys: the first differing term decides. */
  predicate KeyLe(a: Key, b: Key)
    decreases |a|
  {
    a == [] || (b != [] && (if a[0] == b[0] then KeyLe(a[1..], b[1..]) else AtomLt(a[0], b[0])))
  }

  lemma AtomTrichotomy(x: Atom, y: Atom)
    ensures x == y || AtomLt(x, y) || AtomLt(y, x)
  {
    match (x, y)
    case (Asc(a), Asc(b)) => StrLeTotal(a, b);
    case (Desc(a), Desc(b)) => StrLeTotal(a, b);
    case _ =>
  }

  lemma AtomLtTrans(x: Atom, y: Atom, z: Atom)
    requires AtomLt(x, y) && AtomLt(y, z)
    ensures AtomLt(x, z)
  {
    match (x, y, z)
    case (Asc(a), Asc(b), Asc(c)) =>
      StrLeTrans(a, b, c);
      if a == c { StrLeAntisym(a, b); }
    case (Desc(a), Desc(b), Desc(c)) =>
      StrLeTrans(c, b, a);
      if a == c { StrLeAntisym(a, b); }
    case _ =>
  }

  lemma AtomLtIrreflexive(x: Atom)
    ensures !AtomLt(x, x)
  {
  }

  lemma AtomLtAsym(x: Atom, y: Atom)
    requires AtomLt(x, y)
    ensures !AtomLt(y, x)
  {
    if AtomLt(y, x) {
      AtomLtTrans(x, y, x);
    }
  }

  lemma {:induction false} KeyLeTotal(a: Key, b: Key)
    ensures KeyLe(a, b) || KeyLe(b, a)
    decreases |a|
  {
    if a != [] && b != [] {
      if a[0] == b[0] {
        KeyLeTotal(a[1..], b[1..]);
      } else {
        AtomTrichotomy(a[0], b[0]);
      }
    }
  }

  lemma {:induction false} KeyLeTrans(a: Key, b: Key, c: Key)
    requires KeyLe(a, b) && KeyLe(b, c)
    ensures KeyLe(a, c)
    decreases |a|
  {
    if a != [] {
      assert b != [] && c != [];
      if a[0] == b[0] && b[0] == c[0] {
        KeyLeTrans(a[1..], b[1..], c[1..]);
      } else if a[0] == b[0] {
        assert AtomLt(b[0], c[0]);
      } else if b[0] == c[0] {
        assert AtomLt(a[0], b[0]);
      } else {
        AtomLtTrans(a[0], b[0], c[0]);
        AtomLtIrreflexive(a[0]);
      }
    }
  }

  /** Ordering by a key puts rows with a smaller first term first. */
  lemma KeyLeHead(a: Key, b: Key)
    requires a != [] && b != [] && KeyLe(a, b)
    ensures a[0] == b[0] || AtomLt(a[0], b[0])
  {
  }

  // ------------------------------------------------------------------ sort

  ghost predicate SortedBy<T>(s: seq<T>, key: T -> Key) {
    forall i, j :: 0 <= i < j < |s| ==> KeyLe(key(s[i]), key(s[j]))
  }

  /** Place `x` before the first element whose key is not below its own. */
  function Insert<T>(x: T, s: seq<T>, key: T -> Key): (r: seq<T>)
    ensures multiset(r) == multiset{x} + multiset(s)
    ensures |r| == |s| + 1
  {
    if s == [] || KeyLe(key(x), key(s[0])) then [x] + s
    else
      assert s == [s[0]] + s[1..];
      [s[0]] + Insert(x, s[1..], key)
  }

  /** Stable insertion sort: ORDER BY `key`, ties kept in their scan order. */
  function SortBy<T>(s: seq<T>, key: T -> Key): (r: seq<T>)
    ensures multiset(r) == multiset(s)
    ensures |r| == |s|
  {
    if s == [] then []
    else
      assert s == [s[0]] + s[1..];
      Insert(s[0], SortBy(s[1..], key), key)
  }

  lemma {:induction false} InsertSorted<T>(x: T, s: seq<T>, key: T -> Key)
    requires SortedBy(s, key)
    ensures SortedBy(Insert(x, s, key), key)
  {
    var r := Insert(x, s, key);
    if s == [] {
    } else if KeyLe(key(x), key(s[0])) {
      forall i, j | 0 <= i < j < |r| ensures KeyLe(key(r[i]), key(r[j])) {
        if i == 0 && j > 1 {
          KeyLeTrans(key(x), key(s[0]), key(s[j - 1]));
        }
      }
    } else {
      KeyLeTotal(key(x), key(s[0]));
      var t := Insert(x, s[1..], key);
      InsertSorted(x, s[1..], key);
      assert r == [s[0]] + t;
      forall j | 0 <= j < |t| ensures KeyLe(key(s[0]), key(t[j])) {
        assert t[j] in multiset(t);
        if t[j] != x {
          assert t[j] in multiset(s[1..]);
          var k :| 0 <= k < |s[1..]| && s[1..][k] == t[j];
          assert s[k + 1] == t[j];
        }
      }
    }
  }

  lemma {:induction false} SortBySorted<T>(s: seq<T>, key: T -> Key)
    ensures SortedBy(SortBy(s, key), key)
  {
    if s != [] {
      SortBySorted(s[1..], key);
      InsertSorted(s[0], SortBy(s[1..], key), key);
    }
  }

  // ----------------------------------------------------------------- where

  /** WHERE `p`, keeping scan order. */
  function Where<T>(s: seq<T>, p: T -> bool): (r: seq<T>)
    ensures |r| <= |s|
  {
    if s == [] then [] else (if p(s[0]) then [s[0]] else []) + Where(s[1..], p)
  }

  lemma {:induction false} WhereMembers<T>(s: seq<T>, p: T -> bool)
    ensures forall x :: x in Where(s, p) <==> x in s && p(x)
  {
    if s != [] {
      WhereMembers(s[1..], p);
      assert s == [s[0]] + s[1..];
    }
  }

  lemma {:induction false} WhereMultiset<T>(s: seq<T>, p: T -> bool)
    ensures forall x :: multiset(Where(s, p))[x] == if p(x) then multiset(s)[x] else 0
  {
    if s != [] {
      WhereMultiset(s[1..], p);
      assert s == [s[0]] + s[1..];
    }
  }

  /** Where distributes over concatenation: filtering a longer scan extends the result. */
  lemma {:induction false} WhereAppend<T>(a: seq<T>, b: seq<T>, p: T -> bool)
    ensures Where(a + b, p) == Where(a, p) + Where(b, p)
  {
    if a == [] {
      assert a + b == b;
    } else {
      var head := if p(a[0]) then [a[0]] else [];
      assert (a + b)[0] == a[0] && (a + b)[1..] == a[1..] + b;
      assert Where(a + b, p) == head + Where(a[1..] + b, p);
      WhereAppend(a[1..], b, p);
      assert Where(a, p) == head + Where(a[1..], p);
    }
  }

  /** A filter every row passes keeps the scan as it is. */
  lemma {:induction false} WhereAll<T>(s: seq<T>, p: T -> bool)
    requires forall x :: x in s ==> p(x)
    ensures Where(s, p) == s
  {
    if s != [] {
      assert forall x :: x in s[1..] ==> x in s;
      WhereAll(s[1..], p);
    }
  }

  /** A filter no row passes yields nothing. */
  lemma {:induction false} WhereNone<T>(s: seq<T>, p: T -> bool)
    requires forall x :: x in s ==> !p(x)
    ensures Where(s, p) == []
  {
    if s != [] {
      assert forall x :: x in s[1..] ==> x in s;
      WhereNone(s[1..], p);
    }
  }

  /** Filtering by `p` and then by a stronger `q` is filtering by `q` alone. */
  lemma {:induction false} WhereNarrow<T>(s: seq<T>, p: T -> bool, q: T -> bool)
    requires forall x :: q(x) ==> p(x)
    ensures Where(Where(s, p), q) == Where(s, q)
  {
    if s != [] {
      WhereNarrow(s[1..], p, q);
      if p(s[0]) {
        var w := Where(s, p);
        assert w == [s[0]] + Where(s[1..], p);
        assert w[0] == s[0] && w[1..] == Where(s[1..], p);
        assert Where(w, q) == (if q(w[0]) then [w[0]] else []) + Where(w[1..], q);
      } else {
        assert !q(s[0]);
        assert Where(s, p) == [] + Where(s[1..], p);
        assert [] + Where(s[1..], p) == Where(s[1..], p);
        assert Where(s, q) == [] + Where(s[1..], q);
        assert [] + Where(s[1..], q) == Where(s[1..], q);
      }
    }
  }

  /** The rows whose `key` is `k`. */
  function KeyIs<T, K(==)>(key: T -> K, k: K): T -> bool {
    (x: T) => key(x) == k
  }

  /**
   * Grouping in one pass (`result.setdefault(key, []).append(row)`): one
   * group per key that occurs, holding that key's rows in scan order.
   */
  method GroupBy<T, K(==)>(rows: seq<T>, key: T -> K) returns (groups: map<K, seq<T>>)
    ensures forall k :: k in groups <==> exists x :: x in rows && key(x) == k
    ensures forall k :: k in groups ==> groups[k] == Where(rows, KeyIs(key, k))
  {
    groups := map[];
    for i := 0 to |rows|
      invariant forall k :: k in groups <==> exists x :: x in rows[..i] && key(x) == k
      invariant forall k :: k in groups ==> groups[k] == Where(rows[..i], KeyIs(key, k))
    {
      var k := key(rows[i]);
      assert rows[..i + 1] == rows[..i] + [rows[i]];
      if k !in groups {
        WhereNone(rows[..i], KeyIs(key, k));
        groups := groups[k := []];
      }
      groups := groups[k := groups[k] + [rows[i]]];
      forall j | j in groups
        ensures groups[j] == Where(rows[..i + 1], KeyIs(key, j))
      {
        WhereAppend(rows[..i], [rows[i]], KeyIs(key, j));
      }
    }
    assert rows[..|rows|] == rows;
  }

  /** The first row satisfying `p` (SQL `fetchone()` over a scan), or None. */
  function First<T>(s: seq<T>, p: T -> bool): (r: Option<T>)
    ensures r.Some? ==> r.value in s && p(r.value)
    ensures r.None? <==> forall x :: x in s ==> !p(x)
  {
    if s == [] then None else if p(s[0]) then Some(s[0]) else First(s[1..], p)
  }

  /** `First` picks the earliest match: nothing before it satisfies `p`. */
  lemma {:induction false} FirstIsEarliest<T>(s: seq<T>, p: T -> bool, i: nat)
    requires i < |s| && p(s[i])
    ensures First(s, p).Some?
    ensures exists j :: 0 <= j <= i && s[j] == First(s, p).value && forall k :: 0 <= k < j ==> !p(s[k])
  {
    if !p(s[0]) {
      FirstIsEarliest(s[1..], p, i - 1);
      var j :| 0 <= j <= i - 1 && s[1..][j] == First(s[1..], p).value && forall k :: 0 <= k < j ==> !p(s[1..][k]);
      assert s[j + 1] == First(s, p).value;
      forall k | 0 <= k < j + 1 ensures !p(s[k]) {
        if k > 0 { assert s[k] == s[1..][k - 1]; }
      }
    }
  }

  function Count<T>(s: seq<T>, p: T -> bool): (n: nat)
    ensures n == |Where(s, p)|
  {
    if s == [] then 0 else (if p(s[0]) then 1 else 0) + Count(s[1..], p)
  }
}
