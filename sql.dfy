/** What the two handlers need of the relational store: how bound
    parameters are held, how a text parameter compares with an integer
    key, and what ORDER BY ... ASC delivers. */
module Sql {
  import opened Php

  /** A stored column value: NULL or text. PDOStatement::execute with an
      array binds every parameter as a string, and null as NULL. */
  type Cell = Option<string>

  /** The cell a PHP value binds to. */
  function Bind(v: Value): (c: Cell)
    ensures c.None? <==> v.Null?
    ensures v.Str? ==> c == Some(v.s)
  {
    if v.Null? then None else Some(ToStr(v))
  }

  /** `column = :param` where the column holds an integer key: the text
      is read as the integer it starts with, and NULL equals nothing. */
  predicate KeyEquals(c: Cell, key: int) {
    c.Some? && LeadingInt(c.value) == key
  }

  /** A non-null value matches the key its intval names, and an integer
      value matches exactly itself. */
  lemma KeyEqualsBound(v: Value, key: int)
    ensures KeyEquals(Bind(v), key) <==> !v.Null? && IntVal(v) == key
    ensures v.Int? ==> (KeyEquals(Bind(v), key) <==> v.i == key)
  {
    IntValOfString(v);
  }

  // ------------------------------------------------------------ ORDER BY

  /** a sorts no later than b: lexicographic order on characters, which
      for dates written YYYY-MM-DD is date order. */
  predicate LexLe(a: string, b: string) {
    a == [] || (b != [] && (a[0] < b[0] || (a[0] == b[0] && LexLe(a[1..], b[1..]))))
  }

  lemma {:induction false} LexLeTotal(a: string, b: string)
    ensures LexLe(a, b) || LexLe(b, a)
  {
    if a != [] && b != [] && a[0] == b[0] {
      LexLeTotal(a[1..], b[1..]);
    }
  }

  lemma {:induction false} LexLeTransitive(a: string, b: string, c: string)
    requires LexLe(a, b) && LexLe(b, c)
    ensures LexLe(a, c)
  {
    if a != [] && b != [] && c != [] && a[0] == b[0] && b[0] == c[0] {
      LexLeTransitive(a[1..], b[1..], c[1..]);
    }
  }

  /** Every element sorts no later than every element after it. */
  ghost predicate SortedBy<T>(xs: seq<T>, key: T -> string) {
    forall i, j :: 0 <= i < j < |xs| ==> LexLe(key(xs[i]), key(xs[j]))
  }

  lemma SortedCons<T>(y: T, xs: seq<T>, key: T -> string)
    requires SortedBy(xs, key)
    requires forall j :: 0 <= j < |xs| ==> LexLe(key(y), key(xs[j]))
    ensures SortedBy([y] + xs, key)
  {
    var r := [y] + xs;
    forall i, j | 0 <= i < j < |r| ensures LexLe(key(r[i]), key(r[j])) {
      if i > 0 {
        assert r[i] == xs[i - 1] && r[j] == xs[j - 1];
      }
    }
  }

  /** The key of x bounds the keys of every element of the sorted xs
      when it bounds the first. */
  lemma LeastOfSorted<T>(x: T, xs: seq<T>, key: T -> string)
    requires SortedBy(xs, key) && (xs != [] ==> LexLe(key(x), key(xs[0])))
    ensures forall j :: 0 <= j < |xs| ==> LexLe(key(x), key(xs[j]))
  {
    forall j | 0 <= j < |xs| ensures LexLe(key(x), key(xs[j])) {
      if j > 0 { LexLeTransitive(key(x), key(xs[0]), key(xs[j])); }
    }
  }

  /** The head of the sorted xs bounds x, when x does not sort before it,
      and so bounds every element of x inserted into the tail. */
  lemma HeadBoundsInsert<T>(x: T, xs: seq<T>, rest: seq<T>, key: T -> string)
    requires SortedBy(xs, key) && xs != [] && !LexLe(key(x), key(xs[0]))
    requires multiset(rest) == multiset(xs[1..]) + multiset{x}
    ensures forall j :: 0 <= j < |rest| ==> LexLe(key(xs[0]), key(rest[j]))
  {
    LexLeTotal(key(x), key(xs[0]));
    forall j | 0 <= j < |rest| ensures LexLe(key(xs[0]), key(rest[j])) {
      assert rest[j] in multiset(rest);
      if rest[j] != x {
        assert rest[j] in multiset(xs[1..]);
        var k :| 0 <= k < |xs[1..]| && xs[1..][k] == rest[j];
        assert xs[k + 1] == rest[j];
      }
    }
  }

  /** x inserted before the first element it sorts no later than. */
  function InsertBy<T>(x: T, xs: seq<T>, key: T -> string): (r: seq<T>)
    requires SortedBy(xs, key)
    ensures multiset(r) == multiset(xs) + multiset{x}
    ensures SortedBy(r, key)
  {
    if xs == [] || LexLe(key(x), key(xs[0])) then
      LeastOfSorted(x, xs, key);
      SortedCons(x, xs, key);
      [x] + xs
    else
      var rest := InsertBy(x, xs[1..], key);
      HeadBoundsInsert(x, xs, rest, key);
      SortedCons(xs[0], rest, key);
      assert xs == [xs[0]] + xs[1..];
      [xs[0]] + rest
  }

  /** An ORDER BY key ASC result: the rows of xs, sorted by key. Rows with
      equal keys keep their relative order here; the store may deliver
      them in any order, so callers rely only on SortByPermutes. */
  function SortBy<T>(xs: seq<T>, key: T -> string): seq<T> {
    if xs == [] then [] else InsertBy(xs[0], SortBy(xs[1..], key), key)
  }

  /** SortBy yields a sorted permutation of its input. */
  lemma {:induction false} SortByPermutes<T>(xs: seq<T>, key: T -> string)
    ensures SortedBy(SortBy(xs, key), key)
    ensures multiset(SortBy(xs, key)) == multiset(xs)
  {
    if xs != [] {
      SortByPermutes(xs[1..], key);
      assert xs == [xs[0]] + xs[1..];
    }
  }
}
