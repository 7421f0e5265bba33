/**
 * The two query-set operations the views chain together, over plain
 * sequences of rows: `filter(...)` keeps the rows satisfying a condition in
 * their original order, and `order_by('-name')` / `order_by('-id')` sort
 * them in descending order of a key.
 */
module Query {
  import opened Entities
  import opened Text

  /** The rows of `s` satisfying `keep`, in their original order. */
  function Filter<T(!new)>(s: seq<T>, keep: T -> bool): (r: seq<T>)
    ensures forall x :: x in r <==> x in s && keep(x)
    ensures multiset(r) <= multiset(s)
    ensures |r| <= |s|
  {
    if |s| == 0 then []
    else
      assert s == [s[0]] + s[1..];
      (if keep(s[0]) then [s[0]] else []) + Filter(s[1..], keep)
  }

  /** A kept row appears in the result exactly as often as in the input. */
  lemma {:induction false} FilterKeepsCount<T(!new)>(s: seq<T>, keep: T -> bool, x: T)
    requires keep(x)
    ensures multiset(Filter(s, keep))[x] == multiset(s)[x]
    decreases |s|
  {
    if |s| > 0 {
      assert s == [s[0]] + s[1..];
      FilterKeepsCount(s[1..], keep, x);
    }
  }

  /** Filtering a sequence with one more row at the end. */
  lemma {:induction false} FilterAppend<T(!new)>(s: seq<T>, x: T, keep: T -> bool)
    ensures Filter(s + [x], keep) == Filter(s, keep) + (if keep(x) then [x] else [])
    decreases |s|
  {
    var sx := s + [x];
    if |s| == 0 {
      assert sx == [x];
      assert sx[1..] == [];
      assert Filter(sx, keep) == (if keep(x) then [x] else []) + Filter([], keep);
    } else {
      assert sx[0] == s[0];
      assert sx[1..] == s[1..] + [x];
      FilterAppend(s[1..], x, keep);
      var front := if keep(s[0]) then [s[0]] else [];
      var back := if keep(x) then [x] else [];
      calc {
        Filter(sx, keep);
        front + Filter(s[1..] + [x], keep);
        front + (Filter(s[1..], keep) + back);
        (front + Filter(s[1..], keep)) + back;
        Filter(s, keep) + back;
      }
    }
  }

  /** A row `keep` rejects, appended, leaves the filtered rows as they were. */
  lemma FilterAppendRejected<T(!new)>(s: seq<T>, x: T, keep: T -> bool)
    requires !keep(x)
    ensures Filter(s + [x], keep) == Filter(s, keep)
  {
    FilterAppend(s, x, keep);
    AppendNothing(Filter(s, keep));
  }

  lemma AppendNothing<T>(s: seq<T>)
    ensures s + [] == s
  {
  }

  /** Dropping the first row of a table keeps its ids unique and frees the first id. */
  lemma UniqueIdsDropHead(s: seq<Recipe>)
    requires |s| > 0 && UniqueIds(s)
    ensures UniqueIds(s[1..])
    ensures forall y :: y in s[1..] ==> y.id != s[0].id
  {
    var tail := s[1..];
    forall i, j | 0 <= i < |tail| && 0 <= j < |tail| && SameId(tail[i], tail[j])
      ensures i == j
    {
      assert SameId(s[i + 1], s[j + 1]);
    }
    forall y | y in tail
      ensures y.id != s[0].id
    {
      var k :| 0 <= k < |tail| && tail[k] == y;
      assert SameId(s[k + 1], s[0]) ==> k + 1 == 0;
    }
  }

  /** A row with an id no other row has can join a table with unique ids. */
  lemma UniqueIdsCons(a: Recipe, rest: seq<Recipe>)
    requires UniqueIds(rest)
    requires forall y :: y in rest ==> y.id != a.id
    ensures UniqueIds([a] + rest)
  {
    var r := [a] + rest;
    forall j | 0 < j < |r|
      ensures !SameId(r[0], r[j])
    {
      assert r[j] == rest[j - 1];
    }
    forall i, j | 0 <= i < |r| && 0 <= j < |r| && SameId(r[i], r[j])
      ensures i == j
    {
      if i > 0 && j > 0 {
        assert rest[i - 1] == r[i] && rest[j - 1] == r[j];
      }
    }
  }

  /** A row with an id no other row has can be appended to a table with unique ids. */
  lemma UniqueIdsSnoc(rest: seq<Recipe>, a: Recipe)
    requires UniqueIds(rest)
    requires forall y :: y in rest ==> y.id != a.id
    ensures UniqueIds(rest + [a])
  {
    var r := rest + [a];
    forall i | 0 <= i < |rest|
      ensures !SameId(r[i], r[|rest|])
    {
      assert r[i] == rest[i];
    }
    forall i, j | 0 <= i < |r| && 0 <= j < |r| && SameId(r[i], r[j])
      ensures i == j
    {
      if i < |rest| && j < |rest| {
        assert rest[i] == r[i] && rest[j] == r[j];
      }
    }
  }

  /** Filtering never brings two rows with one id together. */
  lemma {:induction false} FilterKeepsUniqueIds(s: seq<Recipe>, keep: Recipe -> bool)
    requires UniqueIds(s)
    ensures UniqueIds(Filter(s, keep))
    decreases |s|
  {
    if |s| > 0 {
      var tail := s[1..];
      UniqueIdsDropHead(s);
      FilterKeepsUniqueIds(tail, keep);
      var rest := Filter(tail, keep);
      if keep(s[0]) {
        UniqueIdsCons(s[0], rest);
      }
    }
  }

  // ---------------------------------------------------------------------
  // filter(...) across a many-to-many relation: a join

  /** `n` copies of `x`. */
  function Repeat<T(!new)>(x: T, n: nat): (r: seq<T>)
    ensures |r| == n
    ensures forall k :: 0 <= k < n ==> r[k] == x
    ensures forall y :: multiset(r)[y] == if y == x then n else 0
  {
    if n == 0 then [] else [x] + Repeat(x, n - 1)
  }

  /**
   * The rows a join yields: each row of `s`, in order, once per link that
   * matches, `copies(x)` times; a row with no matching link drops out.
   */
  function Expand<T(!new)>(s: seq<T>, copies: T -> nat): (r: seq<T>)
    ensures forall x :: multiset(r)[x] == multiset(s)[x] * copies(x)
    ensures forall x :: x in r <==> x in s && copies(x) > 0
  {
    if |s| == 0 then []
    else
      var rest := Expand(s[1..], copies);
      ExpandStep(s, copies, rest);
      Repeat(s[0], copies(s[0])) + rest
  }

  lemma ExpandStep<T(!new)>(s: seq<T>, copies: T -> nat, rest: seq<T>)
    requires |s| > 0
    requires forall x :: multiset(rest)[x] == multiset(s[1..])[x] * copies(x)
    ensures forall x :: multiset(Repeat(s[0], copies(s[0])) + rest)[x] == multiset(s)[x] * copies(x)
    ensures forall x :: x in Repeat(s[0], copies(s[0])) + rest <==> x in s && copies(x) > 0
  {
    var r := Repeat(s[0], copies(s[0])) + rest;
    assert s == [s[0]] + s[1..];
    forall x
      ensures multiset(r)[x] == multiset(s)[x] * copies(x)
    {
      var head := if x == s[0] then 1 else 0;
      assert multiset(s)[x] == head + multiset(s[1..])[x];
      MulDistributes(head, multiset(s[1..])[x], copies(x));
    }
    forall x
      ensures x in r <==> x in s && copies(x) > 0
    {
      assert x in r <==> multiset(r)[x] > 0;
      ProductPositive(multiset(s)[x], copies(x));
    }
  }

  lemma MulDistributes(a: nat, b: nat, c: nat)
    ensures (a + b) * c == a * c + b * c
  {
  }

  lemma ProductPositive(a: nat, b: nat)
    ensures a * b > 0 <==> a > 0 && b > 0
  {
  }

  /** Expanding a sequence with one more row at the end. */
  lemma {:induction false} ExpandAppend<T(!new)>(s: seq<T>, x: T, copies: T -> nat)
    ensures Expand(s + [x], copies) == Expand(s, copies) + Repeat(x, copies(x))
    decreases |s|
  {
    var sx := s + [x];
    if |s| == 0 {
      assert sx[1..] == [];
      assert Expand(sx, copies) == Repeat(x, copies(x)) + [];
    } else {
      assert sx[0] == s[0];
      assert sx[1..] == s[1..] + [x];
      ExpandAppend(s[1..], x, copies);
      var front := Repeat(s[0], copies(s[0]));
      var middle := Expand(s[1..], copies);
      var back := Repeat(x, copies(x));
      assert Expand(sx, copies) == front + (middle + back);
      assert Expand(s, copies) == front + middle;
      AppendAssoc(front, middle, back);
    }
  }

  /** A row that occurs twice sits at two positions. */
  lemma {:induction false} CountTwoPositions<T>(s: seq<T>, x: T)
    requires multiset(s)[x] >= 2
    ensures exists i, j :: 0 <= i < j < |s| && s[i] == x && s[j] == x
    decreases |s|
  {
    assert s == [s[0]] + s[1..];
    var tail := s[1..];
    if s[0] == x {
      assert x in multiset(tail);
      var j :| 0 <= j < |tail| && tail[j] == x;
      assert s[j + 1] == x;
    } else {
      CountTwoPositions(tail, x);
      var i, j :| 0 <= i < j < |tail| && tail[i] == x && tail[j] == x;
      assert s[i + 1] == x && s[j + 1] == x;
    }
  }

  /** Two positions holding one row make it occur at least twice. */
  lemma TwoPositionsCount<T>(s: seq<T>, i: nat, j: nat)
    requires i < j < |s| && s[i] == s[j]
    ensures multiset(s)[s[i]] >= 2
  {
    assert s == s[..j] + s[j..];
    assert s[..j][i] == s[i];
    assert s[j..][0] == s[j];
  }

  /** In a strictly id-descending sequence every row occurs once. */
  lemma StrictOnce(s: seq<Recipe>)
    requires IdStrictlyDescending(s)
    ensures forall x :: x in s ==> multiset(s)[x] == 1
  {
    forall x | x in s
      ensures multiset(s)[x] == 1
    {
      if multiset(s)[x] >= 2 {
        CountTwoPositions(s, x);
      }
    }
  }

  /** Rows that each occur once, where rows sharing an id are one row, have unique ids. */
  lemma OnceUnique(s: seq<Recipe>)
    requires SameIdSameRow(s)
    requires forall x :: x in s ==> multiset(s)[x] == 1
    ensures UniqueIds(s)
  {
    forall i, j | 0 <= i < |s| && 0 <= j < |s| && SameId(s[i], s[j])
      ensures i == j
    {
      if i < j {
        TwoPositionsCount(s, i, j);
      } else if j < i {
        TwoPositionsCount(s, j, i);
      }
    }
  }

  /** In a table with unique ids, a row with a given id is the only one. */
  lemma UniqueIdsSame(s: seq<Recipe>, x: Recipe, y: Recipe)
    requires UniqueIds(s) && x in s && y in s && x.id == y.id
    ensures x == y
  {
    var i :| 0 <= i < |s| && s[i] == x;
    var j :| 0 <= j < |s| && s[j] == y;
    assert SameId(s[i], s[j]);
  }

  /** Each row of a table with unique ids occurs once. */
  lemma UniqueIdsOnce(s: seq<Recipe>, x: Recipe)
    requires UniqueIds(s) && x in s
    ensures multiset(s)[x] == 1
  {
    if multiset(s)[x] >= 2 {
      CountTwoPositions(s, x);
    }
  }

  // ---------------------------------------------------------------------
  // order_by('-name') on Tag and Ingredient rows

  /** Each row's name sorts at or after the names of all the rows after it. */
  predicate NameDescending(s: seq<Attr>) {
    forall i, j :: 0 <= i < j < |s| ==> StrLe(s[j].name, s[i].name)
  }

  /** Putting a row whose name tops every name in front keeps the order. */
  lemma PrependNameDescending(a: Attr, s: seq<Attr>)
    requires NameDescending(s)
    requires forall y :: y in s ==> StrLe(y.name, a.name)
    ensures NameDescending([a] + s)
  {
    var r := [a] + s;
    forall i, j | 0 <= i < j < |r|
      ensures StrLe(r[j].name, r[i].name)
    {
      if i == 0 {
        assert r[j] in s;
      } else {
        assert r[i] == s[i - 1] && r[j] == s[j - 1];
      }
    }
  }

  /** The first row of a name-descending sequence tops every name in it. */
  lemma HeadTopsNames(s: seq<Attr>)
    requires |s| > 0 && NameDescending(s)
    ensures forall y :: y in s ==> StrLe(y.name, s[0].name)
  {
    forall y | y in s
      ensures StrLe(y.name, s[0].name)
    {
      var k :| 0 <= k < |s| && s[k] == y;
      if k == 0 {
        StrLeReflexive(y.name);
      }
    }
  }

  /** A row whose name tops the head of a name-descending sequence goes in front. */
  lemma InsertByNameFront(a: Attr, s: seq<Attr>)
    requires |s| > 0 && NameDescending(s) && StrLe(s[0].name, a.name)
    ensures NameDescending([a] + s)
  {
    HeadTopsNames(s);
    forall y | y in s
      ensures StrLe(y.name, a.name)
    {
      StrLeTransitive(y.name, s[0].name, a.name);
    }
    PrependNameDescending(a, s);
  }

  /** Otherwise the head stays in front of the tail the row went into. */
  lemma InsertByNameBehind(a: Attr, s: seq<Attr>, rest: seq<Attr>)
    requires |s| > 0 && NameDescending(s) && !StrLe(s[0].name, a.name)
    requires NameDescending(rest) && multiset(rest) == multiset(s[1..]) + multiset{a}
    ensures NameDescending([s[0]] + rest)
    ensures multiset([s[0]] + rest) == multiset(s) + multiset{a}
  {
    StrLeTotal(s[0].name, a.name);
    HeadTopsNames(s);
    assert s == [s[0]] + s[1..];
    forall y | y in rest
      ensures StrLe(y.name, s[0].name)
    {
      assert y in multiset(rest);
    }
    PrependNameDescending(s[0], rest);
  }

  function InsertByName(a: Attr, s: seq<Attr>): (r: seq<Attr>)
    requires NameDescending(s)
    ensures NameDescending(r)
    ensures multiset(r) == multiset(s) + multiset{a}
  {
    if |s| == 0 then [a]
    else if StrLe(s[0].name, a.name) then
      InsertByNameFront(a, s);
      [a] + s
    else
      assert NameDescending(s[1..]);
      var rest := InsertByName(a, s[1..]);
      InsertByNameBehind(a, s, rest);
      [s[0]] + rest
  }

  /**
   * `order_by('-name')`: the same rows, as a multiset, in descending name
   * order. Rows with equal names may come in any order.
   */
  function SortByNameDesc(s: seq<Attr>): (r: seq<Attr>)
    ensures NameDescending(r)
    ensures multiset(r) == multiset(s)
  {
    if |s| == 0 then []
    else
      assert s == [s[0]] + s[1..];
      InsertByName(s[0], SortByNameDesc(s[1..]))
  }

  // ---------------------------------------------------------------------
  // order_by('-id') on Recipe rows

  /** Ids never increase along the sequence. */
  predicate IdDescending(s: seq<Recipe>) {
    forall i, j :: 0 <= i < j < |s| ==> IdAtMost(s[j], s[i])
  }

  /** Ids strictly decrease along the sequence, so no id repeats. */
  predicate IdStrictlyDescending(s: seq<Recipe>) {
    forall i, j :: 0 <= i < j < |s| ==> IdBelow(s[j], s[i])
  }

  /** Putting a row whose id tops every id in front keeps the order. */
  lemma PrependIdDescending(a: Recipe, s: seq<Recipe>)
    requires IdDescending(s)
    requires forall y :: y in s ==> y.id <= a.id
    ensures IdDescending([a] + s)
  {
    var r := [a] + s;
    forall i, j | 0 <= i < j < |r|
      ensures r[j].id <= r[i].id
    {
      if i == 0 {
        assert r[j] in s;
      } else {
        assert r[i] == s[i - 1] && r[j] == s[j - 1];
      }
    }
  }

  /** The same with strict order: the new id is above every id. */
  lemma PrependIdStrictlyDescending(a: Recipe, s: seq<Recipe>)
    requires IdStrictlyDescending(s)
    requires forall y :: y in s ==> y.id < a.id
    ensures IdStrictlyDescending([a] + s)
  {
    var r := [a] + s;
    forall i, j | 0 <= i < j < |r|
      ensures r[j].id < r[i].id
    {
      if i == 0 {
        assert r[j] in s;
      } else {
        assert r[i] == s[i - 1] && r[j] == s[j - 1];
      }
    }
  }

  /** The first row of an id-descending sequence has the largest id in it. */
  lemma HeadTopsIds(s: seq<Recipe>)
    requires |s| > 0 && IdDescending(s)
    ensures forall y :: y in s ==> y.id <= s[0].id
    ensures IdStrictlyDescending(s) ==> forall y :: y in s[1..] ==> y.id < s[0].id
  {
    forall y | y in s
      ensures y.id <= s[0].id
    {
      var k :| 0 <= k < |s| && s[k] == y;
    }
    if IdStrictlyDescending(s) {
      forall y | y in s[1..]
        ensures y.id < s[0].id
      {
        var k :| 0 <= k < |s[1..]| && s[1..][k] == y;
        assert s[k + 1] == y;
      }
    }
  }

  /** Otherwise the head stays in front of the tail the row went into. */
  lemma InsertByIdBehind(a: Recipe, s: seq<Recipe>, rest: seq<Recipe>)
    requires |s| > 0 && IdDescending(s) && a.id < s[0].id
    requires IdDescending(rest) && multiset(rest) == multiset(s[1..]) + multiset{a}
    ensures IdDescending([s[0]] + rest)
    ensures multiset([s[0]] + rest) == multiset(s) + multiset{a}
  {
    HeadTopsIds(s);
    assert s == [s[0]] + s[1..];
    forall y | y in rest
      ensures y.id <= s[0].id
    {
      assert y in multiset(rest);
    }
    PrependIdDescending(s[0], rest);
  }

  function InsertById(a: Recipe, s: seq<Recipe>): (r: seq<Recipe>)
    requires IdDescending(s)
    ensures IdDescending(r)
    ensures multiset(r) == multiset(s) + multiset{a}
  {
    if |s| == 0 then [a]
    else if s[0].id <= a.id then
      HeadTopsIds(s);
      PrependIdDescending(a, s);
      [a] + s
    else
      assert IdDescending(s[1..]);
      var rest := InsertById(a, s[1..]);
      InsertByIdBehind(a, s, rest);
      [s[0]] + rest
  }

  /** Inserting a row with a fresh id into strictly descending rows keeps them strict. */
  lemma {:induction false} InsertByIdStrict(a: Recipe, s: seq<Recipe>)
    requires IdStrictlyDescending(s)
    requires forall y :: y in s ==> y.id != a.id
    ensures IdDescending(s)
    ensures IdStrictlyDescending(InsertById(a, s))
    decreases |s|
  {
    assert IdDescending(s);
    if |s| > 0 {
      HeadTopsIds(s);
      if s[0].id <= a.id {
        PrependIdStrictlyDescending(a, s);
      } else {
        var tail := s[1..];
        assert IdStrictlyDescending(tail);
        assert forall y :: y in tail ==> y in s;
        InsertByIdStrict(a, tail);
        var rest := InsertById(a, tail);
        assert forall y :: y in rest ==> y in multiset(rest);
        assert forall y :: y in rest ==> y.id < s[0].id;
        PrependIdStrictlyDescending(s[0], rest);
      }
    }
  }

  /** The tail of a table with unique ids has unique ids, none equal to the head's. */
  lemma UniqueIdsTail(s: seq<Recipe>, sorted: seq<Recipe>)
    requires |s| > 0 && UniqueIds(s)
    requires multiset(sorted) == multiset(s[1..])
    ensures UniqueIds(s[1..])
    ensures forall y :: y in sorted ==> y.id != s[0].id
  {
    UniqueIdsDropHead(s);
    forall y | y in sorted
      ensures y.id != s[0].id
    {
      assert y in multiset(sorted);
    }
  }

  /**
   * `order_by('-id')`: the same rows, as a multiset, with ids descending;
   * strictly descending when the ids are a table's primary keys.
   */
  function SortByIdDesc(s: seq<Recipe>): (r: seq<Recipe>)
    ensures IdDescending(r)
    ensures multiset(r) == multiset(s)
    ensures UniqueIds(s) ==> IdStrictlyDescending(r)
  {
    if |s| == 0 then []
    else
      assert s == [s[0]] + s[1..];
      if UniqueIds(s) then
        var sorted := SortByIdDesc(s[1..]);
        UniqueIdsTail(s, sorted);
        InsertByIdStrict(s[0], sorted);
        InsertById(s[0], sorted)
      else
        InsertById(s[0], SortByIdDesc(s[1..]))
  }

  lemma HeadIsMember<T>(s: seq<T>)
    requires |s| > 0
    ensures s[0] in s
  {
  }

  /** Rows that share an id are the same row, as in a table keyed by id. */
  predicate SameIdSameRow(s: seq<Recipe>) {
    forall x, y :: x in s && y in s && x.id == y.id ==> x == y
  }

  lemma MultisetCancel<T>(x: T, m: multiset<T>, n: multiset<T>)
    requires multiset{x} + m == multiset{x} + n
    ensures m == n
  {
    forall y
      ensures m[y] == n[y]
    {
      assert (multiset{x} + m)[y] == (multiset{x} + n)[y];
    }
  }

  /**
   * An id-descending arrangement of a multiset of rows, where rows sharing
   * an id are the same row, is unique: two such sequences are equal.
   */
  lemma {:induction false} DescendingUnique(a: seq<Recipe>, b: seq<Recipe>)
    requires IdDescending(a) && IdDescending(b)
    requires multiset(a) == multiset(b)
    requires SameIdSameRow(a)
    ensures a == b
    decreases |a|
  {
    assert |a| == |multiset(a)| == |b|;
    if |a| > 0 {
      SameHead(a, b);
      assert IdDescending(a[1..]) && IdDescending(b[1..]);
      assert forall x :: x in a[1..] ==> x in a;
      DescendingUnique(a[1..], b[1..]);
      assert a == [a[0]] + a[1..];
      assert b == [b[0]] + b[1..];
    }
  }

  /** Both arrangements start with the row of the top id, and the rest hold the same rows. */
  lemma SameHead(a: seq<Recipe>, b: seq<Recipe>)
    requires |a| > 0 && |b| > 0
    requires IdDescending(a) && IdDescending(b)
    requires multiset(a) == multiset(b)
    requires SameIdSameRow(a)
    ensures a[0] == b[0]
    ensures multiset(a[1..]) == multiset(b[1..])
  {
    assert a[0] in multiset(b) && b[0] in multiset(a);
    HeadTopsIds(a);
    HeadTopsIds(b);
    assert a[0] == b[0];
    assert a == [a[0]] + a[1..];
    assert b == [b[0]] + b[1..];
    MultisetCancel(a[0], multiset(a[1..]), multiset(b[1..]));
  }

  /**
   * A strictly id-descending arrangement of a set of rows is unique: two
   * such sequences with the same rows are equal.
   */
  lemma {:induction false} StrictlyDescendingUnique(a: seq<Recipe>, b: seq<Recipe>)
    requires IdStrictlyDescending(a) && IdStrictlyDescending(b)
    requires forall x :: x in a <==> x in b
    ensures a == b
    decreases |a|
  {
    if |a| == 0 {
      if |b| > 0 {
        HeadIsMember(b);
      }
    } else {
      assert a[0] in b;
      assert |b| > 0;
      assert b[0] in a;
      var i :| 0 <= i < |a| && a[i] == b[0];
      var j :| 0 <= j < |b| && b[j] == a[0];
      assert i == 0;
      forall x
        ensures x in a[1..] <==> x in b[1..]
      {
        if x in a[1..] {
          var k :| 1 <= k < |a| && a[k] == x;
          assert x.id < a[0].id;
          assert x in b;
        }
        if x in b[1..] {
          var k :| 1 <= k < |b| && b[k] == x;
          assert x.id < b[0].id;
          assert x in a;
        }
      }
      assert IdStrictlyDescending(a[1..]);
      assert IdStrictlyDescending(b[1..]);
      StrictlyDescendingUnique(a[1..], b[1..]);
      assert a == [a[0]] + a[1..];
      assert b == [b[0]] + b[1..];
    }
  }
}
