/**
 * The order of the query's answer: `OrderBy(client name)` followed by
 * `ThenBy(grocery-list name)`, a stable sort on a two-part key.
 */
module RowOrder {
  import opened Models
  import opened StringOrder

  /**
   * The sort key of a row: the selector of `OrderBy` (client name) first, that
   * of `ThenBy` (grocery-list name) second. Rows with the same key are tied:
   * either may precede the other, so only stability decides their order.
   */
  function Key(r: BoughtProducts): (k: (string, string))
    ensures forall s: BoughtProducts :: (s.client.name, s.groceryList.name) == k ==> KeyLe(r, s) && KeyLe(s, r)
  {
    LexLeReflexive(r.groceryList.name);
    (r.client.name, r.groceryList.name)
  }

  /**
   * `r` may precede `s`: a smaller client name, or the same client name and a
   * list name no larger. The client name decides first; the list name only
   * breaks a tie.
   */
  predicate KeyLe(r: BoughtProducts, s: BoughtProducts)
    ensures KeyLe(r, s) ==> LexLe(r.client.name, s.client.name)
    ensures KeyLe(r, s) && r.client.name == s.client.name ==> LexLe(r.groceryList.name, s.groceryList.name)
  {
    LexLeReflexive(r.client.name);
    || (r.client.name != s.client.name && LexLe(r.client.name, s.client.name))
    || (r.client.name == s.client.name && LexLe(r.groceryList.name, s.groceryList.name))
  }

  /** Adjacent rows are in key order. */
  predicate Sorted(rows: seq<BoughtProducts>)
  {
    forall i :: 0 <= i < |rows| - 1 ==> KeyLe(rows[i], rows[i + 1])
  }

  /**
   * The rows of `rows` whose key is `k`, in their order in `rows`. Stability is
   * stated through it; the size bound only serves the induction over it.
   */
  function WithKey(rows: seq<BoughtProducts>, k: (string, string)): (r: seq<BoughtProducts>)
    ensures |r| <= |rows|
    ensures forall i :: 0 <= i < |r| ==> Key(r[i]) == k
  {
    if rows == [] then [] else (if Key(rows[0]) == k then [rows[0]] else []) + WithKey(rows[1..], k)
  }

  /** Puts `x` in front of the first row it may precede; rows with `x`'s key stay behind it. */
  function Insert(x: BoughtProducts, rows: seq<BoughtProducts>): (r: seq<BoughtProducts>)
    ensures multiset(r) == multiset(rows) + multiset{x}
    ensures r[0] == x || (rows != [] && r[0] == rows[0])
  {
    if rows == [] then [x]
    else if KeyLe(x, rows[0]) then [x] + rows
    else
      assert rows == [rows[0]] + rows[1..];
      [rows[0]] + Insert(x, rows[1..])
  }

  /** `rows.OrderBy(r => r.Client.Name).ThenBy(r => r.GroceryList.Name)`, as a stable insertion sort. */
  function OrderByClientThenList(rows: seq<BoughtProducts>): (r: seq<BoughtProducts>)
    ensures multiset(r) == multiset(rows)
  {
    if rows == [] then []
    else
      assert rows == [rows[0]] + rows[1..];
      Insert(rows[0], OrderByClientThenList(rows[1..]))
  }

  lemma KeyLeReflexive(r: BoughtProducts, s: BoughtProducts)
    ensures Key(r) == Key(s) ==> KeyLe(r, s)
  {
    LexLeReflexive(r.groceryList.name);
  }

  lemma KeyLeTotal(r: BoughtProducts, s: BoughtProducts)
    ensures KeyLe(r, s) || KeyLe(s, r)
  {
    LexLeTotal(r.client.name, s.client.name);
    LexLeTotal(r.groceryList.name, s.groceryList.name);
  }

  lemma KeyLeAntisymmetric(r: BoughtProducts, s: BoughtProducts)
    requires KeyLe(r, s) && KeyLe(s, r)
    ensures Key(r) == Key(s)
  {
    if r.client.name != s.client.name {
      LexLeAntisymmetric(r.client.name, s.client.name);
    } else {
      LexLeAntisymmetric(r.groceryList.name, s.groceryList.name);
    }
  }

  lemma KeyLeTransitive(r: BoughtProducts, s: BoughtProducts, t: BoughtProducts)
    requires KeyLe(r, s) && KeyLe(s, t)
    ensures KeyLe(r, t)
  {
    var a, b, c := r.client.name, s.client.name, t.client.name;
    if a == b == c {
      LexLeTransitive(r.groceryList.name, s.groceryList.name, t.groceryList.name);
    } else {
      assert LexLe(a, b) && LexLe(b, c) by { LexLeReflexive(a); LexLeReflexive(b); }
      LexLeTransitive(a, b, c);
      if a == c {
        LexLeAntisymmetric(a, b);
      }
    }
  }

  /** In a sorted sequence the first row may precede every row. */
  lemma {:induction false} SortedFirstIsLeast(rows: seq<BoughtProducts>, j: nat)
    requires Sorted(rows) && j < |rows|
    ensures KeyLe(rows[0], rows[j])
  {
    if j == 0 {
      KeyLeReflexive(rows[0], rows[0]);
    } else {
      SortedFirstIsLeast(rows, j - 1);
      KeyLeTransitive(rows[0], rows[j - 1], rows[j]);
    }
  }

  lemma {:induction false} WithKeyMember(rows: seq<BoughtProducts>, k: (string, string), x: BoughtProducts)
    requires x in WithKey(rows, k)
    ensures x in rows && Key(x) == k
  {
    if rows != [] && !(Key(rows[0]) == k && x == rows[0]) {
      WithKeyMember(rows[1..], k, x);
    }
  }

  lemma WithKeyOfHead(rows: seq<BoughtProducts>)
    requires rows != []
    ensures rows[0] in WithKey(rows, Key(rows[0]))
  {
  }

  lemma {:induction false} InsertSorted(x: BoughtProducts, rows: seq<BoughtProducts>)
    requires Sorted(rows)
    ensures Sorted(Insert(x, rows))
  {
    if rows != [] && !KeyLe(x, rows[0]) {
      InsertSorted(x, rows[1..]);
      KeyLeTotal(x, rows[0]);
      var tail := Insert(x, rows[1..]);
      assert KeyLe(rows[0], tail[0]);
      assert Insert(x, rows) == [rows[0]] + tail;
    }
  }

  /** One step of `WithKey`: the first row is kept exactly when it has the key. */
  lemma WithKeyCons(y: BoughtProducts, t: seq<BoughtProducts>, k: (string, string))
    ensures WithKey([y] + t, k) == (if Key(y) == k then [y] else []) + WithKey(t, k)
  {
    assert ([y] + t)[1..] == t;
  }

  /** Inserting `x` puts it ahead of every row with the same key and leaves the others' order alone. */
  lemma {:induction false} InsertWithKey(x: BoughtProducts, rows: seq<BoughtProducts>, k: (string, string))
    ensures WithKey(Insert(x, rows), k) == (if Key(x) == k then [x] else []) + WithKey(rows, k)
  {
    if rows == [] {
      WithKeyCons(x, [], k);
    } else if KeyLe(x, rows[0]) {
      WithKeyCons(x, rows, k);
    } else {
      InsertWithKey(x, rows[1..], k);
      KeyLeReflexive(x, rows[0]);
      PassesHead(x, rows, Insert(x, rows[1..]), k);
    }
  }

  /**
   * The step of `InsertWithKey` where `x` passes the first row: that row's key
   * differs from `x`'s, so at most one of the two is kept.
   */
  lemma PassesHead(x: BoughtProducts, rows: seq<BoughtProducts>, ins: seq<BoughtProducts>, k: (string, string))
    requires rows != [] && Key(x) != Key(rows[0])
    requires WithKey(ins, k) == (if Key(x) == k then [x] else []) + WithKey(rows[1..], k)
    ensures WithKey([rows[0]] + ins, k) == (if Key(x) == k then [x] else []) + WithKey(rows, k)
  {
    WithKeyCons(rows[0], ins, k);
  }

  lemma {:induction false} OrderByIsSorted(rows: seq<BoughtProducts>)
    ensures Sorted(OrderByClientThenList(rows))
  {
    if rows != [] {
      OrderByIsSorted(rows[1..]);
      InsertSorted(rows[0], OrderByClientThenList(rows[1..]));
    }
  }

  /** Stability: for every key, the rows with that key keep their input order. */
  lemma {:induction false} OrderByIsStable(rows: seq<BoughtProducts>, k: (string, string))
    ensures WithKey(OrderByClientThenList(rows), k) == WithKey(rows, k)
  {
    if rows != [] {
      OrderByIsStable(rows[1..], k);
      InsertWithKey(rows[0], OrderByClientThenList(rows[1..]), k);
    }
  }

  /** The first row of a sorted sequence may precede every row that has key `k`. */
  lemma {:induction false} FirstPrecedesKey(rows: seq<BoughtProducts>, k: (string, string))
    requires Sorted(rows) && WithKey(rows, k) != []
    ensures KeyLe(rows[0], WithKey(rows, k)[0]) && Key(WithKey(rows, k)[0]) == k
  {
    var x := WithKey(rows, k)[0];
    WithKeyMember(rows, k, x);
    var j :| 0 <= j < |rows| && rows[j] == x;
    SortedFirstIsLeast(rows, j);
  }

  /** Two sorted sequences that agree on the rows of every key start with the same row. */
  lemma {:induction false} SameFirstRow(a: seq<BoughtProducts>, b: seq<BoughtProducts>)
    requires Sorted(a) && Sorted(b) && a != []
    requires forall k :: WithKey(a, k) == WithKey(b, k)
    ensures b != [] && a[0] == b[0]
  {
    WithKeyOfHead(a);
    assert WithKey(b, Key(a[0])) != [];
    FirstPrecedesKey(b, Key(a[0]));
    assert KeyLe(b[0], a[0]);
    WithKeyOfHead(b);
    assert WithKey(a, Key(b[0])) != [];
    FirstPrecedesKey(a, Key(b[0]));
    assert KeyLe(a[0], b[0]);
    KeyLeAntisymmetric(a[0], b[0]);
    var k0 := Key(a[0]);
    assert WithKey(a, k0)[0] == a[0] && WithKey(b, k0)[0] == b[0];
  }

  /** Removing the same first row from two sequences that agree on every key leaves tails that agree on every key. */
  lemma {:induction false} TailsAgree(a: seq<BoughtProducts>, b: seq<BoughtProducts>)
    requires a != [] && b != [] && a[0] == b[0]
    requires forall k :: WithKey(a, k) == WithKey(b, k)
    ensures forall k :: WithKey(a[1..], k) == WithKey(b[1..], k)
  {
    var k0 := Key(a[0]);
    forall k
      ensures WithKey(a[1..], k) == WithKey(b[1..], k)
    {
      assert WithKey(a, k) == WithKey(b, k);
      if k == k0 {
        assert WithKey(a[1..], k) == WithKey(a, k)[1..];
        assert WithKey(b[1..], k) == WithKey(b, k)[1..];
      } else {
        assert WithKey(a[1..], k) == WithKey(a, k);
        assert WithKey(b[1..], k) == WithKey(b, k);
      }
    }
  }

  /** Two sorted sequences that agree on the rows of every key, in order, are the same sequence. */
  lemma {:induction false} SortedStableUnique(a: seq<BoughtProducts>, b: seq<BoughtProducts>)
    requires Sorted(a) && Sorted(b)
    requires forall k :: WithKey(a, k) == WithKey(b, k)
    ensures a == b
    decreases |a| + |b|
  {
    if b != [] {
      WithKeyOfHead(b);
      assert WithKey(a, Key(b[0])) != [];
    }
    if a != [] {
      SameFirstRow(a, b);
      TailsAgree(a, b);
      SortedStableUnique(a[1..], b[1..]);
      assert a == [a[0]] + a[1..] && b == [b[0]] + b[1..];
    }
  }

  /** The sort puts the rows in key order and keeps, for every key, the rows of that key in input order. */
  lemma {:induction false} OrderByIsStableSort(rows: seq<BoughtProducts>)
    ensures Sorted(OrderByClientThenList(rows))
    ensures forall k :: WithKey(OrderByClientThenList(rows), k) == WithKey(rows, k)
  {
    OrderByIsSorted(rows);
    forall k
      ensures WithKey(OrderByClientThenList(rows), k) == WithKey(rows, k)
    {
      OrderByIsStable(rows, k);
    }
  }

  /**
   * The sort is determined by what it promises: any arrangement that is sorted
   * and keeps, for every key, the rows of that key in input order is the
   * sort's result.
   */
  lemma {:induction false} OrderByIsUnique(rows: seq<BoughtProducts>, t: seq<BoughtProducts>)
    requires Sorted(t)
    requires forall k :: WithKey(t, k) == WithKey(rows, k)
    ensures t == OrderByClientThenList(rows)
  {
    OrderByIsStableSort(rows);
    SortedStableUnique(t, OrderByClientThenList(rows));
  }
}
