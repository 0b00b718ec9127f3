/**
 * The purchase query: for one product, every (client, grocery list, product)
 * row coming from a grocery-list item of that product, sorted by client name
 * and then by list name.
 */
module BoughtProductsService {
  import opened Models
  import opened RowOrder

  /**
   * The contents of the four repositories the service reads: every grocery-list
   * item (`GetAll`), and the lists, clients and products by id (`Get`); an id
   * that is not a key is a `Get` that answers null.
   */
  datatype Repositories = Repositories(
    groceryListItems: seq<GroceryListItem>,
    groceryLists: map<int, GroceryList>,
    clients: map<int, Client>,
    products: map<int, Product>)

  /** A repository `Get(id)`: the record stored under `id`, or null. */
  function Lookup<V>(m: map<int, V>, id: int): (r: Option<V>)
    ensures r.None? <==> id !in m
    ensures r.Some? ==> r.value == m[id]
  {
    if id in m then Some(m[id]) else None
  }

  /** Every record of each map is stored under its own id. */
  predicate WellKeyed(repos: Repositories)
  {
    && (forall id :: id in repos.groceryLists ==> repos.groceryLists[id].id == id)
    && (forall id :: id in repos.clients ==> repos.clients[id].id == id)
    && (forall id :: id in repos.products ==> repos.products[id].id == id)
  }

  /**
   * `GetAll().Where(i => i.ProductId == productId)`: the items of one product,
   * in repository order. Every kept item is of the product; that no item of the
   * product is dropped is `ItemsForProductMembers`. The size bound serves the
   * proofs about the answer's length.
   */
  function ItemsForProduct(items: seq<GroceryListItem>, productId: int): (r: seq<GroceryListItem>)
    ensures |r| <= |items|
    ensures forall i :: 0 <= i < |r| ==> r[i].productId == productId
  {
    if items == [] then []
    else (if items[0].productId == productId then [items[0]] else []) + ItemsForProduct(items[1..], productId)
  }

  /**
   * One pass of the join loop: the item's list, that list's client and the
   * item's product, or None as soon as one of the three lookups answers null.
   */
  function Resolve(repos: Repositories, item: GroceryListItem): (r: Option<BoughtProducts>)
    ensures r.Some? <==>
      && item.groceryListId in repos.groceryLists
      && repos.groceryLists[item.groceryListId].clientId in repos.clients
      && item.productId in repos.products
    ensures r.Some? ==>
      var list := repos.groceryLists[item.groceryListId];
      r.value == BoughtProducts(repos.clients[list.clientId], list, repos.products[item.productId])
  {
    match Lookup(repos.groceryLists, item.groceryListId)
    case None => None
    case Some(list) =>
      match Lookup(repos.clients, list.clientId)
      case None => None
      case Some(client) =>
        match Lookup(repos.products, item.productId)
        case None => None
        case Some(product) => Some(BoughtProducts(client, list, product))
  }

  /**
   * The rows of the resolvable items, in item order: what the join loop
   * accumulates. Each row's client is the one its list points to.
   */
  function Joined(repos: Repositories, items: seq<GroceryListItem>): (rows: seq<BoughtProducts>)
    ensures forall row :: row in rows ==>
      row.groceryList.clientId in repos.clients && row.client == repos.clients[row.groceryList.clientId]
  {
    if items == [] then []
    else
      var last := Resolve(repos, items[|items| - 1]);
      Joined(repos, items[..|items| - 1]) + (if last.Some? then [last.value] else [])
  }

  /** The unsorted rows for one product: what `results` holds when the join loop ends. Every row carries that product. */
  function JoinedFor(repos: Repositories, productId: int): (rows: seq<BoughtProducts>)
    ensures forall row :: row in rows ==> productId in repos.products && row.product == repos.products[productId]
  {
    var matching := ItemsForProduct(repos.groceryListItems, productId);
    JoinedRowsHaveProduct(repos, matching, productId);
    Joined(repos, matching)
  }

  /**
   * The answer of `Get(productId)` on the given repository contents: nothing
   * for a null or non-positive id, otherwise rows that all carry the
   * requested product and each the client its list points to.
   */
  function PurchasesOf(repos: Repositories, productId: Option<int>): (rows: seq<BoughtProducts>)
    ensures productId.None? || productId.value <= 0 ==> rows == []
    ensures forall row :: row in rows ==>
      && productId.Some? && productId.value in repos.products && row.product == repos.products[productId.value]
      && row.groceryList.clientId in repos.clients && row.client == repos.clients[row.groceryList.clientId]
  {
    if productId.None? || productId.value <= 0 then []
    else
      var joined := JoinedFor(repos, productId.value);
      var sorted := OrderByClientThenList(joined);
      assert forall row :: row in sorted ==> row in multiset(joined);
      sorted
  }

  /**
   * `Get(productId)`: the guard, the filter, the join loop that skips an item
   * whose list, client or product is missing, and the two-key sort.
   */
  method Get(repos: Repositories, productId: Option<int>) returns (results: seq<BoughtProducts>)
    ensures results == PurchasesOf(repos, productId)
    ensures productId.None? || productId.value <= 0 ==> results == []
    ensures Sorted(results)
  {
    if productId.None? || productId.value <= 0 {
      return [];
    }
    var itemsForProduct := ItemsForProduct(repos.groceryListItems, productId.value);
    results := [];
    for i := 0 to |itemsForProduct|
      invariant results == Joined(repos, itemsForProduct[..i])
    {
      var item := itemsForProduct[i];
      assert itemsForProduct[..i + 1][..i] == itemsForProduct[..i];
      var list := Lookup(repos.groceryLists, item.groceryListId);
      if list.None? {
        continue;
      }
      var client := Lookup(repos.clients, list.value.clientId);
      if client.None? {
        continue;
      }
      var product := Lookup(repos.products, item.productId);
      if product.None? {
        continue;
      }
      results := results + [BoughtProducts(client.value, list.value, product.value)];
    }
    assert itemsForProduct[..|itemsForProduct|] == itemsForProduct;
    OrderByIsSorted(results);
    results := OrderByClientThenList(results);
  }

  // ---------------------------------------------------------------------------
  // The join

  /** Joining a concatenation joins each part. */
  lemma {:induction false} JoinedAppend(repos: Repositories, a: seq<GroceryListItem>, b: seq<GroceryListItem>)
    ensures Joined(repos, a + b) == Joined(repos, a) + Joined(repos, b)
    decreases |b|
  {
    if b == [] {
      assert a + b == a;
    } else {
      var b' := b[..|b| - 1];
      assert (a + b)[..|a + b| - 1] == a + b';
      JoinedAppend(repos, a, b');
    }
  }

  lemma {:induction false} JoinedSingle(repos: Repositories, x: GroceryListItem)
    ensures Joined(repos, [x]) == if Resolve(repos, x).Some? then [Resolve(repos, x).value] else []
  {
    assert [x][..0] == [];
  }

  /** The join reads the list, client and product repositories only. */
  lemma {:induction false} JoinedIgnoresItems(r1: Repositories, r2: Repositories, items: seq<GroceryListItem>)
    requires r1.groceryLists == r2.groceryLists && r1.clients == r2.clients && r1.products == r2.products
    ensures Joined(r1, items) == Joined(r2, items)
  {
    if items != [] {
      JoinedIgnoresItems(r1, r2, items[..|items| - 1]);
    }
  }

  /** When every item is of product `p`, every joined row carries the product stored under `p`. */
  lemma {:induction false} JoinedRowsHaveProduct(repos: Repositories, items: seq<GroceryListItem>, p: int)
    requires forall i :: 0 <= i < |items| ==> items[i].productId == p
    ensures forall row :: row in Joined(repos, items) ==> p in repos.products && row.product == repos.products[p]
  {
    if items != [] {
      JoinedRowsHaveProduct(repos, items[..|items| - 1], p);
    }
  }

  /** Every joined row is the resolution of one of the items. */
  lemma {:induction false} JoinedRowsResolveItems(repos: Repositories, items: seq<GroceryListItem>, row: BoughtProducts)
    requires row in Joined(repos, items)
    ensures exists item :: item in items && Resolve(repos, item) == Some(row)
  {
    var n := |items|;
    if row !in Joined(repos, items[..n - 1]) {
      assert Resolve(repos, items[n - 1]) == Some(row);
    } else {
      JoinedRowsResolveItems(repos, items[..n - 1], row);
      var item :| item in items[..n - 1] && Resolve(repos, item) == Some(row);
      assert item in items;
    }
  }

  /** At most one row per item, and exactly one when every item resolves. */
  lemma {:induction false} JoinedLength(repos: Repositories, items: seq<GroceryListItem>)
    ensures |Joined(repos, items)| <= |items|
    ensures (forall item :: item in items ==> Resolve(repos, item).Some?) ==> |Joined(repos, items)| == |items|
  {
    if items != [] {
      var n := |items|;
      JoinedLength(repos, items[..n - 1]);
      assert forall item :: item in items[..n - 1] ==> item in items;
    }
  }

  // ---------------------------------------------------------------------------
  // The filter

  /** The filter keeps exactly the items of the requested product. */
  lemma {:induction false} ItemsForProductMembers(items: seq<GroceryListItem>, productId: int, item: GroceryListItem)
    ensures item in ItemsForProduct(items, productId) <==> item in items && item.productId == productId
  {
    if items != [] {
      ItemsForProductMembers(items[1..], productId, item);
      assert items == [items[0]] + items[1..];
    }
  }

  lemma {:induction false} ItemsForProductAppend(a: seq<GroceryListItem>, b: seq<GroceryListItem>, productId: int)
    ensures ItemsForProduct(a + b, productId) == ItemsForProduct(a, productId) + ItemsForProduct(b, productId)
  {
    if a == [] {
      assert a + b == b;
    } else {
      var head: seq<GroceryListItem> := if a[0].productId == productId then [a[0]] else [];
      assert (a + b)[0] == a[0] && (a + b)[1..] == a[1..] + b;
      assert ItemsForProduct(a + b, productId) == head + ItemsForProduct(a[1..] + b, productId);
      ItemsForProductAppend(a[1..], b, productId);
      assert ItemsForProduct(a, productId) == head + ItemsForProduct(a[1..], productId);
    }
  }

  // ---------------------------------------------------------------------------
  // What the query promises

  /** The answer is in order: client name first, list name where client names are equal. */
  lemma {:induction false} PurchasesAreSorted(repos: Repositories, productId: Option<int>)
    ensures Sorted(PurchasesOf(repos, productId))
  {
    if productId.Some? && productId.value > 0 {
      OrderByIsSorted(Joined(repos, ItemsForProduct(repos.groceryListItems, productId.value)));
    }
  }

  /**
   * The answer is the stable sort of the joined rows: nothing added, nothing
   * lost, and rows with equal client and list names in item order.
   */
  lemma {:induction false} PurchasesAreStableSortOfJoin(repos: Repositories, productId: int)
    requires productId > 0
    ensures multiset(PurchasesOf(repos, Some(productId))) == multiset(JoinedFor(repos, productId))
    ensures Sorted(PurchasesOf(repos, Some(productId)))
    ensures forall k :: WithKey(PurchasesOf(repos, Some(productId)), k) == WithKey(JoinedFor(repos, productId), k)
  {
    OrderByIsStableSort(JoinedFor(repos, productId));
  }

  /** No other arrangement of the joined rows is sorted and stable: the answer is determined. */
  lemma {:induction false} PurchasesAreDetermined(repos: Repositories, productId: int, t: seq<BoughtProducts>)
    requires productId > 0
    requires Sorted(t) && forall k :: WithKey(t, k) == WithKey(JoinedFor(repos, productId), k)
    ensures t == PurchasesOf(repos, Some(productId))
  {
    OrderByIsUnique(JoinedFor(repos, productId), t);
  }

  /**
   * Every row comes from a grocery-list item of the requested product whose
   * list, client and product all resolve, and whose row it is.
   */
  lemma {:induction false} PurchasesComeFromMatchingItems(repos: Repositories, productId: Option<int>, row: BoughtProducts)
    requires row in PurchasesOf(repos, productId)
    ensures productId.Some? && productId.value > 0
    ensures exists item :: item in repos.groceryListItems && item.productId == productId.value && Resolve(repos, item) == Some(row)
  {
    var matching := ItemsForProduct(repos.groceryListItems, productId.value);
    var joined := Joined(repos, matching);
    assert multiset(PurchasesOf(repos, productId)) == multiset(joined);
    assert row in multiset(joined);
    JoinedRowsResolveItems(repos, matching, row);
    var item :| item in matching && Resolve(repos, item) == Some(row);
    ItemsForProductMembers(repos.groceryListItems, productId.value, item);
  }

  /**
   * With every record stored under its own id, each row names the requested
   * product, and its client is the owner of its list.
   */
  lemma {:induction false} PurchasesAreForRequestedProduct(repos: Repositories, productId: Option<int>, row: BoughtProducts)
    requires WellKeyed(repos)
    requires row in PurchasesOf(repos, productId)
    ensures productId.Some? && row.product.id == productId.value
    ensures row.client.id == row.groceryList.clientId
    ensures row.groceryList in repos.groceryLists.Values && row.client in repos.clients.Values
  {
    PurchasesComeFromMatchingItems(repos, productId, row);
  }

  /** No more rows than items of the product; exactly as many when every lookup resolves. */
  lemma {:induction false} PurchasesCount(repos: Repositories, productId: int)
    requires productId > 0
    ensures |PurchasesOf(repos, Some(productId))| <= |ItemsForProduct(repos.groceryListItems, productId)|
    ensures (forall item :: item in repos.groceryListItems && item.productId == productId ==> Resolve(repos, item).Some?)
        ==> |PurchasesOf(repos, Some(productId))| == |ItemsForProduct(repos.groceryListItems, productId)|
  {
    var matching := ItemsForProduct(repos.groceryListItems, productId);
    JoinedLength(repos, matching);
    assert |multiset(PurchasesOf(repos, Some(productId)))| == |multiset(Joined(repos, matching))|;
    if forall item :: item in repos.groceryListItems && item.productId == productId ==> Resolve(repos, item).Some? {
      forall item | item in matching
        ensures Resolve(repos, item).Some?
      {
        ItemsForProductMembers(repos.groceryListItems, productId, item);
      }
    }
  }

  /**
   * An item of another product, or an item whose list, client or product is
   * missing, contributes nothing: the answer is the same without it.
   */
  lemma {:induction false} IgnoredItemContributesNothing(
    repos: Repositories, productId: Option<int>,
    before: seq<GroceryListItem>, item: GroceryListItem, after: seq<GroceryListItem>)
    requires productId.Some? ==> item.productId != productId.value || Resolve(repos, item).None?
    ensures PurchasesOf(repos.(groceryListItems := before + [item] + after), productId)
         == PurchasesOf(repos.(groceryListItems := before + after), productId)
  {
    if productId.Some? && productId.value > 0 {
      var p := productId.value;
      var withItem := repos.(groceryListItems := before + [item] + after);
      var without := repos.(groceryListItems := before + after);
      JoinedIgnoresItems(withItem, repos, ItemsForProduct(before + [item] + after, p));
      JoinedIgnoresItems(without, repos, ItemsForProduct(before + after, p));
      JoinedSkipsItem(repos, p, before, item, after);
    }
  }

  /** The join of the items of product `p` is the same with or without an item that yields no row. */
  lemma {:induction false} JoinedSkipsItem(
    repos: Repositories, p: int,
    before: seq<GroceryListItem>, item: GroceryListItem, after: seq<GroceryListItem>)
    requires item.productId != p || Resolve(repos, item).None?
    ensures Joined(repos, ItemsForProduct(before + [item] + after, p)) == Joined(repos, ItemsForProduct(before + after, p))
  {
    var pre, post := ItemsForProduct(before, p), ItemsForProduct(after, p);
    ItemsForProductAppend(before + [item], after, p);
    ItemsForProductAppend(before, [item], p);
    ItemsForProductAppend(before, after, p);
    ItemsForProductSingle(item, p);
    if item.productId != p {
      assert ItemsForProduct(before + [item] + after, p) == pre + post;
    } else {
      assert ItemsForProduct(before + [item] + after, p) == pre + [item] + post;
      JoinedSkipsUnresolved(repos, pre, item, post);
    }
  }

  /** An item whose list, client or product is missing adds nothing to the accumulated rows. */
  lemma {:induction false} JoinedSkipsUnresolved(
    repos: Repositories, pre: seq<GroceryListItem>, item: GroceryListItem, post: seq<GroceryListItem>)
    requires Resolve(repos, item).None?
    ensures Joined(repos, pre + [item] + post) == Joined(repos, pre + post)
  {
    JoinedAppend(repos, pre + [item], post);
    JoinedAppend(repos, pre, [item]);
    JoinedAppend(repos, pre, post);
    JoinedSingle(repos, item);
    assert Joined(repos, pre) + [] == Joined(repos, pre);
  }

  lemma {:induction false} ItemsForProductSingle(item: GroceryListItem, p: int)
    ensures ItemsForProduct([item], p) == if item.productId == p then [item] else []
  {
    assert [item][1..] == [];
  }

  /**
   * An item of the product whose lookups all resolve contributes exactly its
   * own row: one more row than without it.
   */
  lemma {:induction false} ResolvedItemAddsItsRow(
    repos: Repositories, productId: int,
    before: seq<GroceryListItem>, item: GroceryListItem, after: seq<GroceryListItem>)
    requires productId > 0 && item.productId == productId && Resolve(repos, item).Some?
    ensures multiset(PurchasesOf(repos.(groceryListItems := before + [item] + after), Some(productId)))
         == multiset(PurchasesOf(repos.(groceryListItems := before + after), Some(productId))) + multiset{Resolve(repos, item).value}
    ensures |PurchasesOf(repos.(groceryListItems := before + [item] + after), Some(productId))|
         == |PurchasesOf(repos.(groceryListItems := before + after), Some(productId))| + 1
  {
    var p := productId;
    var row := Resolve(repos, item).value;
    var pre, post := Joined(repos, ItemsForProduct(before, p)), Joined(repos, ItemsForProduct(after, p));
    JoinedAddsItem(repos, p, before, item, after);
    var withItem := PurchasesOf(repos.(groceryListItems := before + [item] + after), Some(p));
    var without := PurchasesOf(repos.(groceryListItems := before + after), Some(p));
    PurchasesOfItems(repos, before + [item] + after, p);
    PurchasesOfItems(repos, before + after, p);
    assert multiset(withItem) == multiset(pre + [row] + post);
    assert multiset(without) == multiset(pre + post);
    assert multiset(pre + [row] + post) == multiset(pre + post) + multiset{row};
    assert |multiset(withItem)| == |multiset(without)| + 1;
  }

  /** The answer on other items, with the same list, client and product repositories, as a permutation of their join. */
  lemma {:induction false} PurchasesOfItems(repos: Repositories, items: seq<GroceryListItem>, p: int)
    requires p > 0
    ensures multiset(PurchasesOf(repos.(groceryListItems := items), Some(p))) == multiset(Joined(repos, ItemsForProduct(items, p)))
  {
    var other := repos.(groceryListItems := items);
    JoinedIgnoresItems(other, repos, ItemsForProduct(items, p));
    assert PurchasesOf(other, Some(p)) == OrderByClientThenList(Joined(other, ItemsForProduct(items, p)));
  }

  /** The join of the items of product `p` gains exactly the row of a resolvable item of `p`. */
  lemma {:induction false} JoinedAddsItem(
    repos: Repositories, p: int,
    before: seq<GroceryListItem>, item: GroceryListItem, after: seq<GroceryListItem>)
    requires item.productId == p && Resolve(repos, item).Some?
    ensures var pre, post := Joined(repos, ItemsForProduct(before, p)), Joined(repos, ItemsForProduct(after, p));
      && Joined(repos, ItemsForProduct(before + [item] + after, p)) == pre + [Resolve(repos, item).value] + post
      && Joined(repos, ItemsForProduct(before + after, p)) == pre + post
  {
    var pre, post := ItemsForProduct(before, p), ItemsForProduct(after, p);
    ItemsForProductAppend(before + [item], after, p);
    ItemsForProductAppend(before, [item], p);
    ItemsForProductAppend(before, after, p);
    ItemsForProductSingle(item, p);
    JoinedAppend(repos, pre + [item], post);
    JoinedAppend(repos, pre, [item]);
    JoinedAppend(repos, pre, post);
    JoinedSingle(repos, item);
  }

  /** Items whose fields agree except for `Amount`. */
  predicate SameExceptAmount(a: seq<GroceryListItem>, b: seq<GroceryListItem>)
  {
    |a| == |b| && forall i :: 0 <= i < |a| ==> a[i].(amount := 0) == b[i].(amount := 0)
  }

  /** `Amount` is never read by the query: changing amounts changes no answer. */
  lemma {:induction false} AmountDoesNotMatter(repos: Repositories, items: seq<GroceryListItem>, productId: Option<int>)
    requires SameExceptAmount(repos.groceryListItems, items)
    ensures PurchasesOf(repos, productId) == PurchasesOf(repos.(groceryListItems := items), productId)
  {
    if productId.Some? && productId.value > 0 {
      var p := productId.value;
      var a := ItemsForProduct(repos.groceryListItems, p);
      var b := ItemsForProduct(items, p);
      FilterSameExceptAmount(repos.groceryListItems, items, p);
      JoinedSameExceptAmount(repos, a, b);
      JoinedIgnoresItems(repos.(groceryListItems := items), repos, b);
    }
  }

  lemma {:induction false} FilterSameExceptAmount(a: seq<GroceryListItem>, b: seq<GroceryListItem>, productId: int)
    requires SameExceptAmount(a, b)
    ensures SameExceptAmount(ItemsForProduct(a, productId), ItemsForProduct(b, productId))
  {
    if a != [] {
      assert a[0].(amount := 0) == b[0].(amount := 0);
      assert a[0].productId == b[0].productId;
      FilterSameExceptAmount(a[1..], b[1..], productId);
      var ha: seq<GroceryListItem> := if a[0].productId == productId then [a[0]] else [];
      var hb: seq<GroceryListItem> := if b[0].productId == productId then [b[0]] else [];
      var ta, tb := ItemsForProduct(a[1..], productId), ItemsForProduct(b[1..], productId);
      forall i | 0 <= i < |ha + ta|
        ensures (ha + ta)[i].(amount := 0) == (hb + tb)[i].(amount := 0)
      {
        if i >= |ha| {
          assert (ha + ta)[i] == ta[i - |ha|] && (hb + tb)[i] == tb[i - |hb|];
        }
      }
    }
  }

  lemma {:induction false} JoinedSameExceptAmount(repos: Repositories, a: seq<GroceryListItem>, b: seq<GroceryListItem>)
    requires SameExceptAmount(a, b)
    ensures Joined(repos, a) == Joined(repos, b)
  {
    if a != [] {
      var n := |a|;
      assert a[n - 1].(amount := 0) == b[n - 1].(amount := 0);
      assert a[n - 1].groceryListId == b[n - 1].groceryListId && a[n - 1].productId == b[n - 1].productId;
      JoinedSameExceptAmount(repos, a[..n - 1], b[..n - 1]);
    }
  }

  // ---------------------------------------------------------------------------
  // Two scenarios

  /** Anna's and Bob's lists both hold product 5; the answer lists Anna first though Bob's item comes first. */
  lemma {:induction false} ScenarioTwoClients()
    ensures var milk := Product(5, "Milk");
      var anna, bob := Client(1, "Anna"), Client(2, "Bob");
      var weekly, monthly := GroceryList(10, 1, "Weekly"), GroceryList(20, 2, "Monthly");
      var repos := Repositories(
        [GroceryListItem(1, 20, 5, 3), GroceryListItem(2, 10, 5, 1), GroceryListItem(3, 10, 7, 2)],
        map[10 := weekly, 20 := monthly], map[1 := anna, 2 := bob], map[5 := milk]);
      PurchasesOf(repos, Some(5)) == [BoughtProducts(anna, weekly, milk), BoughtProducts(bob, monthly, milk)]
  {
    var milk := Product(5, "Milk");
    var anna, bob := Client(1, "Anna"), Client(2, "Bob");
    var weekly, monthly := GroceryList(10, 1, "Weekly"), GroceryList(20, 2, "Monthly");
    var i1, i2, i3 := GroceryListItem(1, 20, 5, 3), GroceryListItem(2, 10, 5, 1), GroceryListItem(3, 10, 7, 2);
    var repos := Repositories([i1, i2, i3], map[10 := weekly, 20 := monthly], map[1 := anna, 2 := bob], map[5 := milk]);
    var rowAnna, rowBob := BoughtProducts(anna, weekly, milk), BoughtProducts(bob, monthly, milk);
    ScenarioTwoClientsJoin(repos, i1, i2, i3, rowBob, rowAnna);
    ScenarioTwoClientsSort(rowAnna, rowBob);
  }

  lemma {:induction false} ScenarioTwoClientsJoin(
    repos: Repositories, i1: GroceryListItem, i2: GroceryListItem, i3: GroceryListItem,
    rowBob: BoughtProducts, rowAnna: BoughtProducts)
    requires repos.groceryListItems == [i1, i2, i3]
    requires i1.productId == 5 && i2.productId == 5 && i3.productId == 7
    requires Resolve(repos, i1) == Some(rowBob) && Resolve(repos, i2) == Some(rowAnna)
    ensures JoinedFor(repos, 5) == [rowBob, rowAnna]
  {
    assert [i1, i2, i3][1..] == [i2, i3] && [i2, i3][1..] == [i3] && [i3][1..] == [];
    assert ItemsForProduct([i3], 5) == [];
    assert ItemsForProduct([i2, i3], 5) == [i2];
    assert ItemsForProduct([i1, i2, i3], 5) == [i1, i2];
    assert [i1, i2][..1] == [i1] && [i1][..0] == [];
    assert Joined(repos, [i1]) == [rowBob];
  }

  lemma {:induction false} ScenarioTwoClientsSort(rowAnna: BoughtProducts, rowBob: BoughtProducts)
    requires rowAnna.client.name == "Anna" && rowBob.client.name == "Bob"
    ensures OrderByClientThenList([rowBob, rowAnna]) == [rowAnna, rowBob]
  {
    assert "Anna"[0] == 'A' && "Bob"[0] == 'B';
    assert KeyLe(rowAnna, rowBob) && !KeyLe(rowBob, rowAnna);
    assert [rowBob, rowAnna][1..] == [rowAnna] && [rowAnna][1..] == [];
    assert OrderByClientThenList([rowAnna]) == [rowAnna];
  }

  /** An item pointing at a list that does not exist yields no row. */
  lemma {:induction false} ScenarioMissingList()
    ensures var repos := Repositories([GroceryListItem(1, 99, 5, 1)], map[], map[1 := Client(1, "Anna")], map[5 := Product(5, "Milk")]);
      PurchasesOf(repos, Some(5)) == []
  {
    var item := GroceryListItem(1, 99, 5, 1);
    assert [item][1..] == [] && [item][..0] == [];
  }
}
