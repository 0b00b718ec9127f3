/**
 * The screen state behind "who bought this product": the selected product and
 * the list of purchases shown for it, refreshed from the purchase query
 * whenever the selection changes.
 */
module ViewModels {
  import opened Models
  import opened RowOrder
  import opened BoughtProductsService

  /**
   * The states an observable collection passes through when it is cleared and
   * then filled with `rows` one by one: empty first, one more row at a time,
   * all of `rows` last.
   */
  function ClearThenAdd<T>(rows: seq<T>): (states: seq<seq<T>>)
    ensures |states| == |rows| + 1
    ensures states[0] == [] && states[|rows|] == rows
    ensures forall k :: 0 <= k < |rows| ==> states[k + 1] == states[k] + [rows[k]]
  {
    seq(|rows| + 1, k requires 0 <= k <= |rows| => rows[..k])
  }

  class BoughtProductsViewModel {
    /** The injected purchase service, asked with a product's `Id`. */
    const service: int -> seq<BoughtProducts>

    /** `SelectedProduct`; None is null. */
    var selectedProduct: Option<Product>
    /** The contents of the observable `BoughtProductsList`. */
    var boughtProductsList: seq<BoughtProducts>
    /** The selectable products, `Products`. */
    var products: seq<Product>

    /** The product ids the service has been asked for, in order. */
    ghost var queries: seq<int>
    /** Every state `BoughtProductsList` has been in, in order, as its observers see them. */
    ghost var listStates: seq<seq<BoughtProducts>>

    /** The list shows the answer to the latest query, or nothing before the first one. */
    ghost predicate ShowsLastQuery()
      reads this
    {
      && boughtProductsList == (if queries == [] then [] else service(queries[|queries| - 1]))
      && listStates != [] && listStates[|listStates| - 1] == boughtProductsList
    }

    /** Whenever a product is selected, the latest query was for that product. */
    ghost predicate Valid()
      reads this
    {
      && ShowsLastQuery()
      && (selectedProduct.Some? ==> queries != [] && queries[|queries| - 1] == selectedProduct.value.id)
    }

    /** Stores the service and fills `Products` from the product service's `GetAll()`. */
    constructor (service: int -> seq<BoughtProducts>, allProducts: seq<Product>)
      ensures Valid()
      ensures this.service == service && products == allProducts
      ensures selectedProduct == None && boughtProductsList == []
      ensures queries == [] && listStates == [[]]
    {
      this.service := service;
      products := allProducts;
      selectedProduct := None;
      boughtProductsList := [];
      queries := [];
      listStates := [[]];
    }

    /**
     * The callback run after `SelectedProduct` took the value `newValue`: for a
     * product, clear the list, ask the service once, and add every answer in
     * order; for null, do nothing.
     */
    method OnSelectedProductChanged(oldValue: Option<Product>, newValue: Option<Product>)
      requires ShowsLastQuery() && selectedProduct == newValue
      modifies this
      ensures Valid()
      ensures selectedProduct == old(selectedProduct) && products == old(products)
      ensures newValue.None? ==>
        && boughtProductsList == old(boughtProductsList)
        && queries == old(queries) && listStates == old(listStates)
      ensures newValue.Some? ==>
        && boughtProductsList == service(newValue.value.id)
        && queries == old(queries) + [newValue.value.id]
        && listStates == old(listStates) + ClearThenAdd(service(newValue.value.id))
    {
      if newValue.Some? {
        boughtProductsList := [];
        listStates := listStates + [boughtProductsList];

        var boughtProducts := service(newValue.value.id);
        queries := queries + [newValue.value.id];

        for i := 0 to |boughtProducts|
          invariant boughtProductsList == boughtProducts[..i]
          invariant listStates == old(listStates) + ClearThenAdd(boughtProducts)[..i + 1]
          invariant queries == old(queries) + [newValue.value.id]
          invariant selectedProduct == old(selectedProduct) && products == old(products)
        {
          boughtProductsList := boughtProductsList + [boughtProducts[i]];
          listStates := listStates + [boughtProductsList];
          assert ClearThenAdd(boughtProducts)[..i + 2] == ClearThenAdd(boughtProducts)[..i + 1] + [boughtProducts[..i + 1]];
        }
        assert boughtProducts[..|boughtProducts|] == boughtProducts;
        assert ClearThenAdd(boughtProducts)[..|boughtProducts| + 1] == ClearThenAdd(boughtProducts);
      }
    }

    /**
     * `NewSelectedProduct(product)`, that is `SelectedProduct = product`: the
     * property setter stores the value and runs the callback only when the
     * value differs from the current one.
     */
    method NewSelectedProduct(product: Option<Product>)
      requires Valid()
      modifies this
      ensures Valid()
      ensures selectedProduct == product && products == old(products)
      ensures product == old(selectedProduct) ==>
        && boughtProductsList == old(boughtProductsList)
        && queries == old(queries) && listStates == old(listStates)
      ensures product != old(selectedProduct) && product.Some? ==>
        && boughtProductsList == service(product.value.id)
        && queries == old(queries) + [product.value.id]
        && listStates == old(listStates) + ClearThenAdd(service(product.value.id))
      ensures product.None? ==>
        && boughtProductsList == old(boughtProductsList)
        && queries == old(queries) && listStates == old(listStates)
    {
      if product != selectedProduct {
        var oldValue := selectedProduct;
        selectedProduct := product;
        OnSelectedProductChanged(oldValue, product);
      }
    }
  }

  /**
   * With the purchase query as its service, a view model that has a product
   * selected shows exactly that product's purchases, in the query's order.
   */
  lemma SelectionShowsPurchases(vm: BoughtProductsViewModel, repos: Repositories)
    requires vm.Valid() && vm.selectedProduct.Some?
    requires forall id :: vm.service(id) == PurchasesOf(repos, Some(id))
    ensures vm.boughtProductsList == PurchasesOf(repos, Some(vm.selectedProduct.value.id))
    ensures Sorted(vm.boughtProductsList)
    ensures forall row :: row in vm.boughtProductsList ==>
      exists item :: item in repos.groceryListItems && item.productId == vm.selectedProduct.value.id && Resolve(repos, item) == Some(row)
  {
    var id := vm.selectedProduct.value.id;
    PurchasesAreSorted(repos, Some(id));
    forall row | row in vm.boughtProductsList
      ensures exists item :: item in repos.groceryListItems && item.productId == id && Resolve(repos, item) == Some(row)
    {
      PurchasesComeFromMatchingItems(repos, Some(id), row);
    }
  }

  /**
   * Choosing the same product twice: the second choice does not change the
   * selection, so the service is not asked again and the list stays as the
   * first choice left it.
   */
  method ReselectSameProduct(service: int -> seq<BoughtProducts>, allProducts: seq<Product>, product: Product)
    returns (afterFirst: seq<BoughtProducts>, afterSecond: seq<BoughtProducts>, ghost queryCount: nat)
    ensures afterFirst == afterSecond == service(product.id)
    ensures queryCount == 1
  {
    var vm := new BoughtProductsViewModel(service, allProducts);
    vm.NewSelectedProduct(Some(product));
    afterFirst := vm.boughtProductsList;
    vm.NewSelectedProduct(Some(product));
    afterSecond := vm.boughtProductsList;
    queryCount := |vm.queries|;
  }
}
