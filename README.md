# Who bought this product — a Dafny model

This project models the purchase overview of a grocery application in Dafny.
The user picks a product, and the screen lists every purchase of that product:
which client bought it, and on which grocery list. Two parts of the C# code are modelled.

- **`BoughtProductsService.Get(productId)`** answers the query. It rejects a null or
  non-positive id. It keeps the grocery-list items of the product. For each item it looks
  up the list, the list's client and the product, and skips the item when any lookup
  answers null. It builds one `BoughtProducts(client, list, product)` row per remaining
  item. It sorts the rows by client name and then by list name.
- **`BoughtProductsViewModel`** holds the selected product and the shown list. When a
  product is selected, it clears the list, asks the service once with the product's
  `Id`, and adds every answer in order.

Files:

- `models.dfy` holds the records (`Product`, `Client`, `GroceryList`, `GroceryListItem`,
  `BoughtProducts`) and `Option`, which stands for a lookup that may answer null.
- `string_order.dfy` holds the order on names. It compares by Unicode code point,
  character by character, and it is proved a total order.
- `row_order.dfy` holds `OrderBy(client name).ThenBy(list name)` as a stable sort on
  the two-part key. The proofs show the result is sorted, a permutation, stable, and
  unique: any sorted arrangement that keeps equal-key rows in input order is this
  sort's result. So the model agrees with LINQ's own stable algorithm, although it
  uses insertion sort.
- `bought_products_service.dfy` holds the four repositories as one value (`Repositories`),
  the join, the specification `PurchasesOf`, the method `Get` with its `foreach` loop,
  and the lemmas about the answer.
- `bought_products_view_model.dfy` holds the view model as a class. Its fields are
  `selectedProduct`, `boughtProductsList` and `products`, plus two ghost fields:
  `queries` logs the service calls, and `listStates` records each state the observable
  list passes through.

The repositories are inputs. `GetAll()` of the grocery-list items is a `seq`. The three
`Get(id)` lookups are maps, where a missing key is a null answer. The view model gets
its service as a function value, `int -> seq<BoughtProducts>`. The lemma
`SelectionShowsPurchases` connects that value to `PurchasesOf`.

## Model

| member | source | states |
|---|---|---|
| `BoughtProductsService.Get` | Grocery.Core/Services/BoughtProductsService.cs:43-93 | Returns exactly `PurchasesOf(repos, productId)`, which depends on the repository contents and nothing else. A null or non-positive id gives the empty list. The result is sorted by client name, then list name. |
| `BoughtProductsService.PurchasesOf` | Grocery.Core/Services/BoughtProductsService.cs:43-93 | The answer as a function of the repository contents. A null or non-positive id gives nothing. Every row carries the product stored under the requested id, and its client is the one its list points to. Its order and completeness are the lemma rows below. |
| `BoughtProductsService.Lookup` | Grocery.Core/Services/BoughtProductsService.cs:68-76 | A repository `Get(id)` answers null exactly when nothing is stored under `id`, and otherwise the record stored there. |
| `BoughtProductsService.ItemsForProduct` | Grocery.Core/Services/BoughtProductsService.cs:55-58 | The `Where` filter: every kept item has the requested `ProductId`, and no more items come out than go in. |
| `BoughtProductsService.Joined` | Grocery.Core/Services/BoughtProductsService.cs:65-83 | The rows the loop accumulates, in item order. Each row's client is the client that its list's `ClientId` names. |
| `BoughtProductsService.JoinedFor` | Grocery.Core/Services/BoughtProductsService.cs:55-83 | The rows accumulated for one product, before sorting. Every row carries the product stored under that id. |
| `BoughtProductsService.JoinedRowsHaveProduct` | Grocery.Core/Services/BoughtProductsService.cs:65-83 | When all items are of one product, every accumulated row carries that product's record. |
| `BoughtProductsService.Resolve` | Grocery.Core/Services/BoughtProductsService.cs:68-77 | An item gives a row exactly when its list exists, the list's client exists and its product exists. The row is that client, that list and that product. |
| `BoughtProductsService.ItemsForProductMembers` | Grocery.Core/Services/BoughtProductsService.cs:55-58 | The filter keeps an item exactly when it is in the repository and its `ProductId` is the requested id. |
| `BoughtProductsService.ItemsForProductAppend` | Grocery.Core/Services/BoughtProductsService.cs:55-58 | Filtering a concatenation is the concatenation of the filtered parts. Repository order is kept. |
| `BoughtProductsService.JoinedAppend` | Grocery.Core/Services/BoughtProductsService.cs:65-83 | The loop's rows for two item runs in sequence are the rows of the first run followed by those of the second. |
| `BoughtProductsService.JoinedRowsResolveItems` | Grocery.Core/Services/BoughtProductsService.cs:65-83 | Every row the loop accumulates is the resolution of one of its items. |
| `BoughtProductsService.JoinedLength` | Grocery.Core/Services/BoughtProductsService.cs:65-83 | The loop makes at most one row per item, and exactly one per item when every item resolves. |
| `BoughtProductsService.JoinedSkipsItem` | Grocery.Core/Services/BoughtProductsService.cs:65-77 | An item of another product, or one with a missing list, client or product, leaves the accumulated rows as they would be without it. |
| `BoughtProductsService.JoinedAddsItem` | Grocery.Core/Services/BoughtProductsService.cs:65-83 | A resolvable item of the product adds exactly its own row, at its own place among the other items' rows. |
| `BoughtProductsService.JoinedSameExceptAmount` | Grocery.Core/Services/BoughtProductsService.cs:65-83 | The loop's rows do not depend on the items' amounts. |
| `BoughtProductsService.PurchasesAreSorted` | Grocery.Core/Services/BoughtProductsService.cs:86-89 | In the answer, adjacent rows have non-decreasing client names. Where client names are equal, list names are non-decreasing. |
| `BoughtProductsService.PurchasesAreStableSortOfJoin` | Grocery.Core/Services/BoughtProductsService.cs:86-89 | The answer is a permutation of the accumulated rows. It is sorted. For every (client name, list name) key, its rows keep their item order. |
| `BoughtProductsService.PurchasesAreDetermined` | Grocery.Core/Services/BoughtProductsService.cs:86-89 | Any sequence that is sorted and keeps every key's rows in item order is the answer. |
| `BoughtProductsService.PurchasesComeFromMatchingItems` | Grocery.Core/Services/BoughtProductsService.cs:46-83 | A row in the answer means the id was valid. Some repository item whose `ProductId` is that id resolves to exactly that row. |
| `BoughtProductsService.PurchasesAreForRequestedProduct` | Grocery.Core/Services/BoughtProductsService.cs:55-82 | When every record is stored under its own id, each row's product has the requested id. Each row's client owns the row's list. Both records come from the repositories. |
| `BoughtProductsService.PurchasesCount` | Grocery.Core/Services/BoughtProductsService.cs:55-83 | The answer has at most as many rows as there are items of the product. It has exactly that many when all their lookups resolve. |
| `BoughtProductsService.IgnoredItemContributesNothing` | Grocery.Core/Services/BoughtProductsService.cs:55-77 | Removing an item of another product, or an item with a dangling list, client or product reference, leaves the answer unchanged. |
| `BoughtProductsService.ResolvedItemAddsItsRow` | Grocery.Core/Services/BoughtProductsService.cs:65-83 | Adding a resolvable item of the product adds its row to the answer and nothing else: exactly one more row. |
| `BoughtProductsService.AmountDoesNotMatter` | Grocery.Core/Services/BoughtProductsService.cs:79-82 | Items that differ only in `Amount` give the same answer. |
| `BoughtProductsService.ScenarioTwoClients` | Grocery.Core/Services/BoughtProductsService.cs:43-93 | Anna's "Weekly" list and Bob's "Monthly" list both hold product 5. The answer is Anna's row, then Bob's, although Bob's item comes first. An item of another product is ignored. |
| `BoughtProductsService.ScenarioMissingList` | Grocery.Core/Services/BoughtProductsService.cs:68-69 | An item on a list that does not exist gives no row. |
| `RowOrder.Key` | Grocery.Core/Services/BoughtProductsService.cs:87-88 | The key selectors: client name, then list name. Rows with the same key are tied, each allowed before the other, so only stability orders them. |
| `RowOrder.KeyLe` | Grocery.Core/Services/BoughtProductsService.cs:87-88 | The `OrderBy`/`ThenBy` comparison. When a row may precede another, its client name sorts no later. When the client names are equal, its list name sorts no later. |
| `RowOrder.WithKey` | Grocery.Core/Services/BoughtProductsService.cs:86-89 | The rows of one key, in order, which is how stability is stated. Every row it returns has that key. |
| `StringOrder.LexLe` | Grocery.Core/Services/BoughtProductsService.cs:87-88 | The name comparison. A prefix of a name sorts no later than the name. A nonempty name sorts no later than another only if its first character is no larger. |
| `RowOrder.OrderByClientThenList` | Grocery.Core/Services/BoughtProductsService.cs:86-89 | The sort returns a permutation of its input. |
| `RowOrder.Insert` | Grocery.Core/Services/BoughtProductsService.cs:86-89 | Inserting adds exactly the inserted row. The first row of the result is the inserted row or the old first row. |
| `RowOrder.InsertSorted` | Grocery.Core/Services/BoughtProductsService.cs:86-89 | Inserting into a sorted sequence keeps it sorted. |
| `RowOrder.InsertWithKey` | Grocery.Core/Services/BoughtProductsService.cs:86-89 | The inserted row goes before every row with the same key. The order of other rows with that key is untouched. |
| `RowOrder.OrderByIsSorted` | Grocery.Core/Services/BoughtProductsService.cs:86-89 | The sort's result is ordered by client name, then list name. |
| `RowOrder.OrderByIsStable` | Grocery.Core/Services/BoughtProductsService.cs:86-89 | For each key, the rows with that key come out in input order, as with LINQ's stable `OrderBy`/`ThenBy`. |
| `RowOrder.OrderByIsStableSort` | Grocery.Core/Services/BoughtProductsService.cs:86-89 | The sort's result is sorted and stable for every key. |
| `RowOrder.OrderByIsUnique` | Grocery.Core/Services/BoughtProductsService.cs:86-89 | Any sorted arrangement that is stable for every key equals the sort's result. |
| `RowOrder.SortedStableUnique` | Grocery.Core/Services/BoughtProductsService.cs:86-89 | Two sorted sequences with the same rows, in the same order, for every key are equal. |
| `RowOrder.KeyLeTotal` | Grocery.Core/Services/BoughtProductsService.cs:87-88 | Any two rows are comparable on (client name, list name). |
| `RowOrder.KeyLeTransitive` | Grocery.Core/Services/BoughtProductsService.cs:87-88 | The two-key comparison is transitive. |
| `RowOrder.KeyLeAntisymmetric` | Grocery.Core/Services/BoughtProductsService.cs:87-88 | Rows that compare both ways have equal client names and equal list names. |
| `RowOrder.KeyLeReflexive` | Grocery.Core/Services/BoughtProductsService.cs:87-88 | Rows with equal keys compare as equal, so a sort may keep them in input order. |
| `StringOrder.LexLeReflexive` | Grocery.Core/Services/BoughtProductsService.cs:87-88 | Every name sorts no later than itself. |
| `StringOrder.LexLeAntisymmetric` | Grocery.Core/Services/BoughtProductsService.cs:87-88 | Names that sort no later than each other are equal. |
| `StringOrder.LexLeTransitive` | Grocery.Core/Services/BoughtProductsService.cs:87-88 | The name order is transitive. |
| `StringOrder.LexLeTotal` | Grocery.Core/Services/BoughtProductsService.cs:87-88 | Any two names are comparable. |
| `ViewModels.ClearThenAdd` | Grocery.App/ViewModels/BoughtProductsViewModel.cs:43-54 | The states of the list during a refresh: empty first, then one more answer row at a time, in order, ending with all of them. |
| `ViewModels.BoughtProductsViewModel.constructor` | Grocery.App/ViewModels/BoughtProductsViewModel.cs:19-29 | Stores the service. `Products` is the product service's list. Nothing is selected, and the shown list is empty. |
| `ViewModels.BoughtProductsViewModel.OnSelectedProductChanged` | Grocery.App/ViewModels/BoughtProductsViewModel.cs:37-58 | A null new value leaves the list, the query log and the list's states untouched. For a product, the service is asked once, with the product's `Id`. Afterwards the list equals that answer, in order. The list's observers see it empty first, then one more row at a time. No earlier row survives. |
| `ViewModels.BoughtProductsViewModel.NewSelectedProduct` | Grocery.App/ViewModels/BoughtProductsViewModel.cs:66-69 | Afterwards `SelectedProduct` is the given product, and `Products` is unchanged. Re-selecting the current value changes nothing. A different product is refreshed as in the callback. The invariant "the list shows the answer for the selected product" is kept. |
| `ViewModels.SelectionShowsPurchases` | Grocery.App/ViewModels/BoughtProductsViewModel.cs:43-54 | When the service is the purchase query and a product is selected, the list is exactly that product's purchases. It is sorted, and every row comes from an item of that product. |
| `ViewModels.ReselectSameProduct` | Grocery.App/ViewModels/BoughtProductsViewModel.cs:66-69 | Choosing one product twice asks the service once. Both times the list is that product's answer. |

## Left out

- Logging: every `Debug.WriteLine` in both files has no effect on behaviour.
- The service constructor and the repository implementations (Grocery.Core/Services/BoughtProductsService.cs:25-35). The repositories are foreign interfaces, and their contents are input values. The model has no exception from a repository. The source catches none, so one would propagate out of `Get`.
- Name comparison: .NET's `OrderBy` on `string` uses the culture-sensitive default comparer, which cannot be reproduced here. Names are compared by Unicode code point, character by character, and a proper prefix sorts first. This also differs from .NET's ordinal order, which compares UTF-16 code units, for characters outside the Basic Multilingual Plane against U+E000–U+FFFF. Null names do not occur in the model.
- The records keep only the fields the query and the screen read. The record classes themselves are not part of this model.
- The CommunityToolkit source generation (`[ObservableProperty]`, `[RelayCommand]`) and the change-event dispatch of `INotifyPropertyChanged` and `ObservableCollection` are left out. Only their observable effect is kept: the sequence of list states in `listStates`.
- `ViewModels.BoughtProductsViewModel.NewSelectedProduct`: the `SelectedProduct` setter is generated by CommunityToolkit at build time and does not appear in the source. The model assumes it behaves as the toolkit's generated setters do: it stores the value and runs `OnSelectedProductChanged` only when the new value differs from the old one. So re-selecting the same product does not re-query, and repository changes made between the two selections are not shown (`ReselectSameProduct`).
- `ViewModels.BoughtProductsViewModel.NewSelectedProduct`: "differs" is value equality of the `Product` record. The generated setter uses `EqualityComparer<Product>.Default`, which for a class without its own `Equals` is reference equality. Two distinct objects with equal fields would trigger a refresh there, but not here.
- The view model's service is a fixed function of the product id. The model does not capture repository contents that change between two selections.
- Grocery.Core/Models/Role.cs: a two-value enum with no behaviour.
- Integer width: ids are unbounded integers. The code does no arithmetic on them, so 32-bit limits play no part.
