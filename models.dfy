/** The records of the grocery domain that the purchase query reads and produces. */
module Models {

  /** A repository lookup that may answer null. */
  datatype Option<+T> = None | Some(value: T)

  datatype Product = Product(id: int, name: string)

  datatype Client = Client(id: int, name: string)

  /** A grocery list belongs to one client through `clientId`. */
  datatype GroceryList = GroceryList(id: int, clientId: int, name: string)

  /** One line of a grocery list: `amount` units of product `productId` on list `groceryListId`. */
  datatype GroceryListItem = GroceryListItem(id: int, groceryListId: int, productId: int, amount: int)

  /** One answer row of the query: who (client) bought the product, and on which list. */
  datatype BoughtProducts = BoughtProducts(client: Client, groceryList: GroceryList, product: Product)
}
