/** The product record shared by the page and the recommendation service,
    and the "first product with this id" lookup both of them perform. */
module Catalog {

  import opened Common

  /** One catalog row: the columns of the products table and the fields of
      the page's `Product` interface. Prices are kept as reals; nothing in
      the model computes with them. */
  datatype Product = Product(id: int, name: string, price: real, category: string, tags: string)

  /** The position of the first row whose id is `id`, or None when no row
      has it. This is the page's `products.find(p => p.id === id)` and the
      service's `products[products["id"] == pid].index[0]`. */
  function FindFirst(rows: seq<Product>, id: int): (r: Option<nat>)
    ensures r.Some? ==> r.value < |rows| && rows[r.value].id == id
    ensures r.Some? ==> forall j :: 0 <= j < r.value ==> rows[j].id != id
    ensures r.None? <==> forall j :: 0 <= j < |rows| ==> rows[j].id != id
  {
    if rows == [] then None
    else if rows[0].id == id then Some(0)
    else match FindFirst(rows[1..], id)
      case None => None
      case Some(k) => Some(k + 1)
  }
}
