/** The catalog items the search code works on: products (menu dishes) and
    restaurants, distinguished by the `type` field the API layer attaches.

    A text field that the JavaScript code reads as `item.x || ''` or tests
    with `if (item.x)` is a `string` here, with "" standing for a missing
    value: at every use in the search code null, undefined and '' behave
    alike. Numeric fields tested for truthiness are `Option<real>`, and
    `available`, compared with `!== false`, is an `Option<bool>`. */
module Catalog {
  import opened Wrappers

  datatype Kind = Product | Restaurant

  datatype Item = Item(
    kind: Kind,               // item.type: 'product' | 'restaurant'
    name: string,
    description: string,
    category: string,
    cuisineType: string,      // item.cuisine_type (restaurants)
    restaurantName: string,   // item.restaurant?.name (products)
    rating: Option<real>,
    discount: Option<real>,
    price: Option<real>,
    available: Option<bool>,
    status: string            // restaurant operational status, e.g. 'closed'
  )

  /** JavaScript truthiness of an optional number: present and non-zero. */
  predicate Truthy(x: Option<real>) {
    x.Some? && x.value != 0.0
  }

  /** 1 when a scoring condition holds, 0 when it does not: a signal worth
      `w` points adds `w * Indicator(condition)` to a score. */
  function Indicator(b: bool): int {
    if b then 1 else 0
  }
}
