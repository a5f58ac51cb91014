/** The product records of the marketplace and the fixed catalog the page
    ships with. */
module Catalog {

  /** One card of the marketplace grid. `price` is in whole rupees; `unit`,
      `badge` and `icon` are display text. */
  datatype Product = Product(
    id: int,
    name: string,
    category: string,
    location: string,
    price: int,
    unit: string,
    badge: string,
    icon: string)

  /** The categories the filter buttons offer besides "all". */
  const Categories: set<string> := {"vegetables", "grains", "dairy", "fruits"}

  /** The in-memory catalog, in its declared order. */
  function MarketplaceData(): (data: seq<Product>)
    ensures |data| == 9
  {
    [ Product(1, "Fresh Tomatoes", "vegetables", "Punjab, India", 45, "/kg", "Organic", "\U{1F345}"),
      Product(2, "Basmati Rice", "grains", "Haryana, India", 85, "/kg", "Premium", "\U{1F33E}"),
      Product(3, "Fresh Milk", "dairy", "Gujarat, India", 55, "/liter", "A2", "\U{1F95B}"),
      Product(4, "Mangoes", "fruits", "Maharashtra, India", 120, "/kg", "Alphonso", "\U{1F96D}"),
      Product(5, "Fresh Spinach", "vegetables", "West Bengal, India", 30, "/kg", "Organic", "\U{1F96C}"),
      Product(6, "Bananas", "fruits", "Tamil Nadu, India", 40, "/dozen", "Fresh", "\U{1F34C}"),
      Product(7, "Cottage Cheese", "dairy", "Punjab, India", 180, "/kg", "Fresh", "\U{1F9C0}"),
      Product(8, "Carrots", "vegetables", "Karnataka, India", 35, "/kg", "Organic", "\U{1F955}"),
      Product(9, "Apples", "fruits", "Himachal Pradesh, India", 150, "/kg", "Premium", "\U{1F34E}") ]
  }

  /** The catalog's record invariants: identifiers are unique, every category
      is one the filter buttons offer, and every price is positive. */
  lemma MarketplaceDataWellFormed()
    ensures var data := MarketplaceData();
      && (forall i, j :: 0 <= i < j < |data| ==> data[i].id != data[j].id)
      && (forall i :: 0 <= i < |data| ==> data[i].category in Categories && data[i].price > 0)
  {
    var data := MarketplaceData();
    forall i | 0 <= i < |data|
      ensures data[i].id == i + 1 && data[i].category in Categories && data[i].price > 0
    {
    }
  }
}
