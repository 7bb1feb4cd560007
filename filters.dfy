/** The category filter and sort selector of the product grid (`applyFilters`
    in script/main.js): keep the catalog records of one category, or all of
    them for `all` or an empty value, then sort them with the comparator of
    the selected order, or leave them in catalog order for any other value. */
module Filters {
  import opened Wrappers
  import opened Catalog
  import opened Sorting
  import opened Comparators

  /** The selector value of each sort order. */
  function KeyName(key: SortKey): string {
    match key
    case NameAsc => "name-asc"
    case NameDesc => "name-desc"
    case PriceAsc => "price-asc"
    case PriceDesc => "price-desc"
    case ByCategory => "category"
  }

  /** The sort order a selector value names; `None` for the empty value and
      for anything unrecognised. */
  function ParseSortKey(value: string): (r: Option<SortKey>)
    ensures forall key :: r == Some(key) <==> KeyName(key) == value
  {
    if value == "name-asc" then Some(NameAsc)
    else if value == "name-desc" then Some(NameDesc)
    else if value == "price-asc" then Some(PriceAsc)
    else if value == "price-desc" then Some(PriceDesc)
    else if value == "category" then Some(ByCategory)
    else None
  }

  /** The category values that keep every record. */
  predicate KeepsAll(cat: string) {
    cat == "" || cat == "all"
  }

  /** The records the category filter lets through, in catalog order. */
  function Filtered(cat: string): seq<Product> {
    if KeepsAll(cat) then Products else FilterCategory(Products, cat)
  }

  /** The list `applyFilters` hands to the renderer for the two selector values. */
  function View(cat: string, sortValue: string): (v: seq<Product>)
    ensures |v| == |Filtered(cat)|
  {
    match ParseSortKey(sortValue)
    case None => Filtered(cat)
    case Some(key) => StableSort(KeyComparator(key), Filtered(cat))
  }

  /** Builds the list `applyFilters` renders: copies the catalog, filters it by
      category and sorts the copy in place. A missing control reads as `all`
      for the category and as the empty value for the sort. */
  method FilterAndSort(category: Option<string>, sortBy: Option<string>) returns (list: seq<Product>)
    ensures list == View(category.GetOr("all"), sortBy.GetOr(""))
  {
    var cat := category.GetOr("all");
    list := Products;
    if cat != "" && cat != "all" {
      list := FilterCategory(list, cat);
    }
    var key := ParseSortKey(sortBy.GetOr(""));
    if key.Some? {
      var copy := list;
      var a := new Product[|copy|](i requires 0 <= i < |copy| => copy[i]);
      assert a[..] == copy;
      SortInPlace(a, KeyComparator(key.value));
      list := a[..];
    }
  }

  /** Filtering: `all` or an empty value yields all twenty records; any other
      value yields exactly the records whose category equals it, case-sensitively.
      Either way the records keep catalog order. */
  lemma FilteredContents(cat: string)
    ensures KeepsAll(cat) ==> Filtered(cat) == Products && |Filtered(cat)| == 20
    ensures !KeepsAll(cat) ==> forall p :: p in Filtered(cat) <==> p in Products && p.category == cat
    ensures IdsIncreasing(Filtered(cat))
  {
    CatalogShape();
    if !KeepsAll(cat) {
      forall p ensures p in Filtered(cat) <==> p in Products && p.category == cat {
        FilterMembership(Products, cat, p);
      }
      FilterKeepsOrder(Products, cat);
    }
  }

  /** Sorting only reorders: the view is a permutation of the filtered list. */
  lemma ViewPermutes(cat: string, sortValue: string)
    ensures multiset(View(cat, sortValue)) == multiset(Filtered(cat))
  {
    match ParseSortKey(sortValue)
    case None =>
    case Some(key) => StableSortPermutes(KeyComparator(key), Filtered(cat));
  }

  /** The view is ordered as the selector says: by price up or down, by name
      up or down, by category; any unrecognised or empty value keeps the filtered order. */
  lemma ViewOrdered(cat: string, sortValue: string)
    ensures var v := View(cat, sortValue);
      && (sortValue == "price-asc" ==> forall i, j :: 0 <= i < j < |v| ==> v[i].price <= v[j].price)
      && (sortValue == "price-desc" ==> forall i, j :: 0 <= i < j < |v| ==> v[i].price >= v[j].price)
      && (sortValue == "name-asc" ==> forall i, j :: 0 <= i < j < |v| ==> CompareStrings(v[i].name, v[j].name) <= 0)
      && (sortValue == "name-desc" ==> forall i, j :: 0 <= i < j < |v| ==> CompareStrings(v[i].name, v[j].name) >= 0)
      && (sortValue == "category" ==> forall i, j :: 0 <= i < j < |v| ==> CompareStrings(v[i].category, v[j].category) <= 0)
      && (ParseSortKey(sortValue).None? ==> v == Filtered(cat))
  {
    match ParseSortKey(sortValue)
    case None =>
    case Some(key) =>
      ComparatorConsistent(key);
      StableSortSorted(KeyComparator(key), Filtered(cat));
      var v := View(cat, sortValue);
      forall i, j | 0 <= i < j < |v| ensures Cmp(key, v[i], v[j]) <= 0 {
        assert KeyComparator(key)(v[i], v[j]) <= 0;
      }
      if key == NameDesc {
        forall i, j | 0 <= i < j < |v| ensures CompareStrings(v[i].name, v[j].name) >= 0 {
          CompareStringsFlip(v[i].name, v[j].name);
        }
      }
  }

  /** Under the category comparator the class of ties of `p` is exactly the
      records of `p`'s category. */
  lemma {:induction false} TiedByCategory(s: seq<Product>, p: Product)
    ensures Tied(KeyComparator(ByCategory), s, p) == FilterCategory(s, p.category)
    decreases |s|
  {
    if s != [] {
      TiedByCategory(s[..|s| - 1], p);
      assert KeyComparator(ByCategory)(s[|s| - 1], p) == CompareStrings(s[|s| - 1].category, p.category);
    }
  }

  /** Sorting by category is stable: within each category the records keep
      the order they had after filtering, which is catalog order. */
  lemma CategorySortKeepsCatalogOrder(cat: string, c: string)
    ensures FilterCategory(View(cat, "category"), c) == FilterCategory(Filtered(cat), c)
    ensures IdsIncreasing(FilterCategory(View(cat, "category"), c))
  {
    var cmp := KeyComparator(ByCategory);
    ComparatorConsistent(ByCategory);
    StableSortStable(cmp, Filtered(cat));
    var probe := Product(0, "", c, 0, "", "");
    TiedByCategory(View(cat, "category"), probe);
    TiedByCategory(Filtered(cat), probe);
    FilteredContents(cat);
    FilterKeepsOrder(Filtered(cat), c);
  }

  /** A class of ties of a list in catalog order is in catalog order. */
  lemma {:induction false} TiedKeepsIds(cmp: Comparator<Product>, s: seq<Product>, p: Product)
    requires IdsIncreasing(s)
    ensures IdsIncreasing(Tied(cmp, s, p))
    decreases |s|
  {
    if s != [] {
      var init := s[..|s| - 1];
      TiedKeepsIds(cmp, init, p);
      TiedMembers(cmp, init, p);
      var t := Tied(cmp, init, p);
      forall x | x in t ensures x.id < s[|s| - 1].id {
        var k :| 0 <= k < |init| && init[k] == x;
        assert s[k] == x;
      }
      assert Tied(cmp, s, p) == t + (if cmp(s[|s| - 1], p) == 0 then [s[|s| - 1]] else []);
    }
  }

  /** Whatever the selected order, records it ranks equal stay in catalog
      order: equal prices under a price sort, equal categories under the
      category sort, equal names under a name sort. */
  lemma TiesKeepCatalogOrder(cat: string, sortValue: string)
    ensures ParseSortKey(sortValue).Some? ==>
      var v := View(cat, sortValue);
      forall i, j :: 0 <= i < j < |v| && Cmp(ParseSortKey(sortValue).value, v[i], v[j]) == 0 ==> v[i].id < v[j].id
  {
    if ParseSortKey(sortValue).Some? {
      var key := ParseSortKey(sortValue).value;
      var cmp := KeyComparator(key);
      var v := View(cat, sortValue);
      ComparatorConsistent(key);
      StableSortStable(cmp, Filtered(cat));
      FilteredContents(cat);
      forall i, j | 0 <= i < j < |v| && Cmp(key, v[i], v[j]) == 0 ensures v[i].id < v[j].id {
        CmpConsistent(key, v[i], v[j], v[i]);
        CmpConsistent(key, v[i], v[i], v[i]);
        assert cmp(v[i], v[i]) == 0 && cmp(v[j], v[i]) == 0;
        var a, b := TiedPositions(cmp, v, v[i], i, j);
        assert Tied(cmp, v, v[i]) == Tied(cmp, Filtered(cat), v[i]);
        TiedKeepsIds(cmp, Filtered(cat), v[i]);
      }
    }
  }

  /** No two records of `s` share a price. */
  predicate DistinctPrices(s: seq<Product>) {
    forall i, j :: 0 <= i < j < |s| ==> s[i].price != s[j].price
  }

  /** Without equal prices every class of ties under the price order has at
      most one record. */
  lemma {:induction false} PriceTiesSingle(s: seq<Product>, p: Product)
    requires DistinctPrices(s)
    ensures |Tied(KeyComparator(PriceAsc), s, p)| <= 1
    decreases |s|
  {
    if s != [] {
      var cmp := KeyComparator(PriceAsc);
      var init := s[..|s| - 1];
      PriceTiesSingle(init, p);
      if cmp(s[|s| - 1], p) == 0 {
        TiedNone(cmp, init, p);
      }
    }
  }

  /** Reversing a list sorted by price up sorts it by price down. */
  lemma ReverseSortsDown(sorted: seq<Product>)
    requires Sorted(KeyComparator(PriceAsc), sorted)
    ensures Sorted(KeyComparator(PriceDesc), Reverse(sorted))
  {
    var r := Reverse(sorted);
    forall i, j | 0 <= i < j < |r| ensures KeyComparator(PriceDesc)(r[i], r[j]) <= 0 {
      assert KeyComparator(PriceAsc)(sorted[|r| - 1 - j], sorted[|r| - 1 - i]) <= 0;
    }
  }

  /** Without equal prices, the reverse of the price-up sort keeps every class
      of ties of the price-down order. */
  lemma ReverseStableDown(s: seq<Product>)
    requires DistinctPrices(s)
    ensures Stable(KeyComparator(PriceDesc), s, Reverse(StableSort(KeyComparator(PriceAsc), s)))
  {
    var up, down := KeyComparator(PriceAsc), KeyComparator(PriceDesc);
    ComparatorConsistent(PriceAsc);
    var sorted := StableSort(up, s);
    var r := Reverse(sorted);
    StableSortStable(up, s);
    forall p ensures Tied(down, r, p) == Tied(down, s, p) {
      TiedSameTies(down, up, r, p);
      TiedSameTies(down, up, s, p);
      TiedReverse(up, sorted, p);
      PriceTiesSingle(s, p);
      var t := Tied(up, s, p);
      assert Reverse(t) == t;
    }
  }

  /** Without equal prices, sorting by price down gives exactly the reverse of
      sorting by price up. */
  lemma PriceOrdersReverse(s: seq<Product>)
    requires DistinctPrices(s)
    ensures StableSort(KeyComparator(PriceDesc), s) == Reverse(StableSort(KeyComparator(PriceAsc), s))
  {
    ComparatorConsistent(PriceAsc);
    ComparatorConsistent(PriceDesc);
    StableSortSorted(KeyComparator(PriceAsc), s);
    ReverseSortsDown(StableSort(KeyComparator(PriceAsc), s));
    ReverseStableDown(s);
    StableSortUnique(KeyComparator(PriceDesc), s, Reverse(StableSort(KeyComparator(PriceAsc), s)));
  }

  /** In a single category no two records share a price, so there the two
      price orders are exact reverses of each other. */
  lemma CategoryPriceOrdersReverse(cat: string)
    requires !KeepsAll(cat)
    ensures View(cat, "price-desc") == Reverse(View(cat, "price-asc"))
  {
    CategoryBlocks(cat);
    BlocksDistinctPrices();
    PriceOrdersReverse(Filtered(cat));
  }

  /** Five records with pairwise different prices. */
  lemma DistinctFive(a: Product, b: Product, c: Product, d: Product, e: Product)
    requires a.price != b.price && a.price != c.price && a.price != d.price && a.price != e.price
    requires b.price != c.price && b.price != d.price && b.price != e.price
    requires c.price != d.price && c.price != e.price && d.price != e.price
    ensures DistinctPrices([a, b, c, d, e])
  {
  }

  /** Within each block of the catalog the prices are pairwise different. */
  lemma BlocksDistinctPrices()
    ensures DistinctPrices(TraditionalBlock) && DistinctPrices(HealthBlock)
    ensures DistinctPrices(FusionBlock) && DistinctPrices(KidsBlock)
    ensures DistinctPrices([])
  {
    var t, h, f, k := TraditionalBlock, HealthBlock, FusionBlock, KidsBlock;
    assert t == [t[0], t[1], t[2], t[3], t[4]] && h == [h[0], h[1], h[2], h[3], h[4]];
    assert f == [f[0], f[1], f[2], f[3], f[4]] && k == [k[0], k[1], k[2], k[3], k[4]];
    DistinctFive(t[0], t[1], t[2], t[3], t[4]);
    DistinctFive(h[0], h[1], h[2], h[3], h[4]);
    DistinctFive(f[0], f[1], f[2], f[3], f[4]);
    DistinctFive(k[0], k[1], k[2], k[3], k[4]);
  }

  /** Sorting five records whose names compare as those of the Health block
      do: the fifth record moves in front of the fourth. */
  lemma SortFiveByName(a: Product, b: Product, c: Product, d: Product, e: Product)
    requires CompareStrings(a.name, b.name) < 0 && CompareStrings(b.name, c.name) < 0
    requires CompareStrings(c.name, d.name) < 0 && CompareStrings(c.name, e.name) < 0
    requires CompareStrings(d.name, e.name) > 0
    ensures StableSort(KeyComparator(NameAsc), [a, b, c, d, e]) == [a, b, c, e, d]
  {
    var cmp := KeyComparator(NameAsc);
    StableSortSnoc(cmp, [], a);
    StableSortSnoc(cmp, [a], b);
    StableSortSnoc(cmp, [a, b], c);
    StableSortSnoc(cmp, [a, b, c], d);
    StableSortSnoc(cmp, [a, b, c, d], e);
    assert [] + [a] == [a] && [a] + [b] == [a, b] && [a, b] + [c] == [a, b, c];
    assert [a, b, c] + [d] == [a, b, c, d] && [a, b, c, d] + [e] == [a, b, c, d, e];
    InsertAtPoint(cmp, [a, b, c], d, 3);
    InsertAtPoint(cmp, [a, b, c, d], e, 3);
  }

  /** How the names of the Health block compare. */
  lemma HealthNames()
    ensures CompareStrings(HealthBlock[0].name, HealthBlock[1].name) < 0
    ensures CompareStrings(HealthBlock[1].name, HealthBlock[2].name) < 0
    ensures CompareStrings(HealthBlock[2].name, HealthBlock[3].name) < 0
    ensures CompareStrings(HealthBlock[2].name, HealthBlock[4].name) < 0
    ensures CompareStrings(HealthBlock[3].name, HealthBlock[4].name) > 0
  {
  }

  /** The Health category sorted by name: Flax Seed, Horse Gram, Moringa,
      Protein Mix, Sesame. */
  lemma HealthByName()
    ensures View("Health", "name-asc") == [HealthBlock[0], HealthBlock[1], HealthBlock[2], HealthBlock[4], HealthBlock[3]]
    ensures var v := View("Health", "name-asc");
      v[0].name == "Flax Seed" && v[1].name == "Horse Gram" && v[2].name == "Moringa" &&
      v[3].name == "Protein Mix" && v[4].name == "Sesame"
  {
    var h := HealthBlock;
    CategoryBlocks("Health");
    HealthNames();
    assert h == [h[0], h[1], h[2], h[3], h[4]];
    SortFiveByName(h[0], h[1], h[2], h[3], h[4]);
  }

  /** The Health category sorted by price up: Sesame (110), Horse Gram (130),
      Flax Seed (140), Moringa (145), Protein Mix (160); by price down the
      reverse. */
  lemma HealthByPrice()
    ensures View("Health", "price-asc") == [HealthBlock[3], HealthBlock[1], HealthBlock[0], HealthBlock[2], HealthBlock[4]]
    ensures View("Health", "price-desc") == [HealthBlock[4], HealthBlock[2], HealthBlock[0], HealthBlock[1], HealthBlock[3]]
    ensures var u := View("Health", "price-asc");
      && u[0].name == "Sesame" && u[1].name == "Horse Gram" && u[2].name == "Flax Seed"
      && u[3].name == "Moringa" && u[4].name == "Protein Mix"
      && u[0].price == 110 && u[1].price == 130 && u[2].price == 140 && u[3].price == 145 && u[4].price == 160
  {
    var h := HealthBlock;
    HealthPriceUp();
    CategoryPriceOrdersReverse("Health");
    ReverseFive(h[3], h[1], h[0], h[2], h[4]);
  }

  /** Reversal of a five-record list. */
  lemma ReverseFive(a: Product, b: Product, c: Product, d: Product, e: Product)
    ensures Reverse([a, b, c, d, e]) == [e, d, c, b, a]
  {
  }

  /** The price-up sort of the first three records of the Health block. */
  lemma SortThreeByPrice(a: Product, b: Product, c: Product)
    requires b.price < a.price < c.price
    ensures StableSort(KeyComparator(PriceAsc), [a, b, c]) == [b, a, c]
  {
    var cmp := KeyComparator(PriceAsc);
    StableSortSnoc(cmp, [], a);
    StableSortSnoc(cmp, [a], b);
    StableSortSnoc(cmp, [a, b], c);
    assert [] + [a] == [a] && [a] + [b] == [a, b] && [a, b] + [c] == [a, b, c];
    assert cmp(a, b) > 0 && cmp(a, c) <= 0;
    InsertAtPoint(cmp, [a], b, 0);
  }

  /** The price-up sort of five records priced like the Health block,
      computed insertion by insertion. */
  lemma SortFiveByPrice(a: Product, b: Product, c: Product, d: Product, e: Product)
    requires d.price < b.price < a.price < c.price < e.price
    ensures StableSort(KeyComparator(PriceAsc), [a, b, c, d, e]) == [d, b, a, c, e]
  {
    var cmp := KeyComparator(PriceAsc);
    SortThreeByPrice(a, b, c);
    StableSortSnoc(cmp, [a, b, c], d);
    StableSortSnoc(cmp, [a, b, c, d], e);
    assert [a, b, c] + [d] == [a, b, c, d] && [a, b, c, d] + [e] == [a, b, c, d, e];
    assert cmp(b, d) > 0 && cmp(a, d) > 0 && cmp(c, d) > 0;
    InsertAtPoint(cmp, [b, a, c], d, 0);
    assert cmp(c, e) <= 0;
  }

  /** The price-up sort of the Health block. */
  lemma HealthPriceUp()
    ensures StableSort(KeyComparator(PriceAsc), HealthBlock) == [HealthBlock[3], HealthBlock[1], HealthBlock[0], HealthBlock[2], HealthBlock[4]]
    ensures View("Health", "price-asc") == StableSort(KeyComparator(PriceAsc), HealthBlock)
  {
    var h := HealthBlock;
    CategoryBlocks("Health");
    assert h == [h[0], h[1], h[2], h[3], h[4]];
    SortFiveByPrice(h[0], h[1], h[2], h[3], h[4]);
  }

  /** A list of one category is sorted by category. */
  lemma OneCategorySorted(s: seq<Product>, c: string)
    requires forall i :: 0 <= i < |s| ==> s[i].category == c
    ensures Sorted(KeyComparator(ByCategory), s)
  {
    forall i, j | 0 <= i < j < |s| ensures KeyComparator(ByCategory)(s[i], s[j]) <= 0 {
      assert s[i].category == s[j].category;
    }
  }

  /** The catalog's blocks in the order of their category names. */
  const BlocksByCategory: seq<Product> := FusionBlock + HealthBlock + KidsBlock + TraditionalBlock

  /** Four lists of the categories Fusion, Health, Kids and Traditional,
      joined in that order, are sorted by category. */
  lemma FourCategoriesSorted(f: seq<Product>, h: seq<Product>, k: seq<Product>, t: seq<Product>)
    requires forall i :: 0 <= i < |f| ==> f[i].category == "Fusion"
    requires forall i :: 0 <= i < |h| ==> h[i].category == "Health"
    requires forall i :: 0 <= i < |k| ==> k[i].category == "Kids"
    requires forall i :: 0 <= i < |t| ==> t[i].category == "Traditional"
    ensures Sorted(KeyComparator(ByCategory), f + h + k + t)
  {
    var cmp := KeyComparator(ByCategory);
    assert CompareStrings("Fusion", "Health") < 0 && CompareStrings("Fusion", "Kids") < 0;
    assert CompareStrings("Fusion", "Traditional") < 0 && CompareStrings("Health", "Kids") < 0;
    assert CompareStrings("Health", "Traditional") < 0 && CompareStrings("Kids", "Traditional") < 0;
    OneCategorySorted(f, "Fusion");
    OneCategorySorted(h, "Health");
    OneCategorySorted(k, "Kids");
    OneCategorySorted(t, "Traditional");
    SortedAppend(cmp, f, h);
    var fh := f + h;
    assert forall i :: 0 <= i < |fh| ==> fh[i].category == "Fusion" || fh[i].category == "Health";
    SortedAppend(cmp, fh, k);
    var fhk := fh + k;
    assert forall i :: 0 <= i < |fhk| ==> fhk[i].category == "Fusion" || fhk[i].category == "Health" || fhk[i].category == "Kids";
    SortedAppend(cmp, fhk, t);
  }

  /** The four blocks in category order are sorted by category. */
  lemma BlocksByCategorySorted()
    ensures Sorted(KeyComparator(ByCategory), BlocksByCategory)
  {
    BlockCategories();
    FourCategoriesSorted(FusionBlock, HealthBlock, KidsBlock, TraditionalBlock);
  }

  /** Filtering the blocks in category order by `c` keeps the blocks of
      category `c`. */
  lemma FilterBlocksOrdered(c: string, t: bool, h: bool, f: bool, k: bool)
    requires t == (c == "Traditional") && h == (c == "Health") && f == (c == "Fusion") && k == (c == "Kids")
    ensures FilterCategory(BlocksByCategory, c) ==
      (if f then FusionBlock else []) + (if h then HealthBlock else []) +
      (if k then KidsBlock else []) + (if t then TraditionalBlock else [])
  {
    FilterAppend(FusionBlock + HealthBlock + KidsBlock, TraditionalBlock, c);
    FilterAppend(FusionBlock + HealthBlock, KidsBlock, c);
    FilterAppend(FusionBlock, HealthBlock, c);
    BlockCategories();
    if t { FilterAllOf(TraditionalBlock, c); } else { FilterNoneOf(TraditionalBlock, c); }
    if h { FilterAllOf(HealthBlock, c); } else { FilterNoneOf(HealthBlock, c); }
    if f { FilterAllOf(FusionBlock, c); } else { FilterNoneOf(FusionBlock, c); }
    if k { FilterAllOf(KidsBlock, c); } else { FilterNoneOf(KidsBlock, c); }
  }

  /** Filtering the blocks in category order by `c` yields what filtering the
      catalog does: the block of category `c`, or nothing. */
  lemma FilterBlocksByCategory(c: string)
    ensures FilterCategory(BlocksByCategory, c) == FilterCategory(Products, c)
  {
    FilterBlocksOrdered(c, c == "Traditional", c == "Health", c == "Fusion", c == "Kids");
    CategoryBlocks(c);
  }

  /** Sorting the whole catalog by category puts the Fusion records first,
      then Health, Kids and Traditional, each block in catalog order. */
  lemma AllByCategory()
    ensures View("all", "category") == FusionBlock + HealthBlock + KidsBlock + TraditionalBlock
  {
    var cmp := KeyComparator(ByCategory);
    BlocksByCategorySorted();
    ComparatorConsistent(ByCategory);
    forall p ensures Tied(cmp, BlocksByCategory, p) == Tied(cmp, Products, p) {
      TiedByCategory(BlocksByCategory, p);
      TiedByCategory(Products, p);
      FilterBlocksByCategory(p.category);
    }
    StableSortUnique(cmp, Products, BlocksByCategory);
  }
}
