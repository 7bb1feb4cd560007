/** The fixed product catalog of script/main.js (`products`) and the side table
    of feature bullets shown on the back of each card (`featuresMap`). */
module Catalog {

  /** One catalog record. `img` is the empty string when a record has no image. */
  datatype Product = Product(id: int, name: string, category: string, price: int, img: string, desc: string)

  const TraditionalBlock: seq<Product> := [
    Product(1, "Curry Leaves", "Traditional", 100, "assets/podi-1.png", "Fragrant, classic powdered blend to lift dosa, idli and rice."),
    Product(2, "Garlic", "Traditional", 110, "assets/podi-2.png", "Savory garlic punch — pairs beautifully with ghee dosa."),
    Product(3, "Idli Dosa", "Traditional", 95, "assets/podi-3.png", "Classic seasoning made for idli & dosa — mild and nutty."),
    Product(4, "Coriander", "Traditional", 105, "assets/podi-4.png", "Fresh, green notes — a twist to everyday dosa and rice bowls."),
    Product(5, "Tamarind Rice", "Traditional", 120, "assets/podi-5.png", "Sour-sweet spice mix inspired by tamarind rice.")
  ]

  const HealthBlock: seq<Product> := [
    Product(6, "Flax Seed", "Health", 140, "assets/podi-6.png", "Rich in Omega-3 & fiber — crunchy, nutty podi."),
    Product(7, "Horse Gram", "Health", 130, "assets/podi-7.png", "Protein-rich and earthy — developed for nourishment."),
    Product(8, "Moringa", "Health", 145, "assets/podi-8.png", "Supergreen nutrition in a sprinkle — earthy and nutritious."),
    Product(9, "Sesame", "Health", 110, "assets/podi-9.png", "Nutty, fragrant sesame to add crunch and calcium."),
    Product(10, "Protein Mix", "Health", 160, "assets/podi-10.png", "Pulse-forward blend designed for extra protein.")
  ]

  const FusionBlock: seq<Product> := [
    Product(11, "Pepper Garlic", "Fusion", 125, "assets/podi-11.png", "Bold pepper and roasted garlic for millet & pancakes."),
    Product(12, "Spicy Millet", "Fusion", 135, "assets/podi-12.png", "Millet-forward podi with chilli & herbs."),
    Product(13, "Herb Chilli", "Fusion", 120, "assets/podi-13.png", "Aromatic herbs meet gentle chilli."),
    Product(14, "Lentil Mix", "Fusion", 150, "assets/podi-14.png", "Protein-rich lentil blend with warm spices."),
    Product(15, "Tomato Burst", "Fusion", 115, "assets/podi-15.png", "Tangy tomato notes for bright modern flavor.")
  ]

  const KidsBlock: seq<Product> := [
    Product(16, "Choco Nut", "Kids", 130, "assets/podi-16.png", "Sweet cocoa-nut mix kids love — great on pancakes."),
    Product(17, "Sweet Protein Mix", "Kids", 140, "assets/podi-17.png", "Mildly sweet, protein-rich blend for children."),
    Product(18, "Mild Garlic", "Kids", 95, "assets/podi-18.png", "Gentle garlic flavor tuned for younger taste buds."),
    Product(19, "Peanut Crunch", "Kids", 120, "assets/podi-19.png", "Crispy peanuts and mild spices — a little one favourite."),
    Product(20, "Sprout Mix", "Kids", 150, "assets/podi-20.png", "Sprout-based mix to sneak in extra nutrition.")
  ]

  /** The whole catalog, in the order the script declares it. */
  const Products: seq<Product> := TraditionalBlock + HealthBlock + FusionBlock + KidsBlock

  /** The records of `s` whose category is exactly `c` (case-sensitive), in the
      order they appear in `s`. */
  function FilterCategory(s: seq<Product>, c: string): (r: seq<Product>)
    ensures |r| <= |s|
    ensures forall i :: 0 <= i < |r| ==> r[i].category == c && r[i] in s
  {
    if s == [] then []
    else FilterCategory(s[..|s| - 1], c) + (if s[|s| - 1].category == c then [s[|s| - 1]] else [])
  }

  /** Records strictly increasing by id: the order the catalog is written in. */
  predicate IdsIncreasing(s: seq<Product>) {
    forall i, j :: 0 <= i < j < |s| ==> s[i].id < s[j].id
  }

  /** The generic bullets of a card whose id has no entry in the side table. */
  const GenericFeatures: seq<string> := ["Small-batch roasted", "Stone-ground texture", "Perfect for dosa & rice"]

  const FeaturesMap: map<int, seq<string>> := map[
    1 := ["Fresh curry leaf aroma", "No artificial flavours", "Perfect with ghee dosa"],
    2 := ["Bold roasted garlic", "Aromatic & savory", "Pairs with sesame oil"],
    3 := ["Classic idli seasoning", "Light & nutty", "Family favourite"],
    4 := ["Bright coriander notes", "Freshens rice & dosa", "Roasted for depth"],
    5 := ["Tamarind tang & spice", "Sour-sweet balance", "Great with rice"],
    6 := ["Omega-3 rich crunch", "Boosts heart health", "Nutty texture"],
    7 := ["High-protein podi", "Earthy roasted flavour", "Satiety boosting"],
    8 := ["Moringa goodness", "Vitamin-rich sprinkle", "Mild green taste"],
    9 := ["Toasted sesame crunch", "Good calcium source", "Adds texture"],
    10 := ["Pulse-forward protein mix", "Balanced spice profile", "Meal-ready nutrition"],
    11 := ["Peppery heat & garlic", "Works on millet dosa", "Bold flavour"],
    12 := ["Millet-friendly spice", "Slight smoky notes", "Great with porridge/pancakes"],
    13 := ["Herbal aroma & mild chilli", "Versatile use", "Subtle heat"],
    14 := ["Lentil-based protein", "Creamy roasted texture", "Nutritious sprinkle"],
    15 := ["Tomato tang & brightness", "Kid-friendly", "Adds color & zing"],
    16 := ["Choco-nut sweetness", "Kid-approved flavour", "Great on pancakes"],
    17 := ["Mild sweet protein", "Energy-packed", "Mixes well with milk/yogurt"],
    18 := ["Gentle garlic flavor", "Kid-friendly spice", "Mild & tasty"],
    19 := ["Crunchy peanut bits", "Good protein source", "Crunch kids love"],
    20 := ["Sprout goodness", "High in enzymes", "Healthy everyday sprinkle"]
  ]

  /** The three bullets on the back of the card for `id`: the side-table entry
      when there is one, the generic three otherwise. */
  function FeaturesFor(id: int): (f: seq<string>)
    ensures |f| == 3
    ensures 1 <= id <= 20 ==> f == FeaturesMap[id] && f != GenericFeatures
    ensures !(1 <= id <= 20) ==> f == GenericFeatures
  {
    if id in FeaturesMap then FeaturesMap[id] else GenericFeatures
  }

  /** Filtering distributes over concatenation. */
  lemma {:induction false} FilterAppend(a: seq<Product>, b: seq<Product>, c: string)
    ensures FilterCategory(a + b, c) == FilterCategory(a, c) + FilterCategory(b, c)
    decreases |b|
  {
    if b == [] {
      assert a + b == a;
    } else {
      var ab := a + b;
      assert ab[..|ab| - 1] == a + b[..|b| - 1];
      assert ab[|ab| - 1] == b[|b| - 1];
      FilterAppend(a, b[..|b| - 1], c);
    }
  }

  /** A list whose records all have category `c` is kept whole. */
  lemma {:induction false} FilterAllOf(s: seq<Product>, c: string)
    requires forall i :: 0 <= i < |s| ==> s[i].category == c
    ensures FilterCategory(s, c) == s
    decreases |s|
  {
    if s != [] {
      FilterAllOf(s[..|s| - 1], c);
      assert s[..|s| - 1] + [s[|s| - 1]] == s;
    }
  }

  /** A list with no record of category `c` filters to nothing. */
  lemma {:induction false} FilterNoneOf(s: seq<Product>, c: string)
    requires forall i :: 0 <= i < |s| ==> s[i].category != c
    ensures FilterCategory(s, c) == []
    decreases |s|
  {
    if s != [] {
      FilterNoneOf(s[..|s| - 1], c);
    }
  }

  /** A record is kept exactly when it is in the list and has the category. */
  lemma {:induction false} FilterMembership(s: seq<Product>, c: string, p: Product)
    ensures p in FilterCategory(s, c) <==> p in s && p.category == c
    decreases |s|
  {
    if s != [] {
      FilterMembership(s[..|s| - 1], c, p);
      assert s == s[..|s| - 1] + [s[|s| - 1]];
    }
  }

  /** Filtering keeps the relative order of what it keeps: a list increasing by
      id stays increasing by id. */
  lemma {:induction false} FilterKeepsOrder(s: seq<Product>, c: string)
    requires IdsIncreasing(s)
    ensures IdsIncreasing(FilterCategory(s, c))
    decreases |s|
  {
    if s != [] {
      var init, last := s[..|s| - 1], s[|s| - 1];
      FilterKeepsOrder(init, c);
      var f := FilterCategory(init, c);
      forall x | x in f ensures x.id < last.id {
        FilterMembership(init, c, x);
      }
    }
  }

  /** The catalog holds twenty records with the ids 1 to 20 in order (so ids are
      unique and the catalog is increasing by id), and every id has a side-table
      entry of features. */
  lemma CatalogShape()
    ensures |Products| == 20
    ensures forall i :: 0 <= i < 20 ==> Products[i].id == i + 1
    ensures IdsIncreasing(Products)
    ensures forall i :: 0 <= i < 20 ==> Products[i].id in FeaturesMap
  {
  }

  /** Filtering the catalog filters each of its four blocks. */
  lemma FilterByBlocks(c: string)
    ensures FilterCategory(Products, c) ==
      FilterCategory(TraditionalBlock, c) + FilterCategory(HealthBlock, c) +
      FilterCategory(FusionBlock, c) + FilterCategory(KidsBlock, c)
  {
    FilterAppend(TraditionalBlock + HealthBlock + FusionBlock, KidsBlock, c);
    FilterAppend(TraditionalBlock + HealthBlock, FusionBlock, c);
    FilterAppend(TraditionalBlock, HealthBlock, c);
  }

  /** Every record of a block carries that block's category. */
  lemma BlockCategories()
    ensures forall i :: 0 <= i < |TraditionalBlock| ==> TraditionalBlock[i].category == "Traditional"
    ensures forall i :: 0 <= i < |HealthBlock| ==> HealthBlock[i].category == "Health"
    ensures forall i :: 0 <= i < |FusionBlock| ==> FusionBlock[i].category == "Fusion"
    ensures forall i :: 0 <= i < |KidsBlock| ==> KidsBlock[i].category == "Kids"
  {
  }

  /** Filtering the catalog by category `c` yields the records of the block
      named `c`, in declaration order, or nothing when no block has that name. */
  lemma FilterOneBlock(c: string, t: bool, h: bool, f: bool, k: bool)
    requires t == (c == "Traditional") && h == (c == "Health") && f == (c == "Fusion") && k == (c == "Kids")
    ensures FilterCategory(Products, c) ==
      (if t then TraditionalBlock else []) + (if h then HealthBlock else []) +
      (if f then FusionBlock else []) + (if k then KidsBlock else [])
  {
    FilterByBlocks(c);
    BlockCategories();
    if t { FilterAllOf(TraditionalBlock, c); } else { FilterNoneOf(TraditionalBlock, c); }
    if h { FilterAllOf(HealthBlock, c); } else { FilterNoneOf(HealthBlock, c); }
    if f { FilterAllOf(FusionBlock, c); } else { FilterNoneOf(FusionBlock, c); }
    if k { FilterAllOf(KidsBlock, c); } else { FilterNoneOf(KidsBlock, c); }
  }

  /** Each of the four categories holds exactly five records, and they are the
      catalog's blocks in declaration order; any other category value, such as
      a differently-cased one, matches nothing. */
  lemma CategoryBlocks(c: string)
    ensures c == "Traditional" ==> FilterCategory(Products, c) == TraditionalBlock
    ensures c == "Health" ==> FilterCategory(Products, c) == HealthBlock
    ensures c == "Fusion" ==> FilterCategory(Products, c) == FusionBlock
    ensures c == "Kids" ==> FilterCategory(Products, c) == KidsBlock
    ensures c != "Traditional" && c != "Health" && c != "Fusion" && c != "Kids" ==> FilterCategory(Products, c) == []
  {
    FilterOneBlock(c, c == "Traditional", c == "Health", c == "Fusion", c == "Kids");
  }
}
