/** The product grid (`renderProducts` and `applyFilters` in script/main.js),
    with the DOM abstracted to a sequence of grid items: one card per record
    in list order, or a single "No products found." placeholder. A card keeps
    the values the markup shows; `Shown` is the escaped form in which each
    text value enters the markup. */
module Render {
  import opened Wrappers
  import opened Escape
  import opened Catalog
  import opened Filters

  /** The image shown when a record has none. */
  const SampleImage: string := "assets/sample.png"

  /** What one product card displays. */
  datatype Card = Card(
    id: int,
    name: string,
    category: string,
    price: int,
    image: string,
    desc: string,
    features: seq<string>)

  /** A child of the grid: the empty-result placeholder or a product card. */
  datatype GridItem = Placeholder | ProductCard(card: Card)

  /** The card built for record `p`. */
  function CardOf(p: Product): (c: Card)
    ensures c.id == p.id && |c.features| == 3
    ensures c.image != "" && (p.img != "" ==> c.image == p.img)
  {
    Card(p.id, p.name, p.category, p.price,
         if p.img == "" then SampleImage else p.img,
         p.desc, FeaturesFor(p.id))
  }

  /** The text values of a card: name, category, description, then the
      bullets. */
  function Texts(c: Card): seq<string> {
    [c.name, c.category, c.desc] + c.features
  }

  /** The text values of a card as they enter the markup, each HTML-escaped. */
  function Shown(c: Card): seq<string> {
    var t := Texts(c);
    seq(|t|, k requires 0 <= k < |t| => EscapeHtml(t[k]))
  }

  /** The cards of a list, in list order. */
  function Cards(s: seq<Product>): (r: seq<GridItem>)
    ensures |r| == |s|
  {
    if s == [] then [] else Cards(s[..|s| - 1]) + [ProductCard(CardOf(s[|s| - 1]))]
  }

  /** The children of the grid after rendering `list`: a missing or empty list
      gives the placeholder alone, so the grid is never left blank. */
  function Rendered(list: Option<seq<Product>>): (r: seq<GridItem>)
    ensures |r| >= 1
    ensures list.Some? && list.value != [] ==> |r| == |list.value|
  {
    if list.None? || list.value == [] then [Placeholder] else Cards(list.value)
  }

  /** The number of product cards among the grid's children. */
  function CardCount(items: seq<GridItem>): nat {
    if items == [] then 0
    else CardCount(items[..|items| - 1]) + (if items[|items| - 1].ProductCard? then 1 else 0)
  }

  /** A card shows its record: same id, name, category, price and
      description, the record's image or the sample image when it has none,
      and exactly three bullets: the id's entry in the side table, or the
      generic three when the id has none. */
  lemma CardContents(p: Product)
    ensures var c := CardOf(p);
      && c.id == p.id && c.name == p.name && c.category == p.category
      && c.price == p.price && c.desc == p.desc
      && (p.img != "" ==> c.image == p.img)
      && (p.img == "" ==> c.image == "assets/sample.png")
      && |c.features| == 3
      && (1 <= p.id <= 20 ==> c.features == FeaturesMap[p.id])
      && (!(1 <= p.id <= 20) ==> c.features == GenericFeatures)
  {
  }

  /** The markup of a card carries no `<`, `>` or `"` from the record's text,
      and unescaping each of its six shown values gives back the record's
      name, category and description and the three bullets for its id. */
  lemma ShownText(p: Product)
    ensures var t := Shown(CardOf(p));
      && |t| == 6
      && (forall k :: 0 <= k < 6 ==> '<' !in t[k] && '>' !in t[k] && '"' !in t[k])
      && (forall k :: 0 <= k < 6 ==> Unescape(t[k]) == ([p.name, p.category, p.desc] + FeaturesFor(p.id))[k])
  {
    var c := CardOf(p);
    var t := Texts(c);
    assert t == [p.name, p.category, p.desc] + FeaturesFor(p.id);
    forall k | 0 <= k < 6 ensures Unescape(Shown(c)[k]) == t[k] {
      EscapeRoundTrip(t[k]);
    }
  }

  /** The cards of a list are one per record, in list order, and nothing else. */
  lemma {:induction false} CardsInOrder(s: seq<Product>)
    ensures |Cards(s)| == |s| && CardCount(Cards(s)) == |s|
    ensures forall i :: 0 <= i < |s| ==> Cards(s)[i] == ProductCard(CardOf(s[i]))
    decreases |s|
  {
    if s != [] {
      var init := s[..|s| - 1];
      var last := ProductCard(CardOf(s[|s| - 1]));
      CardsInOrder(init);
      assert Cards(s) == Cards(init) + [last];
      assert Cards(s)[..|s| - 1] == Cards(init);
      forall i | 0 <= i < |s| ensures Cards(s)[i] == ProductCard(CardOf(s[i])) {
        if i < |s| - 1 {
          assert s[i] == init[i];
        }
      }
    }
  }

  /** A missing or empty list renders exactly one placeholder and no card; a
      list of N records renders N cards carrying the records' ids in list
      order and no placeholder. */
  lemma RenderedShape(list: Option<seq<Product>>)
    ensures list.None? || list.value == [] ==>
      Rendered(list) == [Placeholder] && CardCount(Rendered(list)) == 0
    ensures list.Some? && list.value != [] ==>
      && |Rendered(list)| == |list.value|
      && CardCount(Rendered(list)) == |list.value|
      && Placeholder !in Rendered(list)
      && forall i :: 0 <= i < |list.value| ==>
           Rendered(list)[i].ProductCard? && Rendered(list)[i].card.id == list.value[i].id
  {
    if list.None? || list.value == [] {
      assert [Placeholder][..0] == [];
    } else {
      CardsInOrder(list.value);
    }
  }

  /** The page's first render shows the whole catalog: twenty cards with ids
      1 to 20, each with its own entry of the side table. */
  lemma InitialGrid()
    ensures |Rendered(Some(Products))| == 20
    ensures forall i :: 0 <= i < 20 ==>
      Rendered(Some(Products))[i] == ProductCard(CardOf(Products[i])) && CardOf(Products[i]).id == i + 1
    ensures forall i :: 0 <= i < 20 ==> Products[i].id in FeaturesMap
  {
    CatalogShape();
    CardsInOrder(Products);
  }

  /** The grid element. */
  class ProductGrid {
    var children: seq<GridItem>

    constructor()
      ensures children == []
    {
      children := [];
    }

    /** Clears the grid and fills it for `list`, appending one card per
        record. */
    method Render(list: Option<seq<Product>>)
      modifies this
      ensures children == Rendered(list)
    {
      children := [];
      if list.None? || |list.value| == 0 {
        children := [Placeholder];
        return;
      }
      var items := list.value;
      for i := 0 to |items|
        invariant children == Cards(items[..i])
      {
        assert items[..i + 1][..i] == items[..i];
        children := children + [ProductCard(CardOf(items[i]))];
      }
      assert items[..|items|] == items;
    }
  }

  /** Re-renders the grid for the current selector values; without a grid
      element nothing happens. */
  method ApplyFilters(grid: ProductGrid?, category: Option<string>, sortBy: Option<string>)
    modifies grid
    ensures grid != null ==> grid.children == Rendered(Some(View(category.GetOr("all"), sortBy.GetOr(""))))
  {
    var list := FilterAndSort(category, sortBy);
    if grid != null {
      grid.Render(Some(list));
    }
  }

  /** Choosing a category no record has shows the placeholder alone. */
  lemma UnknownCategoryShowsPlaceholder(cat: string, sortValue: string)
    requires cat != "" && cat != "all" && cat != "Traditional" && cat != "Health" && cat != "Fusion" && cat != "Kids"
    ensures Rendered(Some(View(cat, sortValue))) == [Placeholder]
  {
    CategoryBlocks(cat);
  }
}
