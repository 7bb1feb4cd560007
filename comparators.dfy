/** The five sort orders of `applyFilters`: the value of the sort selector and
    the comparator the script passes to `list.sort` for it. */
module Comparators {
  import opened Catalog
  import opened Sorting
  /** The recognised values of the sort selector. */
  datatype SortKey = NameAsc | NameDesc | PriceAsc | PriceDesc | ByCategory

  /** Ordinal comparison of two strings, with the sign convention of a
      JavaScript comparator: negative, zero or positive. It stands for
      `String.prototype.localeCompare`. */
  function CompareStrings(a: string, b: string): (r: int)
    ensures -1 <= r <= 1
    ensures r == 0 <==> a == b
  {
    if a == [] && b == [] then 0
    else if a == [] then -1
    else if b == [] then 1
    else if a[0] < b[0] then -1
    else if a[0] > b[0] then 1
    else
      var r := CompareStrings(a[1..], b[1..]);
      assert a == [a[0]] + a[1..] && b == [b[0]] + b[1..];
      r
  }

  /** Swapping the operands flips the sign. */
  lemma {:induction false} CompareStringsFlip(a: string, b: string)
    ensures CompareStrings(b, a) == -CompareStrings(a, b)
    decreases |a|
  {
    if a != [] && b != [] && a[0] == b[0] {
      CompareStringsFlip(a[1..], b[1..]);
    }
  }

  /** The ordinal order on strings is transitive. */
  lemma {:induction false} CompareStringsTrans(a: string, b: string, c: string)
    requires CompareStrings(a, b) <= 0 && CompareStrings(b, c) <= 0
    ensures CompareStrings(a, c) <= 0
    decreases |a|
  {
    if a != [] && b != [] && c != [] && a[0] == b[0] == c[0] {
      CompareStringsTrans(a[1..], b[1..], c[1..]);
    }
  }

  /** The comparator passed to `list.sort` for each key: two records tie
      exactly when the key's field is equal; the price orders put the cheaper
      record first going up and the dearer one first going down. */
  function Cmp(key: SortKey, x: Product, y: Product): (r: int)
    ensures (key == NameAsc || key == NameDesc) ==> (r == 0 <==> x.name == y.name)
    ensures (key == PriceAsc || key == PriceDesc) ==> (r == 0 <==> x.price == y.price)
    ensures key == ByCategory ==> (r == 0 <==> x.category == y.category)
    ensures key == PriceAsc ==> (r < 0 <==> x.price < y.price)
    ensures key == PriceDesc ==> (r < 0 <==> x.price > y.price)
  {
    match key
    case NameAsc => CompareStrings(x.name, y.name)
    case NameDesc => CompareStrings(y.name, x.name)
    case PriceAsc => x.price - y.price
    case PriceDesc => y.price - x.price
    case ByCategory => CompareStrings(x.category, y.category)
  }

  /** The comparator of `key` at three records: the sign flips with the
      operands, and "not after" is transitive. */
  lemma CmpConsistent(key: SortKey, x: Product, y: Product, z: Product)
    ensures Cmp(key, y, x) < 0 <==> Cmp(key, x, y) > 0
    ensures Cmp(key, x, y) <= 0 && Cmp(key, y, z) <= 0 ==> Cmp(key, x, z) <= 0
  {
    match key
    case NameAsc =>
      CompareStringsFlip(x.name, y.name);
      if Cmp(key, x, y) <= 0 && Cmp(key, y, z) <= 0 { CompareStringsTrans(x.name, y.name, z.name); }
    case NameDesc =>
      CompareStringsFlip(x.name, y.name);
      if Cmp(key, x, y) <= 0 && Cmp(key, y, z) <= 0 { CompareStringsTrans(z.name, y.name, x.name); }
    case PriceAsc =>
    case PriceDesc =>
    case ByCategory =>
      CompareStringsFlip(x.category, y.category);
      if Cmp(key, x, y) <= 0 && Cmp(key, y, z) <= 0 { CompareStringsTrans(x.category, y.category, z.category); }
  }

  /** The comparator of `key` as the function value handed to the sort. */
  function KeyComparator(key: SortKey): (Product, Product) -> int {
    (x: Product, y: Product) => Cmp(key, x, y)
  }

  /** Every one of the five comparators is consistent, as ECMA-262 asks of a
      comparator for the result of `Array.prototype.sort` to be defined. */
  lemma ComparatorConsistent(key: SortKey)
    ensures Consistent(KeyComparator(key))
  {
    var cmp := KeyComparator(key);
    forall x, y ensures cmp(x, y) > 0 <==> cmp(y, x) < 0 {
      CmpConsistent(key, x, y, x);
    }
    forall x, y, z | cmp(x, y) <= 0 && cmp(y, z) <= 0 ensures cmp(x, z) <= 0 {
      CmpConsistent(key, x, y, z);
    }
  }
}
