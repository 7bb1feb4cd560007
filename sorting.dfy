/** `Array.prototype.sort` with a comparator, as `applyFilters` uses it.

    ECMAScript requires the sort to be stable (section 23.1.3.30 of ECMA-262,
    2023 edition): for a consistent comparator its result is the one sequence
    that is ordered by the comparator and keeps records the comparator ranks
    equal in their input order. It is modelled by an in-place insertion sort
    (`SortInPlace`) proved equal to the functional `StableSort`; the lemma
    `StableSortUnique` shows that every sort with those two properties gives
    the same sequence, so the choice of algorithm does not matter. */
module Sorting {

  /** A comparator in the JavaScript sense: negative when the first operand
      goes first, positive when it goes second, zero for a tie. */
  type Comparator<!T> = (T, T) -> int

  /** What ECMA-262 asks of a comparator: swapping the operands flips the
      sign, and "not after" is transitive. */
  ghost predicate Consistent<T(!new)>(cmp: Comparator<T>) {
    && (forall x, y :: cmp(x, y) > 0 <==> cmp(y, x) < 0)
    && (forall x, y, z {:trigger cmp(x, y), cmp(y, z), cmp(x, z)} :: cmp(x, y) <= 0 && cmp(y, z) <= 0 ==> cmp(x, z) <= 0)
  }

  /** `s` is ordered by the comparator: no element comes after one it ranks below. */
  ghost predicate Sorted<T>(cmp: Comparator<T>, s: seq<T>) {
    forall i, j :: 0 <= i < j < |s| ==> cmp(s[i], s[j]) <= 0
  }

  /** The elements of `s` that the comparator ranks equal to `p`, in the order of `s`. */
  ghost function Tied<T>(cmp: Comparator<T>, s: seq<T>, p: T): seq<T> {
    if s == [] then []
    else Tied(cmp, s[..|s| - 1], p) + (if cmp(s[|s| - 1], p) == 0 then [s[|s| - 1]] else [])
  }

  /** `r` keeps every class of equally-ranked elements of `s` in their original
      order: the stability ECMA-262 requires of `Array.prototype.sort`. */
  ghost predicate Stable<T(!new)>(cmp: Comparator<T>, s: seq<T>, r: seq<T>) {
    forall p :: Tied(cmp, r, p) == Tied(cmp, s, p)
  }

  /** Inserts `x` into `s` behind every element the comparator does not rank
      above `x`, moving it forward only past elements ranked strictly above it. */
  function Insert<T>(cmp: Comparator<T>, s: seq<T>, x: T): (r: seq<T>)
    ensures |r| == |s| + 1
  {
    if s == [] then [x]
    else if cmp(s[|s| - 1], x) > 0 then Insert(cmp, s[..|s| - 1], x) + [s[|s| - 1]]
    else s + [x]
  }

  /** The stable sort: each element in turn is inserted into the sorted prefix
      before it. */
  function StableSort<T>(cmp: Comparator<T>, s: seq<T>): (r: seq<T>)
    ensures |r| == |s|
  {
    if s == [] then []
    else Insert(cmp, StableSort(cmp, s[..|s| - 1]), s[|s| - 1])
  }

  /** Insertion adds `x` to the multiset of `s`. */
  lemma {:induction false} InsertPermutes<T>(cmp: Comparator<T>, s: seq<T>, x: T)
    ensures multiset(Insert(cmp, s, x)) == multiset(s) + multiset{x}
    decreases |s|
  {
    if s != [] && cmp(s[|s| - 1], x) > 0 {
      InsertPermutes(cmp, s[..|s| - 1], x);
      assert s == s[..|s| - 1] + [s[|s| - 1]];
    }
  }

  /** The sorted result is a permutation of the input. */
  lemma {:induction false} StableSortPermutes<T>(cmp: Comparator<T>, s: seq<T>)
    ensures multiset(StableSort(cmp, s)) == multiset(s)
    decreases |s|
  {
    if s != [] {
      StableSortPermutes(cmp, s[..|s| - 1]);
      InsertPermutes(cmp, StableSort(cmp, s[..|s| - 1]), s[|s| - 1]);
      assert s == s[..|s| - 1] + [s[|s| - 1]];
    }
  }

  /** Gathering ties distributes over concatenation. */
  lemma {:induction false} TiedAppend<T>(cmp: Comparator<T>, a: seq<T>, b: seq<T>, p: T)
    ensures Tied(cmp, a + b, p) == Tied(cmp, a, p) + Tied(cmp, b, p)
    decreases |b|
  {
    if b == [] {
      assert a + b == a;
    } else {
      var ab := a + b;
      assert ab[..|ab| - 1] == a + b[..|b| - 1];
      assert ab[|ab| - 1] == b[|b| - 1];
      TiedAppend(cmp, a, b[..|b| - 1], p);
    }
  }

  /** Gathering the ties of a sequence extended by one element. */
  lemma TiedSnoc<T>(cmp: Comparator<T>, s: seq<T>, y: T, p: T)
    ensures Tied(cmp, s + [y], p) == Tied(cmp, s, p) + (if cmp(y, p) == 0 then [y] else [])
  {
    assert (s + [y])[..|s|] == s;
  }

  /** Insertion adds `x` and nothing else. */
  lemma {:induction false} InsertMembers<T>(cmp: Comparator<T>, s: seq<T>, x: T)
    ensures forall y :: y in Insert(cmp, s, x) <==> y == x || y in s
    decreases |s|
  {
    if s != [] && cmp(s[|s| - 1], x) > 0 {
      InsertMembers(cmp, s[..|s| - 1], x);
      assert s == s[..|s| - 1] + [s[|s| - 1]];
    }
  }

  /** Appending an element that no earlier element is ranked above keeps a
      sorted sequence sorted. */
  lemma SortedSnoc<T>(cmp: Comparator<T>, s: seq<T>, y: T)
    requires Sorted(cmp, s)
    requires forall i :: 0 <= i < |s| ==> cmp(s[i], y) <= 0
    ensures Sorted(cmp, s + [y])
  {
  }

  /** Inserting into a sorted sequence keeps it sorted. */
  lemma {:induction false} InsertSorted<T(!new)>(cmp: Comparator<T>, s: seq<T>, x: T)
    requires Consistent(cmp)
    requires Sorted(cmp, s)
    ensures Sorted(cmp, Insert(cmp, s, x))
    decreases |s|
  {
    if s != [] {
      var init, last := s[..|s| - 1], s[|s| - 1];
      if cmp(last, x) > 0 {
        assert Sorted(cmp, init);
        InsertSorted(cmp, init, x);
        var r := Insert(cmp, init, x);
        InsertMembers(cmp, init, x);
        forall i | 0 <= i < |r| ensures cmp(r[i], last) <= 0 {
          assert r[i] in r;
          if r[i] == x {
            assert cmp(x, last) < 0;
          } else {
            assert r[i] in init;
          }
        }
        SortedSnoc(cmp, r, last);
      } else {
        forall i | 0 <= i < |s| ensures cmp(s[i], x) <= 0 {
          assert cmp(s[i], last) <= 0 || i == |s| - 1;
        }
        SortedSnoc(cmp, s, x);
      }
    }
  }

  /** Inserting `x` adds it at the end of its class of ties and leaves every
      other class as it was. */
  lemma {:induction false} InsertTied<T(!new)>(cmp: Comparator<T>, s: seq<T>, x: T, p: T)
    requires Consistent(cmp)
    ensures Tied(cmp, Insert(cmp, s, x), p) == Tied(cmp, s, p) + (if cmp(x, p) == 0 then [x] else [])
    decreases |s|
  {
    var tx := if cmp(x, p) == 0 then [x] else [];
    if s == [] {
      TiedSnoc(cmp, [], x, p);
      assert [] + [x] == [x];
    } else {
      var init, last := s[..|s| - 1], s[|s| - 1];
      assert s == init + [last];
      var tl := if cmp(last, p) == 0 then [last] else [];
      var before := Tied(cmp, init, p);
      TiedSnoc(cmp, init, last, p);
      assert Tied(cmp, s, p) == before + tl;
      if cmp(last, x) > 0 {
        var r := Insert(cmp, init, x);
        assert Insert(cmp, s, x) == r + [last];
        InsertTied(cmp, init, x, p);
        TiedSnoc(cmp, r, last, p);
        if cmp(x, p) == 0 {
          assert cmp(p, x) == 0;
          assert cmp(last, p) != 0;
          assert tl == [];
        } else {
          assert tx == [];
        }
      } else {
        assert Insert(cmp, s, x) == s + [x];
        TiedSnoc(cmp, s, x, p);
      }
    }
  }

  /** The stable sort is ordered by its comparator. */
  lemma {:induction false} StableSortSorted<T(!new)>(cmp: Comparator<T>, s: seq<T>)
    requires Consistent(cmp)
    ensures Sorted(cmp, StableSort(cmp, s))
    decreases |s|
  {
    if s != [] {
      StableSortSorted(cmp, s[..|s| - 1]);
      InsertSorted(cmp, StableSort(cmp, s[..|s| - 1]), s[|s| - 1]);
    }
  }

  /** The stable sort keeps every class of ties in input order. */
  lemma {:induction false} StableSortStable<T(!new)>(cmp: Comparator<T>, s: seq<T>)
    requires Consistent(cmp)
    ensures Stable(cmp, s, StableSort(cmp, s))
    decreases |s|
  {
    if s != [] {
      var init, last := s[..|s| - 1], s[|s| - 1];
      StableSortStable(cmp, init);
      assert s == init + [last];
      forall p ensures Tied(cmp, StableSort(cmp, s), p) == Tied(cmp, s, p) {
        InsertTied(cmp, StableSort(cmp, init), last, p);
        TiedSnoc(cmp, init, last, p);
      }
    }
  }

  /** The array contents the insertion pass stops with: `done[..j]`, then `x`,
      then the rest of `done` moved up one place. */
  lemma Shifted<T>(done: seq<T>, x: T, j: nat, s: seq<T>)
    requires j <= |done| < |s|
    requires forall k :: 0 <= k < j ==> s[k] == done[k]
    requires s[j] == x
    requires forall k {:trigger done[k]} :: j <= k < |done| ==> s[k + 1] == done[k]
    ensures s[..|done| + 1] == done[..j] + [x] + done[j..]
  {
    var r := done[..j] + [x] + done[j..];
    forall k | 0 <= k <= |done| ensures s[k] == r[k] {
      if k > j {
        assert done[k - 1] == r[k];
      }
    }
  }

  /** Moves `a[i]` forward into the sorted prefix `a[..i]`, past every element
      ranked strictly above it: one pass of the insertion sort. */
  method InsertAt<T>(a: array<T>, i: nat, cmp: Comparator<T>)
    requires i < a.Length
    modifies a
    ensures a[..i + 1] == Insert(cmp, old(a[..i]), old(a[i]))
    ensures forall k :: i < k < a.Length ==> a[k] == old(a[k])
  {
    ghost var done := a[..i];
    var x := a[i];
    var j := i;
    while j > 0 && cmp(a[j - 1], x) > 0
      invariant 0 <= j <= i
      invariant forall k :: 0 <= k < j ==> a[k] == done[k]
      invariant a[j] == x
      invariant forall k {:trigger done[k]} :: j <= k < i ==> a[k + 1] == done[k] && cmp(done[k], x) > 0
      invariant forall k :: i < k < a.Length ==> a[k] == old(a[k])
    {
      a[j] := a[j - 1];
      a[j - 1] := x;
      j := j - 1;
    }
    InsertAtPoint(cmp, done, x, j);
    Shifted(done, x, j, a[..]);
  }

  /** Sorts `a` in place, stably, with the comparator `cmp`: the model of
      `list.sort(cmp)`. */
  method SortInPlace<T>(a: array<T>, cmp: Comparator<T>)
    modifies a
    ensures a[..] == StableSort(cmp, old(a[..]))
  {
    ghost var input := a[..];
    var i := 0;
    while i < a.Length
      invariant 0 <= i <= a.Length
      invariant a[..i] == StableSort(cmp, input[..i])
      invariant forall k :: i <= k < a.Length ==> a[k] == input[k]
    {
      ghost var before := a[..i];
      assert a[i] == input[i];
      InsertAt(a, i, cmp);
      assert input[..i + 1][..i] == input[..i] && input[..i + 1][i] == input[i];
      assert a[..i + 1] == Insert(cmp, before, input[i]);
      i := i + 1;
    }
    assert a[..a.Length] == a[..];
    assert input[..a.Length] == input;
  }

  /** Where insertion puts `x`: behind `s[..j]`, whose last element is not
      ranked above `x`, and in front of `s[j..]`, whose elements all are. */
  lemma {:induction false} InsertAtPoint<T>(cmp: Comparator<T>, s: seq<T>, x: T, j: nat)
    requires j <= |s|
    requires forall k :: j <= k < |s| ==> cmp(s[k], x) > 0
    requires j == 0 || cmp(s[j - 1], x) <= 0
    ensures Insert(cmp, s, x) == s[..j] + [x] + s[j..]
    decreases |s|
  {
    if j < |s| {
      var init, last := s[..|s| - 1], s[|s| - 1];
      assert cmp(last, x) > 0;
      assert Insert(cmp, s, x) == Insert(cmp, init, x) + [last];
      assert j == 0 || cmp(init[j - 1], x) <= 0;
      assert forall k :: j <= k < |init| ==> cmp(init[k], x) > 0;
      InsertAtPoint(cmp, init, x, j);
      assert init[..j] == s[..j] && init[j..] + [last] == s[j..];
    } else if s != [] {
      assert s[..j] == s && s[j..] == [];
    }
  }

  /** No element of `b` is ranked equal to `p`: its class of `p` is empty. */
  lemma {:induction false} TiedNone<T>(cmp: Comparator<T>, b: seq<T>, p: T)
    requires forall m :: 0 <= m < |b| ==> cmp(b[m], p) != 0
    ensures Tied(cmp, b, p) == []
    decreases |b|
  {
    if b != [] {
      TiedNone(cmp, b[..|b| - 1], p);
    }
  }

  /** The last element of a non-empty class of ties sits at an index behind
      which nothing else of that class follows. */
  lemma {:induction false} TiedLastIndex<T>(cmp: Comparator<T>, r: seq<T>, p: T) returns (k: nat)
    requires Tied(cmp, r, p) != []
    ensures k < |r| && cmp(r[k], p) == 0
    ensures r[k] == Tied(cmp, r, p)[|Tied(cmp, r, p)| - 1]
    ensures forall m :: k < m < |r| ==> cmp(r[m], p) != 0
    decreases |r|
  {
    var init, last := r[..|r| - 1], r[|r| - 1];
    if cmp(last, p) == 0 {
      k := |r| - 1;
    } else {
      k := TiedLastIndex(cmp, init, p);
    }
  }

  /** Removing one element of a sorted sequence leaves it sorted. */
  lemma SortedRemove<T>(cmp: Comparator<T>, r: seq<T>, k: nat)
    requires k < |r| && Sorted(cmp, r)
    ensures Sorted(cmp, r[..k] + r[k + 1..])
  {
    var r' := r[..k] + r[k + 1..];
    forall i, j | 0 <= i < j < |r'| ensures cmp(r'[i], r'[j]) <= 0 {
      var i0 := if i < k then i else i + 1;
      var j0 := if j < k then j else j + 1;
      assert r'[i] == r[i0] && r'[j] == r[j0];
    }
  }

  /** Nothing behind index `k` of `r` is tied with `x`, so nothing there is tied
      with anything `x` is tied with. */
  lemma TiedNoneBehind<T(!new)>(cmp: Comparator<T>, r: seq<T>, k: nat, x: T, q: T)
    requires Consistent(cmp)
    requires k < |r| && cmp(x, q) == 0
    requires forall m :: k < m < |r| ==> cmp(r[m], x) != 0
    ensures Tied(cmp, r[k + 1..], q) == []
  {
    var b := r[k + 1..];
    forall m | 0 <= m < |b| ensures cmp(b[m], q) != 0 {
      var y := b[m];
      assert y == r[k + 1 + m];
      if cmp(y, q) == 0 {
        assert false;
      }
    }
    TiedNone(cmp, b, q);
  }

  /** Taking `x` out from between `a` and `b`, when `x` is the last of its
      class of ties, takes `x` off the end of every class it belongs to. */
  lemma TiedAfterRemoval<T>(cmp: Comparator<T>, init: seq<T>, x: T, a: seq<T>, b: seq<T>, q: T)
    requires cmp(x, q) == 0 ==> Tied(cmp, b, q) == []
    requires Tied(cmp, (a + [x]) + b, q) == Tied(cmp, init + [x], q)
    ensures Tied(cmp, a + b, q) == Tied(cmp, init, q)
  {
    TiedAppend(cmp, a + [x], b, q);
    TiedSnoc(cmp, a, x, q);
    TiedAppend(cmp, a, b, q);
    TiedSnoc(cmp, init, x, q);
    var ta, tb, ti := Tied(cmp, a, q), Tied(cmp, b, q), Tied(cmp, init, q);
    assert Tied(cmp, a + b, q) == ta + tb;
    if cmp(x, q) == 0 {
      assert Tied(cmp, (a + [x]) + b, q) == (ta + [x]) + [];
      assert ta + [x] == ti + [x];
      assert ta == (ta + [x])[..|ta|];
      assert ta + tb == ta;
    } else {
      assert Tied(cmp, (a + [x]) + b, q) == (ta + []) + tb;
      assert Tied(cmp, init + [x], q) == ti + [];
      assert ta + [] == ta && ti + [] == ti;
      assert ta + tb == ti;
    }
  }

  /** Taking the last element of `x`'s class out of a stable arrangement of
      `init + [x]` leaves a stable arrangement of `init`. */
  lemma RemovedStable<T(!new)>(cmp: Comparator<T>, init: seq<T>, x: T, r: seq<T>, k: nat)
    requires Consistent(cmp)
    requires k < |r| && r[k] == x
    requires forall m :: k < m < |r| ==> cmp(r[m], x) != 0
    requires Stable(cmp, init + [x], r)
    ensures Stable(cmp, init, r[..k] + r[k + 1..])
  {
    assert r == (r[..k] + [x]) + r[k + 1..];
    forall q ensures Tied(cmp, r[..k] + r[k + 1..], q) == Tied(cmp, init, q) {
      assert Tied(cmp, r, q) == Tied(cmp, init + [x], q);
      if cmp(x, q) == 0 {
        TiedNoneBehind(cmp, r, k, x, q);
      }
      TiedAfterRemoval(cmp, init, x, r[..k], r[k + 1..], q);
    }
  }

  /** In a sorted sequence, the elements behind `x` that do not tie with it
      are ranked after it. */
  lemma RankedBehind<T(!new)>(cmp: Comparator<T>, r: seq<T>, k: nat, x: T)
    requires Consistent(cmp)
    requires Sorted(cmp, r)
    requires k < |r| && r[k] == x
    requires forall m :: k < m < |r| ==> cmp(r[m], x) != 0
    ensures forall m :: k < m < |r| ==> cmp(r[m], x) > 0
    ensures k > 0 ==> cmp(r[k - 1], x) <= 0
  {
    forall m | k < m < |r| ensures cmp(r[m], x) > 0 {
      assert cmp(x, r[m]) <= 0;
    }
  }

  /** In a sorted sequence, the last element of `x`'s class is where insertion
      would put `x` back. */
  lemma ReinsertLast<T>(cmp: Comparator<T>, r: seq<T>, k: nat, x: T)
    requires k < |r| && r[k] == x
    requires forall m :: k < m < |r| ==> cmp(r[m], x) > 0
    requires k > 0 ==> cmp(r[k - 1], x) <= 0
    ensures Insert(cmp, r[..k] + r[k + 1..], x) == r
  {
    var r' := r[..k] + r[k + 1..];
    forall m | k <= m < |r'| ensures cmp(r'[m], x) > 0 {
      assert r'[m] == r[m + 1];
    }
    if k > 0 {
      assert r'[k - 1] == r[k - 1];
    }
    InsertAtPoint(cmp, r', x, k);
    assert r'[..k] == r[..k] && r'[k..] == r[k + 1..];
    assert r == r[..k] + [x] + r[k + 1..];
  }

  /** Every element is tied with itself, so the class of the last element of
      a non-empty sequence is not empty. */
  lemma TiedOwnClass<T(!new)>(cmp: Comparator<T>, r: seq<T>)
    requires Consistent(cmp)
    ensures r != [] ==> Tied(cmp, r, r[|r| - 1]) != []
  {
    if r != [] {
      var p := r[|r| - 1];
      assert cmp(p, p) == 0;
      TiedSnoc(cmp, r[..|r| - 1], p, p);
      assert r[..|r| - 1] + [p] == r;
    }
  }

  /** The stable sort is the only sequence that is ordered by the comparator
      and keeps every class of ties of `s` in input order: any stable sort,
      whatever its algorithm, given a consistent comparator, returns exactly
      `StableSort(cmp, s)`. */
  lemma {:induction false} StableSortUnique<T(!new)>(cmp: Comparator<T>, s: seq<T>, r: seq<T>)
    requires Consistent(cmp)
    requires Sorted(cmp, r) && Stable(cmp, s, r)
    ensures r == StableSort(cmp, s)
    decreases |s|
  {
    if s == [] {
      TiedOwnClass(cmp, r);
      if r != [] {
        assert false;
      }
    } else {
      var init, x := s[..|s| - 1], s[|s| - 1];
      assert s == init + [x];
      assert cmp(x, x) == 0;
      TiedSnoc(cmp, init, x, x);
      assert Tied(cmp, r, x) == Tied(cmp, s, x);
      var k := TiedLastIndex(cmp, r, x);
      assert r[k] == x;
      SortedRemove(cmp, r, k);
      RemovedStable(cmp, init, x, r, k);
      StableSortUnique(cmp, init, r[..k] + r[k + 1..]);
      RankedBehind(cmp, r, k, x);
      ReinsertLast(cmp, r, k, x);
    }
  }

  /** `s` backwards. */
  function Reverse<T>(s: seq<T>): (r: seq<T>)
    ensures |r| == |s|
    ensures forall i :: 0 <= i < |s| ==> r[i] == s[|s| - 1 - i]
  {
    if s == [] then [] else [s[|s| - 1]] + Reverse(s[..|s| - 1])
  }

  /** Reversing a sequence reverses each of its classes of ties. */
  lemma {:induction false} TiedReverse<T>(cmp: Comparator<T>, s: seq<T>, p: T)
    ensures Tied(cmp, Reverse(s), p) == Reverse(Tied(cmp, s, p))
    decreases |s|
  {
    if s != [] {
      var init, last := s[..|s| - 1], s[|s| - 1];
      var tl := if cmp(last, p) == 0 then [last] else [];
      TiedReverse(cmp, init, p);
      TiedAppend(cmp, [last], Reverse(init), p);
      TiedSnoc(cmp, [], last, p);
      assert [] + [last] == [last];
      var t := Tied(cmp, init, p);
      assert Tied(cmp, s, p) == t + tl;
      assert Reverse(t + tl) == tl + Reverse(t);
    }
  }

  /** Two comparators that rank the same elements equal to `p` gather the
      same class of `p`. */
  lemma {:induction false} TiedSameTies<T>(cmp1: Comparator<T>, cmp2: Comparator<T>, s: seq<T>, p: T)
    requires forall x :: cmp1(x, p) == 0 <==> cmp2(x, p) == 0
    ensures Tied(cmp1, s, p) == Tied(cmp2, s, p)
    decreases |s|
  {
    if s != [] {
      TiedSameTies(cmp1, cmp2, s[..|s| - 1], p);
    }
  }

  /** The class of ties of `p` holds only elements of `s` that tie with `p`. */
  lemma {:induction false} TiedMembers<T>(cmp: Comparator<T>, s: seq<T>, p: T)
    ensures forall x :: x in Tied(cmp, s, p) ==> x in s && cmp(x, p) == 0
    decreases |s|
  {
    if s != [] {
      TiedMembers(cmp, s[..|s| - 1], p);
      assert forall x :: x in s[..|s| - 1] ==> x in s;
    }
  }

  /** An element of `s` that ties with `p` has a place in the class of `p`. */
  lemma {:induction false} TiedIndexOf<T>(cmp: Comparator<T>, s: seq<T>, p: T, i: nat) returns (a: nat)
    requires i < |s| && cmp(s[i], p) == 0
    ensures a < |Tied(cmp, s, p)| && Tied(cmp, s, p)[a] == s[i]
    decreases |s|
  {
    var init := s[..|s| - 1];
    if i == |s| - 1 {
      a := |Tied(cmp, init, p)|;
    } else {
      a := TiedIndexOf(cmp, init, p, i);
    }
  }

  /** Two elements of `s` that tie with `p` appear in the class of `p` in the
      order they have in `s`. */
  lemma {:induction false} TiedPositions<T>(cmp: Comparator<T>, s: seq<T>, p: T, i: nat, j: nat) returns (a: nat, b: nat)
    requires i < j < |s| && cmp(s[i], p) == 0 && cmp(s[j], p) == 0
    ensures a < b < |Tied(cmp, s, p)|
    ensures Tied(cmp, s, p)[a] == s[i] && Tied(cmp, s, p)[b] == s[j]
    decreases |s|
  {
    var init := s[..|s| - 1];
    if j == |s| - 1 {
      a := TiedIndexOf(cmp, init, p, i);
      b := |Tied(cmp, init, p)|;
    } else {
      a, b := TiedPositions(cmp, init, p, i, j);
    }
  }

  /** The sort of a list with one more element inserts that element into the
      sort of the rest. */
  lemma StableSortSnoc<T>(cmp: Comparator<T>, s: seq<T>, x: T)
    ensures StableSort(cmp, s + [x]) == Insert(cmp, StableSort(cmp, s), x)
  {
    assert (s + [x])[..|s|] == s;
  }

  /** Two sorted sequences, every element of the first ranked no later than
      every element of the second, concatenate to a sorted sequence. */
  lemma SortedAppend<T>(cmp: Comparator<T>, a: seq<T>, b: seq<T>)
    requires Sorted(cmp, a) && Sorted(cmp, b)
    requires forall i, j :: 0 <= i < |a| && 0 <= j < |b| ==> cmp(a[i], b[j]) <= 0
    ensures Sorted(cmp, a + b)
  {
    var ab := a + b;
    forall i, j | 0 <= i < j < |ab| ensures cmp(ab[i], ab[j]) <= 0 {
      if j < |a| {
        assert ab[i] == a[i] && ab[j] == a[j];
      } else if i >= |a| {
        assert ab[i] == b[i - |a|] && ab[j] == b[j - |a|];
      } else {
        assert ab[i] == a[i] && ab[j] == b[j - |a|];
      }
    }
  }
}
