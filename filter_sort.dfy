/**
 * The catalog filter and sort panel (`FilterSort`): a conjunctive filter over
 * category, base colour and refraction type, an optional stable sort on one
 * metric, the option lists offered to the user, the list of active filters
 * with its badge count, and the setters that change one selection at a time.
 */
module FilterSort {

  import opened Wrappers
  import opened Catalog

  /** The selection value that disables a clause. */
  const All: string := "all"

  /** The `filterType` names the setters understand. */
  const CategoryFilter: string := "category"
  const BaseColorFilter: string := "baseColor"
  const RefractionTypeFilter: string := "refractionType"

  datatype SortKey = RefractionRate | ArtClarity | Complexity

  datatype SortDirection = Asc | Desc

  /** The three selections and the `hideCategory` prop: everything the filter reads. */
  datatype Criteria = Criteria(category: string, baseColor: string, refractionType: string, hideCategory: bool)

  // ---------------------------------------------------------------------------
  // Subsequences
  // ---------------------------------------------------------------------------

  /** `r` can be obtained from `s` by deleting elements, keeping the order of the rest. */
  ghost predicate IsSubsequence<T>(r: seq<T>, s: seq<T>)
    decreases |s|
  {
    if r == [] then true
    else if s == [] then false
    else
      (r[|r| - 1] == s[|s| - 1] && IsSubsequence(r[..|r| - 1], s[..|s| - 1]))
      || IsSubsequence(r, s[..|s| - 1])
  }

  // ---------------------------------------------------------------------------
  // Filtering
  // ---------------------------------------------------------------------------

  /** The filter predicate: a clause holds when its selection is "all" or equal to the variant's. */
  predicate Matches(v: Variant, c: Criteria): (b: bool)
    ensures c.category == All && c.baseColor == All && c.refractionType == All ==> b
    ensures b && !c.hideCategory && c.category != All ==> v.category == c.category
    ensures b && c.baseColor != All ==> v.baseColor.name == c.baseColor
    ensures b && c.refractionType != All ==> v.refractionType == c.refractionType
    ensures v.category == c.category && v.baseColor.name == c.baseColor && v.refractionType == c.refractionType ==> b
  {
    && (c.hideCategory || c.category == All || v.category == c.category)
    && (c.baseColor == All || v.baseColor.name == c.baseColor)
    && (c.refractionType == All || v.refractionType == c.refractionType)
  }

  /** `variants.filter(...)`: the matching variants with their multiplicity, in input order. */
  function Filtered(vs: seq<Variant>, c: Criteria): (r: seq<Variant>)
    ensures |r| <= |vs|
    ensures forall k :: 0 <= k < |r| ==> Matches(r[k], c)
  {
    if vs == [] then []
    else Filtered(vs[..|vs| - 1], c) + (if Matches(vs[|vs| - 1], c) then [vs[|vs| - 1]] else [])
  }

  /** The filter keeps every matching variant as often as it occurs, and nothing else. */
  lemma {:induction false} FilteredCounts(vs: seq<Variant>, c: Criteria, v: Variant)
    ensures multiset(Filtered(vs, c))[v] == if Matches(v, c) then multiset(vs)[v] else 0
  {
    if vs != [] {
      var init, last := vs[..|vs| - 1], vs[|vs| - 1];
      FilteredCounts(init, c, v);
      assert vs == init + [last];
    }
  }

  /** The filter keeps input order. */
  lemma {:induction false} FilteredIsSubsequence(vs: seq<Variant>, c: Criteria)
    ensures IsSubsequence(Filtered(vs, c), vs)
  {
    if vs != [] {
      var init, last := vs[..|vs| - 1], vs[|vs| - 1];
      var r := Filtered(vs, c);
      FilteredIsSubsequence(init, c);
      if Matches(last, c) {
        assert r == Filtered(init, c) + [last];
        assert r[..|r| - 1] == Filtered(init, c) && r[|r| - 1] == last;
      } else {
        assert r == Filtered(init, c);
      }
    }
  }

  /** A sequence whose every element matches passes the filter unchanged. */
  lemma {:induction false} FilteredAllMatch(vs: seq<Variant>, c: Criteria)
    requires forall k :: 0 <= k < |vs| ==> Matches(vs[k], c)
    ensures Filtered(vs, c) == vs
  {
    if vs != [] {
      FilteredAllMatch(vs[..|vs| - 1], c);
      assert vs == vs[..|vs| - 1] + [vs[|vs| - 1]];
    }
  }

  /** Filtering twice with the same selections is filtering once. */
  lemma FilteredIdempotent(vs: seq<Variant>, c: Criteria)
    ensures Filtered(Filtered(vs, c), c) == Filtered(vs, c)
  {
    FilteredAllMatch(Filtered(vs, c), c);
  }

  // ---------------------------------------------------------------------------
  // Sorting
  // ---------------------------------------------------------------------------

  function KeyValue(v: Variant, key: SortKey): int {
    match key
    case RefractionRate => v.refractionRate
    case ArtClarity => v.artClarity
    case Complexity => v.complexity
  }

  /** The comparator passed to `sort`: negative when `a` goes first, positive when `b` does. */
  function Compare(a: Variant, b: Variant, key: SortKey, dir: SortDirection): (r: int)
    ensures r == 0 <==> KeyValue(a, key) == KeyValue(b, key)
    ensures dir == Asc ==> (r < 0 <==> KeyValue(a, key) < KeyValue(b, key))
    ensures dir == Desc ==> (r < 0 <==> KeyValue(a, key) > KeyValue(b, key))
  {
    var comparison := KeyValue(a, key) - KeyValue(b, key);
    if dir == Asc then comparison else -comparison
  }

  ghost predicate SortedBy(s: seq<Variant>, key: SortKey, dir: SortDirection) {
    forall i, j :: 0 <= i < j < |s| ==> Compare(s[i], s[j], key, dir) <= 0
  }

  /** The variants of `s` whose key is `value`, in the order of `s`: one group of ties. */
  function Ties(s: seq<Variant>, key: SortKey, value: int): seq<Variant> {
    if s == [] then []
    else Ties(s[..|s| - 1], key, value) + (if KeyValue(s[|s| - 1], key) == value then [s[|s| - 1]] else [])
  }

  /**
   * Inserts `x` into `t` after every element that does not compare greater
   * than it, so that `x` stays behind its ties.
   */
  function Insert(x: Variant, t: seq<Variant>, key: SortKey, dir: SortDirection): (r: seq<Variant>)
    ensures |r| == |t| + 1
  {
    if t == [] || Compare(t[|t| - 1], x, key, dir) <= 0 then t + [x]
    else Insert(x, t[..|t| - 1], key, dir) + [t[|t| - 1]]
  }

  /** The stable sort by the comparator, as insertion of each element in turn. */
  function StableSorted(s: seq<Variant>, key: SortKey, dir: SortDirection): (r: seq<Variant>)
    ensures |r| == |s|
  {
    if s == [] then []
    else Insert(s[|s| - 1], StableSorted(s[..|s| - 1], key, dir), key, dir)
  }

  lemma {:induction false} InsertPermutes(x: Variant, t: seq<Variant>, key: SortKey, dir: SortDirection)
    ensures multiset(Insert(x, t, key, dir)) == multiset(t) + multiset{x}
    decreases |t|
  {
    if t != [] && Compare(t[|t| - 1], x, key, dir) > 0 {
      InsertPermutes(x, t[..|t| - 1], key, dir);
      assert t == t[..|t| - 1] + [t[|t| - 1]];
    }
  }

  /** The sort is a permutation of its input. */
  lemma {:induction false} StableSortedPermutes(s: seq<Variant>, key: SortKey, dir: SortDirection)
    ensures multiset(StableSorted(s, key, dir)) == multiset(s)
  {
    if s != [] {
      var init, last := s[..|s| - 1], s[|s| - 1];
      var sorted := StableSorted(init, key, dir);
      StableSortedPermutes(init, key, dir);
      InsertPermutes(last, sorted, key, dir);
      assert s == init + [last];
      calc {
        multiset(StableSorted(s, key, dir));
        multiset(Insert(last, sorted, key, dir));
        multiset(sorted) + multiset{last};
        multiset(init) + multiset{last};
        multiset(s);
      }
    }
  }

  /**
   * Where the insertion ends up: after the prefix `t[..j]` of elements that do
   * not compare greater, before the rest, which all compare greater.
   */
  lemma {:induction false} InsertAt(x: Variant, t: seq<Variant>, j: nat, k: nat, key: SortKey, dir: SortDirection)
    requires j <= |t| && k <= |t|
    requires forall m :: j <= m < |t| ==> Compare(t[m], x, key, dir) > 0
    requires j == 0 || Compare(t[j - 1], x, key, dir) <= 0
    ensures Insert(x, t, key, dir)[k] == if k < j then t[k] else if k == j then x else t[k - 1]
    decreases |t|
  {
    if j == |t| {
      assert Insert(x, t, key, dir) == t + [x];
    } else {
      var init, last := t[..|t| - 1], t[|t| - 1];
      assert Compare(last, x, key, dir) > 0;
      assert Insert(x, t, key, dir) == Insert(x, init, key, dir) + [last];
      if k < |t| {
        InsertAt(x, init, j, k, key, dir);
      }
    }
  }

  /** The elements of an insertion are the inserted one and those of the target. */
  lemma {:induction false} InsertMembers(x: Variant, t: seq<Variant>, key: SortKey, dir: SortDirection)
    ensures forall y :: y in Insert(x, t, key, dir) <==> y == x || y in t
    decreases |t|
  {
    if t != [] && Compare(t[|t| - 1], x, key, dir) > 0 {
      var init := t[..|t| - 1];
      InsertMembers(x, init, key, dir);
      assert t == init + [t[|t| - 1]];
    }
  }

  lemma {:induction false} InsertSorted(x: Variant, t: seq<Variant>, key: SortKey, dir: SortDirection)
    requires SortedBy(t, key, dir)
    ensures SortedBy(Insert(x, t, key, dir), key, dir)
    decreases |t|
  {
    if t != [] && Compare(t[|t| - 1], x, key, dir) > 0 {
      var init, last := t[..|t| - 1], t[|t| - 1];
      SortedInit(t, key, dir);
      InsertSorted(x, init, key, dir);
      var r := Insert(x, init, key, dir);
      InsertMembers(x, init, key, dir);
      assert Compare(x, last, key, dir) < 0;
      forall k | 0 <= k < |r| ensures Compare(r[k], last, key, dir) <= 0 {
        assert r[k] in r;
        if r[k] != x {
          var m :| 0 <= m < |init| && init[m] == r[k];
          assert t[m] == r[k];
        }
      }
      SortedSnoc(r, last, key, dir);
      assert Insert(x, t, key, dir) == r + [last];
    }
  }

  /** Appending a variant that no earlier one should follow keeps a list sorted. */
  lemma SortedSnoc(r: seq<Variant>, last: Variant, key: SortKey, dir: SortDirection)
    requires SortedBy(r, key, dir)
    requires forall k :: 0 <= k < |r| ==> Compare(r[k], last, key, dir) <= 0
    ensures SortedBy(r + [last], key, dir)
  {
    var s := r + [last];
    forall i, j | 0 <= i < j < |s| ensures Compare(s[i], s[j], key, dir) <= 0 {
      assert s[i] == r[i];
      if j < |r| {
        assert s[j] == r[j];
      }
    }
  }

  /** The sort orders the variants by the comparator. */
  lemma {:induction false} StableSortedIsSorted(s: seq<Variant>, key: SortKey, dir: SortDirection)
    ensures SortedBy(StableSorted(s, key, dir), key, dir)
  {
    if s != [] {
      StableSortedIsSorted(s[..|s| - 1], key, dir);
      InsertSorted(s[|s| - 1], StableSorted(s[..|s| - 1], key, dir), key, dir);
    }
  }

  /** Unfolds `Ties` once, at the last element. */
  lemma TiesSnoc(s: seq<Variant>, x: Variant, key: SortKey, value: int)
    ensures Ties(s + [x], key, value) == Ties(s, key, value) + (if KeyValue(x, key) == value then [x] else [])
  {
    assert (s + [x])[..|s + [x]| - 1] == s;
  }

  /** When `x` moves in front of the last element `last`, that element's tie group gains nothing. */
  lemma InsertTiesStep(x: Variant, init: seq<Variant>, last: Variant, key: SortKey, dir: SortDirection, value: int)
    requires Compare(last, x, key, dir) > 0
    requires Ties(Insert(x, init, key, dir), key, value)
      == Ties(init, key, value) + (if KeyValue(x, key) == value then [x] else [])
    ensures Ties(Insert(x, init + [last], key, dir), key, value)
      == Ties(init + [last], key, value) + (if KeyValue(x, key) == value then [x] else [])
  {
    var xs := if KeyValue(x, key) == value then [x] else [];
    var lasts := if KeyValue(last, key) == value then [last] else [];
    var t := init + [last];
    var inserted := Insert(x, init, key, dir);
    assert t[..|t| - 1] == init && t[|t| - 1] == last;
    assert Insert(x, t, key, dir) == inserted + [last];
    TiesSnoc(inserted, last, key, value);
    TiesSnoc(init, last, key, value);
    if KeyValue(x, key) == value {
      assert KeyValue(last, key) != value;
      assert Ties(inserted + [last], key, value) == Ties(inserted, key, value);
      assert Ties(t, key, value) == Ties(init, key, value);
    } else {
      assert Ties(inserted, key, value) == Ties(init, key, value);
      assert Ties(t, key, value) + xs == Ties(t, key, value);
    }
  }

  lemma {:induction false} InsertTies(x: Variant, t: seq<Variant>, key: SortKey, dir: SortDirection, value: int)
    ensures Ties(Insert(x, t, key, dir), key, value)
      == Ties(t, key, value) + (if KeyValue(x, key) == value then [x] else [])
    decreases |t|
  {
    if t == [] || Compare(t[|t| - 1], x, key, dir) <= 0 {
      assert Insert(x, t, key, dir) == t + [x];
      TiesSnoc(t, x, key, value);
    } else {
      var init, last := t[..|t| - 1], t[|t| - 1];
      assert t == init + [last];
      InsertTies(x, init, key, dir, value);
      InsertTiesStep(x, init, last, key, dir, value);
    }
  }

  /** Stability: within every group of equal keys the sort keeps the input order. */
  lemma {:induction false} StableSortedKeepsTies(s: seq<Variant>, key: SortKey, dir: SortDirection, value: int)
    ensures Ties(StableSorted(s, key, dir), key, value) == Ties(s, key, value)
  {
    if s != [] {
      StableSortedKeepsTies(s[..|s| - 1], key, dir, value);
      InsertTies(s[|s| - 1], StableSorted(s[..|s| - 1], key, dir), key, dir, value);
    }
  }

  /** Dropping the last element of a sorted sequence leaves it sorted. */
  lemma SortedInit(s: seq<Variant>, key: SortKey, dir: SortDirection)
    requires s != [] && SortedBy(s, key, dir)
    ensures SortedBy(s[..|s| - 1], key, dir)
  {
    var init := s[..|s| - 1];
    forall i, j | 0 <= i < j < |init| ensures Compare(init[i], init[j], key, dir) <= 0 {
      assert init[i] == s[i] && init[j] == s[j];
    }
  }

  /** Sorting an already sorted sequence changes nothing. */
  lemma {:induction false} StableSortedOfSorted(s: seq<Variant>, key: SortKey, dir: SortDirection)
    requires SortedBy(s, key, dir)
    ensures StableSorted(s, key, dir) == s
  {
    if s != [] {
      var init, last := s[..|s| - 1], s[|s| - 1];
      SortedInit(s, key, dir);
      StableSortedOfSorted(init, key, dir);
      if init != [] {
        assert init[|init| - 1] == s[|s| - 2];
        SortedPair(s, |s| - 2, |s| - 1, key, dir);
      }
      InsertAtEnd(last, init, key, dir);
      calc {
        StableSorted(s, key, dir);
        Insert(last, StableSorted(init, key, dir), key, dir);
        Insert(last, init, key, dir);
        init + [last];
        { assert s == init + [last]; }
        s;
      }
    }
  }

  lemma SortedPair(s: seq<Variant>, i: nat, j: nat, key: SortKey, dir: SortDirection)
    requires SortedBy(s, key, dir) && i < j < |s|
    ensures Compare(s[i], s[j], key, dir) <= 0
  {
  }

  /** Inserting a variant that no element of the list should follow appends it. */
  lemma InsertAtEnd(x: Variant, t: seq<Variant>, key: SortKey, dir: SortDirection)
    requires t == [] || Compare(t[|t| - 1], x, key, dir) <= 0
    ensures Insert(x, t, key, dir) == t + [x]
  {
  }

  /** "asc" orders by non-decreasing key, "desc" by non-increasing key. */
  lemma SortedByDirection(s: seq<Variant>, key: SortKey, dir: SortDirection)
    requires SortedBy(s, key, dir)
    ensures dir == Asc ==> forall i, j :: 0 <= i < j < |s| ==> KeyValue(s[i], key) <= KeyValue(s[j], key)
    ensures dir == Desc ==> forall i, j :: 0 <= i < j < |s| ==> KeyValue(s[i], key) >= KeyValue(s[j], key)
  {
    forall i, j | 0 <= i < j < |s|
      ensures Compare(s[i], s[j], key, dir) <= 0
    {
    }
  }

  /** Sorting one more element of a prefix inserts it into the sorted prefix. */
  lemma StableSortedPrefix(s: seq<Variant>, i: nat, key: SortKey, dir: SortDirection)
    requires i < |s|
    ensures StableSorted(s[..i + 1], key, dir) == Insert(s[i], StableSorted(s[..i], key, dir), key, dir)
  {
    assert s[..i + 1][..i] == s[..i];
  }

  /** The JavaScript array that `filter` returns, as a fresh array holding `s`. */
  method ToArray(s: seq<Variant>) returns (a: array<Variant>)
    ensures fresh(a) && a[..] == s
  {
    a := new Variant[|s|];
    for k := 0 to |s|
      invariant a[..k] == s[..k]
    {
      a[k] := s[k];
    }
  }

  /**
   * One step of the insertion sort: `a[i]` moves left past the elements of the
   * sorted prefix `a[..i]` that compare greater, which shift one place right.
   */
  method InsertLast(a: array<Variant>, i: nat, key: SortKey, dir: SortDirection)
    requires i < a.Length
    modifies a
    ensures a[..i + 1] == Insert(old(a[i]), old(a[..i]), key, dir)
    ensures forall k :: i < k < a.Length ==> a[k] == old(a[k])
  {
    ghost var sorted := a[..i];
    var x := a[i];
    var j := i;
    while j > 0 && Compare(a[j - 1], x, key, dir) > 0
      invariant 0 <= j <= i
      invariant forall k :: 0 <= k < j ==> a[k] == sorted[k]
      invariant forall k :: j < k <= i ==> a[k] == sorted[k - 1]
      invariant forall k :: j <= k < i ==> Compare(sorted[k], x, key, dir) > 0
      invariant forall k :: i < k < a.Length ==> a[k] == old(a[k])
    {
      a[j] := a[j - 1];
      j := j - 1;
    }
    a[j] := x;
    forall k | 0 <= k <= i ensures a[k] == Insert(x, sorted, key, dir)[k] {
      InsertAt(x, sorted, j, k, key, dir);
      if k < j {
        assert a[k] == sorted[k];
      } else if k > j {
        assert a[k] == sorted[k - 1];
      }
    }
  }

  /**
   * `filtered.sort(comparator)`: sorts the array in place, stably. Written as
   * an insertion sort that shifts the elements comparing greater one place right.
   */
  method SortInPlace(a: array<Variant>, key: SortKey, dir: SortDirection)
    modifies a
    ensures a[..] == StableSorted(old(a[..]), key, dir)
  {
    ghost var s := a[..];
    var i := 0;
    while i < a.Length
      invariant 0 <= i <= a.Length
      invariant a[..i] == StableSorted(s[..i], key, dir)
      invariant forall k :: i <= k < a.Length ==> a[k] == s[k]
    {
      StableSortedPrefix(s, i, key, dir);
      InsertLast(a, i, key, dir);
      i := i + 1;
    }
    assert s[..a.Length] == s;
  }

  // ---------------------------------------------------------------------------
  // The filter-then-sort pipeline
  // ---------------------------------------------------------------------------

  /** What the effect hands to `onFilteredVariantsChange`. */
  function Outcome(vs: seq<Variant>, c: Criteria, sortBy: Option<SortKey>, dir: SortDirection): (r: seq<Variant>)
    ensures |r| <= |vs|
    ensures multiset(r) == multiset(Filtered(vs, c))
    ensures forall k :: 0 <= k < |r| ==> Matches(r[k], c)
    ensures sortBy.None? ==> r == Filtered(vs, c)
    ensures sortBy.Some? ==> SortedBy(r, sortBy.value, dir)
    ensures sortBy.Some? ==> forall value :: Ties(r, sortBy.value, value) == Ties(Filtered(vs, c), sortBy.value, value)
  {
    var filtered := Filtered(vs, c);
    if sortBy.None? then filtered
    else
      var r := StableSorted(filtered, sortBy.value, dir);
      StableSortedIsSorted(filtered, sortBy.value, dir);
      StableSortedPermutes(filtered, sortBy.value, dir);
      assert forall value :: Ties(r, sortBy.value, value) == Ties(filtered, sortBy.value, value) by {
        forall value ensures Ties(r, sortBy.value, value) == Ties(filtered, sortBy.value, value) {
          StableSortedKeepsTies(filtered, sortBy.value, dir, value);
        }
      }
      assert forall k :: 0 <= k < |r| ==> Matches(r[k], c) by {
        forall k | 0 <= k < |r| ensures Matches(r[k], c) {
          assert r[k] in multiset(r);
          assert r[k] in filtered;
        }
      }
      r
  }

  /** Running the pipeline on its own output with the same settings returns it unchanged. */
  lemma OutcomeIdempotent(vs: seq<Variant>, c: Criteria, sortBy: Option<SortKey>, dir: SortDirection)
    ensures Outcome(Outcome(vs, c, sortBy, dir), c, sortBy, dir) == Outcome(vs, c, sortBy, dir)
  {
    var r := Outcome(vs, c, sortBy, dir);
    FilteredAllMatch(r, c);
    if sortBy.Some? {
      StableSortedOfSorted(r, sortBy.value, dir);
    }
  }

  /** With every selection "all" and no sort, the output is the input. */
  lemma OutcomeOfInitialState(vs: seq<Variant>, hideCategory: bool)
    ensures Outcome(vs, Criteria(All, All, All, hideCategory), None, Desc) == vs
  {
    FilteredAllMatch(vs, Criteria(All, All, All, hideCategory));
  }

  // ---------------------------------------------------------------------------
  // Option lists: `categories` and `baseColors`
  // ---------------------------------------------------------------------------

  /** Keeps each element whose key no earlier element has: first occurrence wins. */
  function FirstByKey<T(==), K(==)>(s: seq<T>, key: T -> K): (r: seq<T>)
    ensures |r| <= |s|
    ensures forall x :: x in r ==> x in s
  {
    if s == [] then []
    else
      var init, last := s[..|s| - 1], s[|s| - 1];
      FirstByKey(init, key) + (if exists k :: 0 <= k < |init| && key(init[k]) == key(last) then [] else [last])
  }

  /** No earlier element of `s` has the key of `s[i]`. */
  ghost predicate FirstOccurrence<T, K>(s: seq<T>, key: T -> K, i: int)
    requires 0 <= i < |s|
  {
    forall j :: 0 <= j < i ==> key(s[j]) != key(s[i])
  }

  /** Whether the last element's key already occurs before it. */
  predicate SeenBefore<T, K(==)>(s: seq<T>, key: T -> K)
    requires s != []
  {
    exists k :: 0 <= k < |s| - 1 && key(s[k]) == key(s[|s| - 1])
  }

  /** Unfolds `FirstByKey` once, at the last element. */
  lemma FirstByKeySnoc<T, K>(s: seq<T>, key: T -> K)
    requires s != []
    ensures FirstByKey(s, key)
      == FirstByKey(s[..|s| - 1], key) + (if SeenBefore(s, key) then [] else [s[|s| - 1]])
  {
    var init := s[..|s| - 1];
    assert SeenBefore(s, key) <==> exists k :: 0 <= k < |init| && key(init[k]) == key(s[|s| - 1]) by {
      if SeenBefore(s, key) {
        var k :| 0 <= k < |s| - 1 && key(s[k]) == key(s[|s| - 1]);
        assert init[k] == s[k];
      }
    }
  }

  /** The de-duplication keeps input order. */
  lemma {:induction false} FirstByKeySubsequence<T, K>(s: seq<T>, key: T -> K)
    ensures IsSubsequence(FirstByKey(s, key), s)
  {
    if s != [] {
      var init, last := s[..|s| - 1], s[|s| - 1];
      var ri, r := FirstByKey(init, key), FirstByKey(s, key);
      FirstByKeySubsequence(init, key);
      FirstByKeySnoc(s, key);
      if !SeenBefore(s, key) {
        assert r[..|r| - 1] == ri && r[|r| - 1] == last;
      } else {
        assert r == ri;
        assert IsSubsequence(ri, init);
        assert IsSubsequence(r, init);
      }
    }
  }

  /** No two kept elements share a key. */
  lemma {:induction false} FirstByKeyDistinct<T, K>(s: seq<T>, key: T -> K)
    ensures forall i, j :: 0 <= i < j < |FirstByKey(s, key)| ==> key(FirstByKey(s, key)[i]) != key(FirstByKey(s, key)[j])
  {
    if s != [] {
      var init, last := s[..|s| - 1], s[|s| - 1];
      var ri, r := FirstByKey(init, key), FirstByKey(s, key);
      FirstByKeyDistinct(init, key);
      FirstByKeySnoc(s, key);
      if !SeenBefore(s, key) {
        forall i, j | 0 <= i < j < |r| ensures key(r[i]) != key(r[j]) {
          assert r[i] == ri[i];
          if j == |r| - 1 {
            assert ri[i] in ri;
            var m :| 0 <= m < |init| && init[m] == ri[i];
            assert s[m] == init[m];
          } else {
            assert r[j] == ri[j];
          }
        }
      }
    }
  }

  /** Every kept element is the first of its key in the input. */
  lemma {:induction false} FirstByKeyFirst<T, K>(s: seq<T>, key: T -> K, k: nat)
    requires k < |FirstByKey(s, key)|
    ensures exists i :: 0 <= i < |s| && FirstByKey(s, key)[k] == s[i] && FirstOccurrence(s, key, i)
  {
    var init, last := s[..|s| - 1], s[|s| - 1];
    var ri, r := FirstByKey(init, key), FirstByKey(s, key);
    FirstByKeySnoc(s, key);
    if k < |ri| {
      FirstByKeyFirst(init, key, k);
      assert r[k] == ri[k];
      var i :| 0 <= i < |init| && ri[k] == init[i] && FirstOccurrence(init, key, i);
      assert s[i] == init[i];
      assert FirstOccurrence(s, key, i);
    } else {
      assert !SeenBefore(s, key);
      assert r[k] == s[|s| - 1];
      assert FirstOccurrence(s, key, |s| - 1);
    }
  }

  /** Every key of the input is kept. */
  lemma {:induction false} FirstByKeyCovers<T, K>(s: seq<T>, key: T -> K)
    ensures forall i :: 0 <= i < |s| ==> exists k :: 0 <= k < |FirstByKey(s, key)| && key(FirstByKey(s, key)[k]) == key(s[i])
  {
    if s != [] {
      var init, last := s[..|s| - 1], s[|s| - 1];
      var ri, r := FirstByKey(init, key), FirstByKey(s, key);
      FirstByKeyCovers(init, key);
      FirstByKeySnoc(s, key);
      forall i | 0 <= i < |s| ensures exists k :: 0 <= k < |r| && key(r[k]) == key(s[i]) {
        if i < |s| - 1 {
          assert s[i] == init[i];
          var k :| 0 <= k < |ri| && key(ri[k]) == key(init[i]);
          assert r[k] == ri[k];
        } else if SeenBefore(s, key) {
          var m :| 0 <= m < |s| - 1 && key(s[m]) == key(last);
          assert init[m] == s[m];
          var k :| 0 <= k < |ri| && key(ri[k]) == key(init[m]);
          assert r[k] == ri[k];
        } else {
          assert r[|r| - 1] == s[i];
        }
      }
    }
  }

  /**
   * Kept elements come in order of first appearance: wherever the key of a
   * later kept element occurs in the input, the key of an earlier kept one
   * has occurred before it.
   */
  lemma {:induction false} FirstByKeyOrderAt<T, K>(s: seq<T>, key: T -> K, k: nat, l: nat, p: nat)
    requires k < l < |FirstByKey(s, key)| && p < |s|
    requires key(s[p]) == key(FirstByKey(s, key)[l])
    ensures exists q :: 0 <= q < p && key(s[q]) == key(FirstByKey(s, key)[k])
    decreases |s|
  {
    var init, last := s[..|s| - 1], s[|s| - 1];
    var ri, r := FirstByKey(init, key), FirstByKey(s, key);
    FirstByKeySnoc(s, key);
    if l < |ri| {
      assert r[k] == ri[k] && r[l] == ri[l];
      if p < |init| {
        assert init[p] == s[p];
        FirstByKeyOrderAt(init, key, k, l, p);
        var q :| 0 <= q < p && key(init[q]) == key(ri[k]);
        assert s[q] == init[q];
      } else {
        // The last element has the key of a kept element of `init`, so it was seen before.
        assert ri[l] in ri;
        var m :| 0 <= m < |init| && init[m] == ri[l];
        assert s[m] == init[m] && key(s[m]) == key(last);
        FirstByKeyOrderAt(init, key, k, l, m);
        var q :| 0 <= q < m && key(init[q]) == key(ri[k]);
        assert s[q] == init[q];
      }
    } else {
      assert !SeenBefore(s, key) && r[l] == last;
      assert r[k] == ri[k] && ri[k] in ri;
      var m :| 0 <= m < |init| && init[m] == ri[k];
      assert s[m] == init[m];
      if p < |s| - 1 {
        assert false;
      }
    }
  }

  lemma FirstByKeyOrder<T, K>(s: seq<T>, key: T -> K)
    ensures var r := FirstByKey(s, key);
      forall k, l, p :: 0 <= k < l < |r| && 0 <= p < |s| && key(s[p]) == key(r[l]) ==>
        exists q :: 0 <= q < p && key(s[q]) == key(r[k])
  {
    var r := FirstByKey(s, key);
    forall k, l, p | 0 <= k < l < |r| && 0 <= p < |s| && key(s[p]) == key(r[l])
      ensures exists q :: 0 <= q < p && key(s[q]) == key(r[k])
    {
      FirstByKeyOrderAt(s, key, k, l, p);
    }
  }

  function CategoryOf(v: Variant): string {
    v.category
  }

  function BaseColorOf(v: Variant): BaseColor {
    v.baseColor
  }

  function ColorName(c: BaseColor): string {
    c.name
  }

  /** Categories are de-duplicated by their own value. */
  function CategoryKey(name: string): string {
    name
  }

  /** The category of each variant, in order: `variants.map(v => v.category)`. */
  function CategoryNames(vs: seq<Variant>): (names: seq<string>)
    ensures |names| == |vs| && forall i :: 0 <= i < |vs| ==> names[i] == vs[i].category
  {
    seq(|vs|, i requires 0 <= i < |vs| => CategoryOf(vs[i]))
  }

  /** `Array.from(new Set(variants.map(v => v.category)))`. */
  function Categories(vs: seq<Variant>): (r: seq<string>)
    ensures forall i, j :: 0 <= i < j < |r| ==> r[i] != r[j]
    ensures forall v :: v in vs ==> v.category in r
    ensures forall x :: x in r ==> exists v :: v in vs && v.category == x
    ensures IsSubsequence(r, CategoryNames(vs))
    ensures forall x :: x in r ==>
      exists i :: 0 <= i < |vs| && vs[i].category == x && (forall j :: 0 <= j < i ==> vs[j].category != x)
    ensures InFirstAppearanceOrder(r, CategoryNames(vs))
  {
    var r := FirstByKey(CategoryNames(vs), CategoryKey);
    assert forall i, j :: 0 <= i < j < |r| ==> r[i] != r[j] by {
      FirstByKeyDistinct(CategoryNames(vs), CategoryKey);
    }
    assert IsSubsequence(r, CategoryNames(vs)) by {
      FirstByKeySubsequence(CategoryNames(vs), CategoryKey);
    }
    assert forall v :: v in vs ==> v.category in r by {
      CategoriesCover(vs);
    }
    assert forall x :: x in r ==> exists v :: v in vs && v.category == x by {
      CategoriesFromVariants(vs);
    }
    assert forall x :: x in r ==>
      exists i :: 0 <= i < |vs| && vs[i].category == x && (forall j :: 0 <= j < i ==> vs[j].category != x) by {
      CategoriesFirst(vs);
    }
    assert InFirstAppearanceOrder(r, CategoryNames(vs)) by {
      CategoriesOrder(vs);
    }
    r
  }

  /** `names.indexOf(x)`: the position of the first `x`, or `|names|` when there is none. */
  function IndexOf(names: seq<string>, x: string): (i: nat)
    ensures i <= |names|
    ensures i < |names| <==> x in names
    ensures i < |names| ==> names[i] == x
    ensures forall j :: 0 <= j < i ==> names[j] != x
  {
    if names == [] then 0
    else if names[0] == x then 0
    else 1 + IndexOf(names[1..], x)
  }

  /** Earlier entries of `r` first occur in `names` strictly before later ones. */
  ghost predicate InFirstAppearanceOrder(r: seq<string>, names: seq<string>) {
    forall k, l :: 0 <= k < l < |r| ==> IndexOf(names, r[k]) < IndexOf(names, r[l])
  }

  /**
   * The options come in order of first appearance, as a `Set` keeps insertion
   * order: an earlier option first occurs among the variants' categories
   * strictly before a later one.
   */
  lemma CategoriesOrder(vs: seq<Variant>)
    ensures InFirstAppearanceOrder(FirstByKey(CategoryNames(vs), CategoryKey), CategoryNames(vs))
  {
    var names := CategoryNames(vs);
    var r := FirstByKey(names, CategoryKey);
    forall k, l | 0 <= k < l < |r| ensures IndexOf(names, r[k]) < IndexOf(names, r[l]) {
      assert r[l] in r;
      var p := IndexOf(names, r[l]);
      assert CategoryKey(names[p]) == CategoryKey(r[l]);
      FirstByKeyOrderAt(names, CategoryKey, k, l, p);
      var q :| 0 <= q < p && CategoryKey(names[q]) == CategoryKey(r[k]);
      assert names[q] == r[k];
    }
  }

  /** Each option occurs at a variant with no earlier variant of that category: its first occurrence. */
  lemma CategoriesFirst(vs: seq<Variant>)
    ensures forall x :: x in FirstByKey(CategoryNames(vs), CategoryKey) ==>
      exists i :: 0 <= i < |vs| && vs[i].category == x && (forall j :: 0 <= j < i ==> vs[j].category != x)
  {
    var names := CategoryNames(vs);
    forall x | x in FirstByKey(names, CategoryKey)
      ensures exists i :: 0 <= i < |vs| && vs[i].category == x && (forall j :: 0 <= j < i ==> vs[j].category != x)
    {
      var i := IndexOf(names, x);
      assert forall j :: 0 <= j < i ==> vs[j].category == names[j];
    }
  }

  /** For categories A, B, A the options cannot be B, A: the order clause rules it out. */
  lemma OrderRejectsLaterFirst()
    ensures !InFirstAppearanceOrder(["B", "A"], ["A", "B", "A"])
  {
    assert IndexOf(["A", "B", "A"], "A") == 0;
    assert IndexOf(["A", "B", "A"], "B") == 1;
  }

  lemma CategoriesCover(vs: seq<Variant>)
    ensures forall v :: v in vs ==> v.category in FirstByKey(CategoryNames(vs), CategoryKey)
  {
    var names := CategoryNames(vs);
    var r := FirstByKey(names, CategoryKey);
    FirstByKeyCovers(names, CategoryKey);
    forall v | v in vs ensures v.category in r {
      var i :| 0 <= i < |vs| && vs[i] == v;
      var k :| 0 <= k < |r| && r[k] == names[i];
    }
  }

  lemma CategoriesFromVariants(vs: seq<Variant>)
    ensures forall x :: x in FirstByKey(CategoryNames(vs), CategoryKey) ==> exists v :: v in vs && v.category == x
  {
    var names := CategoryNames(vs);
    forall x | x in FirstByKey(names, CategoryKey) ensures exists v :: v in vs && v.category == x {
      var i :| 0 <= i < |names| && names[i] == x;
      assert vs[i] in vs;
    }
  }

  /**
   * `baseColors`: the base colours of the variants, de-duplicated by name with
   * the first occurrence (and so its hex) kept. The `Set` of fresh object
   * literals it starts from removes nothing.
   */
  function BaseColors(vs: seq<Variant>): (r: seq<BaseColor>)
    ensures forall i, j :: 0 <= i < j < |r| ==> r[i].name != r[j].name
    ensures forall v :: v in vs ==> exists c :: c in r && c.name == v.baseColor.name
    ensures forall c :: c in r ==>
      exists i :: 0 <= i < |vs| && vs[i].baseColor == c && (forall j :: 0 <= j < i ==> vs[j].baseColor.name != c.name)
  {
    var colors := seq(|vs|, i requires 0 <= i < |vs| => BaseColorOf(vs[i]));
    var r := FirstByKey(colors, ColorName);
    BaseColorsDistinct(colors);
    BaseColorsCover(vs, colors);
    BaseColorsFirst(vs, colors);
    r
  }

  lemma BaseColorsDistinct(colors: seq<BaseColor>)
    ensures var r := FirstByKey(colors, ColorName);
      forall i, j :: 0 <= i < j < |r| ==> r[i].name != r[j].name
  {
    var r := FirstByKey(colors, ColorName);
    FirstByKeyDistinct(colors, ColorName);
    forall i, j | 0 <= i < j < |r| ensures r[i].name != r[j].name {
      assert ColorName(r[i]) != ColorName(r[j]);
    }
  }

  lemma BaseColorsCover(vs: seq<Variant>, colors: seq<BaseColor>)
    requires colors == seq(|vs|, i requires 0 <= i < |vs| => BaseColorOf(vs[i]))
    ensures var r := FirstByKey(colors, ColorName);
      forall v :: v in vs ==> exists c :: c in r && c.name == v.baseColor.name
  {
    var r := FirstByKey(colors, ColorName);
    FirstByKeyCovers(colors, ColorName);
    forall v | v in vs ensures exists c :: c in r && c.name == v.baseColor.name {
      var i :| 0 <= i < |vs| && vs[i] == v;
      assert colors[i] == v.baseColor;
      var k :| 0 <= k < |r| && ColorName(r[k]) == ColorName(colors[i]);
      assert r[k] in r && r[k].name == v.baseColor.name;
    }
  }

  lemma BaseColorsFirst(vs: seq<Variant>, colors: seq<BaseColor>)
    requires colors == seq(|vs|, i requires 0 <= i < |vs| => BaseColorOf(vs[i]))
    ensures var r := FirstByKey(colors, ColorName);
      forall c :: c in r ==>
        exists i :: 0 <= i < |vs| && vs[i].baseColor == c && (forall j :: 0 <= j < i ==> vs[j].baseColor.name != c.name)
  {
    var r := FirstByKey(colors, ColorName);
    forall c | c in r
      ensures exists i :: 0 <= i < |vs| && vs[i].baseColor == c && (forall j :: 0 <= j < i ==> vs[j].baseColor.name != c.name)
    {
      var k :| 0 <= k < |r| && r[k] == c;
      FirstByKeyFirst(colors, ColorName, k);
      var i :| 0 <= i < |colors| && r[k] == colors[i] && FirstOccurrence(colors, ColorName, i);
      forall j | 0 <= j < i ensures vs[j].baseColor.name != c.name {
        assert colors[j] == vs[j].baseColor;
        assert ColorName(colors[j]) != ColorName(colors[i]);
      }
      assert vs[i].baseColor == c;
    }
  }

  /** `baseColors.find(c => c.name === name)`. */
  function FindColor(colors: seq<BaseColor>, name: string): (r: Option<BaseColor>)
    ensures r.None? <==> forall k :: 0 <= k < |colors| ==> colors[k].name != name
    ensures r.Some? ==>
      exists k :: 0 <= k < |colors| && colors[k] == r.value && colors[k].name == name && (forall j :: 0 <= j < k ==> colors[j].name != name)
  {
    if colors == [] then None
    else if colors[0].name == name then Some(colors[0])
    else
      var r := FindColor(colors[1..], name);
      assert forall k :: 1 <= k < |colors| ==> colors[k] == colors[1..][k - 1];
      r
  }

  // ---------------------------------------------------------------------------
  // Active filters and the badge
  // ---------------------------------------------------------------------------

  datatype ActiveFilter = ActiveFilter(kind: string, value: string, labelText: string, color: Option<string>)

  /** `charAt(0).toUpperCase() + slice(1)`, for ASCII letters. */
  function Capitalize(s: string): (r: string)
    ensures |r| == |s|
    ensures s != [] ==> r[1..] == s[1..]
    ensures s != [] && 'a' <= s[0] <= 'z' ==> r[0] == (s[0] as int - 32) as char
    ensures s != [] && !('a' <= s[0] <= 'z') ==> r[0] == s[0]
  {
    if s == [] then []
    else if 'a' <= s[0] <= 'z' then [(s[0] as int - 32) as char] + s[1..]
    else s
  }

  /** Which clause of the filter a chip stands for: 0 category, 1 base colour, 2 refraction type. */
  function KindRank(kind: string): int {
    if kind == CategoryFilter then 0 else if kind == BaseColorFilter then 1 else 2
  }

  function CategoryChips(c: Criteria): seq<ActiveFilter> {
    if !c.hideCategory && c.category != All
    then [ActiveFilter(CategoryFilter, c.category, Capitalize(c.category), None)]
    else []
  }

  function BaseColorChips(c: Criteria, colors: seq<BaseColor>): seq<ActiveFilter> {
    if c.baseColor != All then
      var found := FindColor(colors, c.baseColor);
      [ActiveFilter(BaseColorFilter, c.baseColor, c.baseColor, if found.Some? then Some(found.value.hex) else None)]
    else []
  }

  function RefractionTypeChips(c: Criteria): seq<ActiveFilter> {
    if c.refractionType != All
    then [ActiveFilter(RefractionTypeFilter, c.refractionType, Capitalize(c.refractionType), None)]
    else []
  }

  /**
   * `activeFilters`: one chip per clause that is on, category first, then base
   * colour, then refraction type.
   */
  function ActiveFilterList(c: Criteria, colors: seq<BaseColor>): (r: seq<ActiveFilter>)
    ensures |r| <= 3
    ensures c.category == All && c.baseColor == All && c.refractionType == All ==> r == []
  {
    CategoryChips(c) + BaseColorChips(c, colors) + RefractionTypeChips(c)
  }

  /** There is a chip of a kind exactly when that clause of the filter is on. */
  lemma ActiveFilterKinds(c: Criteria, colors: seq<BaseColor>)
    ensures var r := ActiveFilterList(c, colors);
      && |r| <= 3
      && ((exists k :: 0 <= k < |r| && r[k].kind == CategoryFilter) <==> !c.hideCategory && c.category != All)
      && ((exists k :: 0 <= k < |r| && r[k].kind == BaseColorFilter) <==> c.baseColor != All)
      && ((exists k :: 0 <= k < |r| && r[k].kind == RefractionTypeFilter) <==> c.refractionType != All)
  {
    var categoryChips, colorChips, typeChips := CategoryChips(c), BaseColorChips(c, colors), RefractionTypeChips(c);
    var r := categoryChips + colorChips + typeChips;
    assert CategoryFilter[0] != BaseColorFilter[0] && CategoryFilter[0] != RefractionTypeFilter[0];
    assert BaseColorFilter[0] != RefractionTypeFilter[0];
    assert categoryChips != [] ==> r[0] == categoryChips[0];
    assert colorChips != [] ==> r[|categoryChips|] == colorChips[0];
    assert typeChips != [] ==> r[|categoryChips| + |colorChips|] == typeChips[0];
  }

  /** The chips come in the order category, base colour, refraction type. */
  lemma ActiveFilterOrder(c: Criteria, colors: seq<BaseColor>)
    ensures var r := ActiveFilterList(c, colors);
      forall k, l :: 0 <= k < l < |r| ==> KindRank(r[k].kind) < KindRank(r[l].kind)
  {
    var categoryChips, colorChips, typeChips := CategoryChips(c), BaseColorChips(c, colors), RefractionTypeChips(c);
    var r := categoryChips + colorChips + typeChips;
    assert forall k :: 0 <= k < |r| ==>
      KindRank(r[k].kind) == if k < |categoryChips| then 0 else if k < |categoryChips| + |colorChips| then 1 else 2;
  }

  /**
   * What each chip shows: its selection as value, the capitalised selection as
   * label (the colour name as is), and for the base colour the hex of the first
   * listed colour of that name, if there is one.
   */
  lemma ActiveFilterContents(c: Criteria, colors: seq<BaseColor>)
    ensures var r := ActiveFilterList(c, colors);
      && (forall k :: 0 <= k < |r| && r[k].kind == CategoryFilter ==>
            r[k].value == c.category && r[k].labelText == Capitalize(c.category) && r[k].color == None)
      && (forall k :: 0 <= k < |r| && r[k].kind == BaseColorFilter ==>
            && r[k].value == c.baseColor && r[k].labelText == c.baseColor
            && (r[k].color.Some? <==> FindColor(colors, c.baseColor).Some?)
            && (r[k].color.Some? ==> r[k].color.value == FindColor(colors, c.baseColor).value.hex))
      && (forall k :: 0 <= k < |r| && r[k].kind == RefractionTypeFilter ==>
            r[k].value == c.refractionType && r[k].labelText == Capitalize(c.refractionType) && r[k].color == None)
  {
    var categoryChips, colorChips, typeChips := CategoryChips(c), BaseColorChips(c, colors), RefractionTypeChips(c);
    var r := categoryChips + colorChips + typeChips;
    assert CategoryFilter[0] != BaseColorFilter[0] && CategoryFilter[0] != RefractionTypeFilter[0];
    assert BaseColorFilter[0] != RefractionTypeFilter[0];
    assert forall k :: 0 <= k < |r| ==>
      r[k] == if k < |categoryChips| then categoryChips[k]
        else if k < |categoryChips| + |colorChips| then colorChips[k - |categoryChips|]
        else typeChips[k - |categoryChips| - |colorChips|];
  }

  /** The number on the badge: the active chips plus one for an active sort. */
  function BadgeCount(c: Criteria, colors: seq<BaseColor>, sortBy: Option<SortKey>): (n: nat)
    ensures n <= 4
    ensures n == (if !c.hideCategory && c.category != All then 1 else 0)
               + (if c.baseColor != All then 1 else 0)
               + (if c.refractionType != All then 1 else 0)
               + (if sortBy.Some? then 1 else 0)
    ensures n == 0 <==> |ActiveFilterList(c, colors)| == 0 && sortBy.None?
  {
    ActiveFilterKinds(c, colors);
    |ActiveFilterList(c, colors)| + (if sortBy.Some? then 1 else 0)
  }

  // ---------------------------------------------------------------------------
  // The component
  // ---------------------------------------------------------------------------

  /** The state of one `FilterSort` panel; `variants` and `hideCategory` are its props. */
  class FilterSortPanel {
    const variants: seq<Variant>
    const hideCategory: bool
    var selectedCategory: string
    var selectedBaseColor: string
    var selectedRefractionType: string
    var sortBy: Option<SortKey>
    var sortDirection: SortDirection
    var filteredCount: int

    /** Initially nothing is selected, nothing sorted, and the direction is "desc". */
    constructor (variants: seq<Variant>, hideCategory: bool)
      ensures this.variants == variants && this.hideCategory == hideCategory
      ensures selectedCategory == All && selectedBaseColor == All && selectedRefractionType == All
      ensures sortBy == None && sortDirection == Desc
      ensures filteredCount == |variants|
    {
      this.variants := variants;
      this.hideCategory := hideCategory;
      selectedCategory := All;
      selectedBaseColor := All;
      selectedRefractionType := All;
      sortBy := None;
      sortDirection := Desc;
      filteredCount := |variants|;
    }

    function Selection(): Criteria
      reads this
    {
      Criteria(selectedCategory, selectedBaseColor, selectedRefractionType, hideCategory)
    }

    /** Builds `activeFilters` by pushing one chip per active clause. */
    method ActiveFilters() returns (activeFilters: seq<ActiveFilter>)
      ensures activeFilters == ActiveFilterList(Selection(), BaseColors(variants))
    {
      var baseColors := BaseColors(variants);
      var category, baseColor, refractionType := selectedCategory, selectedBaseColor, selectedRefractionType;
      ghost var c := Selection();
      assert c == Criteria(category, baseColor, refractionType, hideCategory);
      activeFilters := [];
      if !hideCategory && category != All {
        activeFilters := activeFilters + [ActiveFilter(CategoryFilter, category, Capitalize(category), None)];
      }
      assert activeFilters == CategoryChips(c);
      if baseColor != All {
        var colorData := FindColor(baseColors, baseColor);
        activeFilters := activeFilters + [ActiveFilter(BaseColorFilter, baseColor, baseColor,
          if colorData.Some? then Some(colorData.value.hex) else None)];
      }
      assert activeFilters == CategoryChips(c) + BaseColorChips(c, baseColors);
      if refractionType != All {
        activeFilters := activeFilters + [ActiveFilter(RefractionTypeFilter, refractionType, Capitalize(refractionType), None)];
      }
    }

    /**
     * The filtering effect: filter, sort in place when a sort key is set, hand
     * the result on and record its length in `filteredCount`.
     */
    method Refresh() returns (filtered: seq<Variant>)
      modifies this`filteredCount
      ensures filtered == Outcome(variants, Selection(), sortBy, sortDirection)
      ensures filteredCount == |filtered| <= |variants|
    {
      filtered := Filtered(variants, Selection());
      if sortBy.Some? {
        var a := ToArray(filtered);
        SortInPlace(a, sortBy.value, sortDirection);
        filtered := a[..];
      }
      filteredCount := |filtered|;
    }

    /** Resets the named selection to "all"; any other name changes nothing. */
    method RemoveFilter(filterType: string)
      modifies this
      ensures selectedCategory == if filterType == CategoryFilter then All else old(selectedCategory)
      ensures selectedBaseColor == if filterType == BaseColorFilter then All else old(selectedBaseColor)
      ensures selectedRefractionType == if filterType == RefractionTypeFilter then All else old(selectedRefractionType)
      ensures sortBy == old(sortBy) && sortDirection == old(sortDirection) && filteredCount == old(filteredCount)
    {
      if filterType == CategoryFilter {
        selectedCategory := All;
      } else if filterType == BaseColorFilter {
        selectedBaseColor := All;
      } else if filterType == RefractionTypeFilter {
        selectedRefractionType := All;
      }
    }

    /** Sets the named selection to `value`; any other name changes nothing. */
    method HandleFilterChange(filterType: string, value: string)
      modifies this
      ensures selectedCategory == if filterType == CategoryFilter then value else old(selectedCategory)
      ensures selectedBaseColor == if filterType == BaseColorFilter then value else old(selectedBaseColor)
      ensures selectedRefractionType == if filterType == RefractionTypeFilter then value else old(selectedRefractionType)
      ensures sortBy == old(sortBy) && sortDirection == old(sortDirection) && filteredCount == old(filteredCount)
    {
      if filterType == CategoryFilter {
        selectedCategory := value;
      } else if filterType == BaseColorFilter {
        selectedBaseColor := value;
      } else if filterType == RefractionTypeFilter {
        selectedRefractionType := value;
      }
    }

    /** Turns sorting off; the chosen direction is kept for the next sort. */
    method RemoveSort()
      modifies this
      ensures sortBy == None && sortDirection == old(sortDirection)
      ensures Selection() == old(Selection()) && filteredCount == old(filteredCount)
    {
      sortBy := None;
    }

    /** Sorts by `newSortBy`; the direction changes only when one is given. */
    method HandleSortChange(newSortBy: SortKey, newDirection: Option<SortDirection>)
      modifies this
      ensures sortBy == Some(newSortBy)
      ensures sortDirection == if newDirection.Some? then newDirection.value else old(sortDirection)
      ensures Selection() == old(Selection()) && filteredCount == old(filteredCount)
    {
      sortBy := Some(newSortBy);
      if newDirection.Some? {
        sortDirection := newDirection.value;
      }
    }
  }
}
