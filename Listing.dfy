/** The filter/sort stage: drop soft-deleted gifts, keep those matching the
    recipient, occasion and year filters, and order them by the sort key. */
module Listing {
  import opened Gifts
  import Text

  /** A filter value: 'TUTTI' or one specific value. */
  datatype Choice<T> = Tutti | Only(value: T)

  predicate Admits<T(==)>(c: Choice<T>, v: T) {
    c.Tutti? || c.value == v
  }

  datatype Filters = Filters(recipient: Choice<Recipient>, occasion: Choice<Occasion>, year: Choice<int>)

  /** The filter callback: never a deleted gift, otherwise every filter must match. */
  predicate Shown(f: Filters, g: Gift)
    ensures g.isDeleted ==> !Shown(f, g)
    ensures f == Filters(Tutti, Tutti, Tutti) ==> (Shown(f, g) <==> !g.isDeleted)
  {
    && !g.isDeleted
    && Admits(f.recipient, g.recipient)
    && Admits(f.occasion, g.occasion)
    && Admits(f.year, g.year)
  }

  /** gifts.filter(...): the shown gifts, in their original order. */
  function Keep(gs: seq<Gift>, f: Filters): seq<Gift> {
    if gs == [] then []
    else (if Shown(f, gs[0]) then [gs[0]] else []) + Keep(gs[1..], f)
  }

  /** The filter keeps exactly the shown gifts, each as often as it occurs. */
  lemma {:induction false} KeepMultiset(gs: seq<Gift>, f: Filters)
    ensures forall g :: multiset(Keep(gs, f))[g] == if Shown(f, g) then multiset(gs)[g] else 0
  {
    if gs != [] {
      assert gs == [gs[0]] + gs[1..];
      KeepMultiset(gs[1..], f);
    }
  }

  /** The filter keeps the stored order: filtering a concatenation filters each part. */
  lemma {:induction false} KeepAppend(a: seq<Gift>, b: seq<Gift>, f: Filters)
    ensures Keep(a + b, f) == Keep(a, f) + Keep(b, f)
  {
    if a == [] {
      assert a + b == b;
    } else {
      var x, t := a[0], a[1..];
      assert a == [x] + t;
      assert a + b == [x] + (t + b);
      KeepCons(x, t + b, f);
      KeepCons(x, t, f);
      KeepAppend(t, b, f);
    }
  }

  lemma KeepCons(x: Gift, t: seq<Gift>, f: Filters)
    ensures Keep([x] + t, f) == (if Shown(f, x) then [x] else []) + Keep(t, f)
  {
    assert ([x] + t)[0] == x && ([x] + t)[1..] == t;
  }

  /** A list of shown gifts passes the filter unchanged, in the same order. */
  lemma {:induction false} KeepAllShown(gs: seq<Gift>, f: Filters)
    requires forall i :: 0 <= i < |gs| ==> Shown(f, gs[i])
    ensures Keep(gs, f) == gs
  {
    if gs != [] {
      KeepAllShown(gs[1..], f);
    }
  }

  /** The sort criterion as stored: one of the six known values, or whatever
      other string the stored preference holds. */
  datatype SortKey =
    | DateDesc | DateAsc | PriceDesc | PriceAsc | TitleAsc | RecipientAsc
    | Unrecognised(raw: string)

  function ParseSortKey(s: string): (k: SortKey)
    ensures k == DateDesc <==> s == "date-desc"
    ensures k == DateAsc <==> s == "date-asc"
    ensures k == PriceDesc <==> s == "price-desc"
    ensures k == PriceAsc <==> s == "price-asc"
    ensures k == TitleAsc <==> s == "title-asc"
    ensures k == RecipientAsc <==> s == "recipient-asc"
    ensures k.Unrecognised? <==>
      s !in {"date-desc", "date-asc", "price-desc", "price-asc", "title-asc", "recipient-asc"}
    ensures k.Unrecognised? ==> k.raw == s
  {
    if s == "date-desc" then DateDesc
    else if s == "date-asc" then DateAsc
    else if s == "price-desc" then PriceDesc
    else if s == "price-asc" then PriceAsc
    else if s == "title-asc" then TitleAsc
    else if s == "recipient-asc" then RecipientAsc
    else Unrecognised(s)
  }

  /** The sort comparator. Negative or zero means a may stay before b; an
      unrecognised key falls back to newest first. */
  function Compare(key: SortKey, a: Gift, b: Gift): real {
    match key
    case DateDesc => (CreatedAtOrZero(b) - CreatedAtOrZero(a)) as real
    case DateAsc => (CreatedAtOrZero(a) - CreatedAtOrZero(b)) as real
    case PriceDesc => b.cost - a.cost
    case PriceAsc => a.cost - b.cost
    case TitleAsc => Text.Compare(Text.Lower(a.title), Text.Lower(b.title)) as real
    case RecipientAsc =>
      Text.Compare(Text.Lower(RecipientName(a.recipient)), Text.Lower(RecipientName(b.recipient))) as real
    case Unrecognised(_) => (CreatedAtOrZero(b) - CreatedAtOrZero(a)) as real
  }

  /** What each comparator's sign means: which gift goes first, and when two tie. */
  lemma CompareMeaning(key: SortKey, a: Gift, b: Gift)
    ensures (key == DateDesc || key.Unrecognised?) ==>
      (Compare(key, a, b) < 0.0 <==> CreatedAtOrZero(a) > CreatedAtOrZero(b)) && (Compare(key, a, b) == 0.0 <==> CreatedAtOrZero(a) == CreatedAtOrZero(b))
    ensures key == DateAsc ==>
      (Compare(key, a, b) < 0.0 <==> CreatedAtOrZero(a) < CreatedAtOrZero(b)) && (Compare(key, a, b) == 0.0 <==> CreatedAtOrZero(a) == CreatedAtOrZero(b))
    ensures key == PriceDesc ==> (Compare(key, a, b) < 0.0 <==> a.cost > b.cost) && (Compare(key, a, b) == 0.0 <==> a.cost == b.cost)
    ensures key == PriceAsc ==> (Compare(key, a, b) < 0.0 <==> a.cost < b.cost) && (Compare(key, a, b) == 0.0 <==> a.cost == b.cost)
    ensures key == TitleAsc ==> (Compare(key, a, b) == 0.0 <==> Text.Lower(a.title) == Text.Lower(b.title))
    ensures key == RecipientAsc ==>
      (Compare(key, a, b) == 0.0 <==> Text.Lower(RecipientName(a.recipient)) == Text.Lower(RecipientName(b.recipient)))
  {
    Text.CompareZeroIffEqual(Text.Lower(a.title), Text.Lower(b.title));
    Text.CompareZeroIffEqual(Text.Lower(RecipientName(a.recipient)), Text.Lower(RecipientName(b.recipient)));
  }

  predicate InOrder(key: SortKey, a: Gift, b: Gift) {
    Compare(key, a, b) <= 0.0
  }

  lemma CompareFlip(key: SortKey, a: Gift, b: Gift)
    ensures Compare(key, b, a) == -Compare(key, a, b)
  {
    Text.CompareFlip(Text.Lower(a.title), Text.Lower(b.title));
    Text.CompareFlip(Text.Lower(RecipientName(a.recipient)), Text.Lower(RecipientName(b.recipient)));
  }

  lemma InOrderTotal(key: SortKey, a: Gift, b: Gift)
    ensures InOrder(key, a, b) || InOrder(key, b, a)
  {
    CompareFlip(key, a, b);
  }

  lemma InOrderTransitive(key: SortKey, a: Gift, b: Gift, c: Gift)
    requires InOrder(key, a, b) && InOrder(key, b, c)
    ensures InOrder(key, a, c)
  {
    if key == TitleAsc {
      Text.CompareTransitive(Text.Lower(a.title), Text.Lower(b.title), Text.Lower(c.title));
    } else if key == RecipientAsc {
      Text.CompareTransitive(Text.Lower(RecipientName(a.recipient)), Text.Lower(RecipientName(b.recipient)),
                             Text.Lower(RecipientName(c.recipient)));
    }
  }

  /** Insert x into t before the first element it may precede. */
  function Insert(key: SortKey, x: Gift, t: seq<Gift>): (r: seq<Gift>)
    ensures multiset(r) == multiset(t) + multiset{x}
  {
    if t == [] || InOrder(key, x, t[0]) then [x] + t
    else
      assert t == [t[0]] + t[1..];
      [t[0]] + Insert(key, x, t[1..])
  }

  /** result.sort(comparator), as a stable insertion sort. */
  function SortGifts(key: SortKey, s: seq<Gift>): (r: seq<Gift>)
    ensures multiset(r) == multiset(s)
  {
    if s == [] then []
    else
      assert s == [s[0]] + s[1..];
      Insert(key, s[0], SortGifts(key, s[1..]))
  }

  /** filteredGifts: the shown gifts, sorted by the key. */
  function FilteredGifts(gs: seq<Gift>, f: Filters, key: SortKey): (r: seq<Gift>)
    ensures forall g :: multiset(r)[g] == if Shown(f, g) then multiset(gs)[g] else 0
    ensures Sorted(key, r)
  {
    KeepMultiset(gs, f);
    SortGiftsSorted(key, Keep(gs, f));
    SortGifts(key, Keep(gs, f))
  }

  predicate Sorted(key: SortKey, s: seq<Gift>) {
    forall i, j :: 0 <= i < j < |s| ==> InOrder(key, s[i], s[j])
  }

  lemma {:induction false} InsertSorted(key: SortKey, x: Gift, t: seq<Gift>)
    requires Sorted(key, t)
    ensures Sorted(key, Insert(key, x, t))
  {
    if t == [] {
    } else if InOrder(key, x, t[0]) {
      forall j | 0 <= j < |t| ensures InOrder(key, x, t[j]) {
        if j > 0 { InOrderTransitive(key, x, t[0], t[j]); }
      }
      SortedCons(key, x, t);
    } else {
      InsertSorted(key, x, t[1..]);
      var rest := Insert(key, x, t[1..]);
      InOrderTotal(key, x, t[0]);
      forall j | 0 <= j < |rest| ensures InOrder(key, t[0], rest[j]) {
        InsertedFrom(key, x, t[1..], rest[j]);
        if rest[j] != x {
          HeadBeforeTail(key, t, rest[j]);
        }
      }
      assert Insert(key, x, t) == [t[0]] + rest;
      SortedCons(key, t[0], rest);
    }
  }

  /** A gift that may precede every element of a sorted list heads a sorted list. */
  lemma SortedCons(key: SortKey, h: Gift, t: seq<Gift>)
    requires Sorted(key, t)
    requires forall j :: 0 <= j < |t| ==> InOrder(key, h, t[j])
    ensures Sorted(key, [h] + t)
  {
    var r := [h] + t;
    forall i, j | 0 <= i < j < |r| ensures InOrder(key, r[i], r[j]) {
      assert r[j] == t[j - 1];
      if i > 0 { assert r[i] == t[i - 1]; }
    }
  }

  /** Every element of an insertion is the inserted gift or one of the list. */
  lemma InsertedFrom(key: SortKey, x: Gift, t: seq<Gift>, y: Gift)
    requires y in Insert(key, x, t)
    ensures y == x || y in t
  {
    assert y in multiset(Insert(key, x, t));
  }

  /** The head of a sorted list may precede every later element. */
  lemma HeadBeforeTail(key: SortKey, t: seq<Gift>, y: Gift)
    requires Sorted(key, t) && t != [] && y in t[1..]
    ensures InOrder(key, t[0], y)
  {
    var k :| 0 <= k < |t[1..]| && t[1..][k] == y;
    assert t[k + 1] == y;
  }

  lemma {:induction false} SortGiftsSorted(key: SortKey, s: seq<Gift>)
    ensures Sorted(key, SortGifts(key, s))
  {
    if s != [] {
      SortGiftsSorted(key, s[1..]);
      InsertSorted(key, s[0], SortGifts(key, s[1..]));
    }
  }

  /** The filter/sort stage keeps exactly the shown gifts, as many times as
      they occur, never a deleted one, and orders them by the key. */
  lemma FilteredGiftsCharacterised(gs: seq<Gift>, f: Filters, key: SortKey)
    ensures var r := FilteredGifts(gs, f, key);
      && (forall g :: multiset(r)[g] == if Shown(f, g) then multiset(gs)[g] else 0)
      && (forall i :: 0 <= i < |r| ==> !r[i].isDeleted)
      && (forall i :: 0 <= i < |r| ==>
            && (f.recipient.Only? ==> r[i].recipient == f.recipient.value)
            && (f.occasion.Only? ==> r[i].occasion == f.occasion.value)
            && (f.year.Only? ==> r[i].year == f.year.value))
      && Sorted(key, r)
  {
    var r := FilteredGifts(gs, f, key);
    forall i | 0 <= i < |r| ensures Shown(f, r[i]) {
      assert r[i] in multiset(r);
    }
    SortGiftsSorted(key, Keep(gs, f));
  }

  /** f narrows g: on every dimension, g is 'TUTTI' or both name the same value. */
  predicate Narrows(f: Filters, g: Filters) {
    && (g.recipient.Tutti? || f.recipient == g.recipient)
    && (g.occasion.Tutti? || f.occasion == g.occasion)
    && (g.year.Tutti? || f.year == g.year)
  }

  /** Tightening a filter, whatever the sort keys, never adds a gift. */
  lemma NarrowerFilterKeepsFewer(gs: seq<Gift>, f: Filters, g: Filters, key1: SortKey, key2: SortKey)
    requires Narrows(f, g)
    ensures multiset(FilteredGifts(gs, f, key1)) <= multiset(FilteredGifts(gs, g, key2))
    ensures |FilteredGifts(gs, f, key1)| <= |FilteredGifts(gs, g, key2)|
  {
    var a, b := FilteredGifts(gs, f, key1), FilteredGifts(gs, g, key2);
    ShownSubMultiset(gs, a, b, f, g);
  }

  lemma NarrowedShown(f: Filters, g: Filters, x: Gift)
    requires Narrows(f, g) && Shown(f, x)
    ensures Shown(g, x)
  {
  }

  /** Two selections of gs by shown-ness, the first under the narrower filter. */
  lemma ShownSubMultiset(gs: seq<Gift>, a: seq<Gift>, b: seq<Gift>, f: Filters, g: Filters)
    requires Narrows(f, g)
    requires forall x :: multiset(a)[x] == if Shown(f, x) then multiset(gs)[x] else 0
    requires forall x :: multiset(b)[x] == if Shown(g, x) then multiset(gs)[x] else 0
    ensures multiset(a) <= multiset(b) && |a| <= |b|
  {
    forall x ensures multiset(a)[x] <= multiset(b)[x] {
      if Shown(f, x) {
        NarrowedShown(f, g, x);
      }
    }
    MultisetSubsetSize(multiset(a), multiset(b));
  }

  lemma MultisetSubsetSize(a: multiset<Gift>, b: multiset<Gift>)
    requires a <= b
    ensures |a| <= |b|
  {
    assert b == a + (b - a);
  }

  /** What Sorted means for each key. */
  lemma SortedMeaning(key: SortKey, s: seq<Gift>)
    requires Sorted(key, s)
    ensures (key == DateDesc || key.Unrecognised?) ==>
      forall i, j :: 0 <= i < j < |s| ==> CreatedAtOrZero(s[i]) >= CreatedAtOrZero(s[j])
    ensures key == DateAsc ==>
      forall i, j :: 0 <= i < j < |s| ==> CreatedAtOrZero(s[i]) <= CreatedAtOrZero(s[j])
    ensures key == PriceDesc ==> forall i, j :: 0 <= i < j < |s| ==> s[i].cost >= s[j].cost
    ensures key == PriceAsc ==> forall i, j :: 0 <= i < j < |s| ==> s[i].cost <= s[j].cost
    ensures key == TitleAsc ==> forall i, j :: 0 <= i < j < |s| ==>
      Text.Compare(Text.Lower(s[i].title), Text.Lower(s[j].title)) <= 0
    ensures key == RecipientAsc ==> forall i, j :: 0 <= i < j < |s| ==>
      Text.Compare(Text.Lower(RecipientName(s[i].recipient)), Text.Lower(RecipientName(s[j].recipient))) <= 0
  {
    forall i, j | 0 <= i < j < |s| ensures InOrder(key, s[i], s[j]) {}
  }

  /** An unknown sort key orders exactly as date-desc does. */
  lemma {:induction false} UnknownKeySortsNewestFirst(key: SortKey, s: seq<Gift>)
    requires key.Unrecognised?
    ensures SortGifts(key, s) == SortGifts(DateDesc, s)
  {
    if s != [] {
      UnknownKeySortsNewestFirst(key, s[1..]);
      InsertSameOrder(key, DateDesc, s[0], SortGifts(key, s[1..]));
    }
  }

  lemma {:induction false} InsertSameOrder(key1: SortKey, key2: SortKey, x: Gift, t: seq<Gift>)
    requires forall a, b :: Compare(key1, a, b) == Compare(key2, a, b)
    ensures Insert(key1, x, t) == Insert(key2, x, t)
  {
    if t != [] {
      InsertSameOrder(key1, key2, x, t[1..]);
      assert InOrder(key1, x, t[0]) == InOrder(key2, x, t[0]);
    }
  }

  // ---------------------------------------------------------------------
  // Stability

  /** The elements of s that compare equal to e, in order. */
  function Ties(key: SortKey, s: seq<Gift>, e: Gift): seq<Gift> {
    if s == [] then []
    else (if Compare(key, s[0], e) == 0.0 then [s[0]] else []) + Ties(key, s[1..], e)
  }

  /** Two lists of which one is empty can be swapped in front of a third. */
  lemma SwapPastEmpty<T>(a: seq<T>, b: seq<T>, rest: seq<T>)
    requires a == [] || b == []
    ensures b + (a + rest) == a + (b + rest)
  {
    if a == [] {
      assert a + rest == rest && a + (b + rest) == b + rest;
    } else {
      assert b + (a + rest) == a + rest && b + rest == rest;
    }
  }

  lemma TiesCons(key: SortKey, y: Gift, s: seq<Gift>, e: Gift)
    ensures Ties(key, [y] + s, e) == (if Compare(key, y, e) == 0.0 then [y] else []) + Ties(key, s, e)
  {
    assert ([y] + s)[1..] == s;
  }

  /** Two gifts that tie with the same gift may stand in either order. */
  lemma TiedInOrder(key: SortKey, x: Gift, y: Gift, e: Gift)
    requires Compare(key, x, e) == 0.0 && Compare(key, y, e) == 0.0
    ensures InOrder(key, x, y)
  {
    CompareFlip(key, y, e);
    InOrderTransitive(key, x, e, y);
  }

  lemma {:induction false} InsertBeforeTies(key: SortKey, x: Gift, t: seq<Gift>, e: Gift)
    ensures Ties(key, Insert(key, x, t), e)
            == (if Compare(key, x, e) == 0.0 then [x] else []) + Ties(key, t, e)
  {
    if t == [] || InOrder(key, x, t[0]) {
      assert Insert(key, x, t) == [x] + t;
      TiesCons(key, x, t, e);
    } else {
      InsertBeforeTies(key, x, t[1..], e);
      if Compare(key, x, e) == 0.0 && Compare(key, t[0], e) == 0.0 {
        TiedInOrder(key, x, t[0], e);
        assert false;
      }
      var rest := Insert(key, x, t[1..]);
      assert Insert(key, x, t) == [t[0]] + rest;
      TiesCons(key, t[0], rest, e);
      var cx := if Compare(key, x, e) == 0.0 then [x] else [];
      var ct := if Compare(key, t[0], e) == 0.0 then [t[0]] else [];
      assert Ties(key, t, e) == ct + Ties(key, t[1..], e);
      SwapPastEmpty(cx, ct, Ties(key, t[1..], e));
    }
  }

  /** The sort is stable: gifts that compare equal keep their relative order. */
  lemma {:induction false} SortIsStable(key: SortKey, s: seq<Gift>, e: Gift)
    ensures Ties(key, SortGifts(key, s), e) == Ties(key, s, e)
  {
    if s != [] {
      SortIsStable(key, s[1..], e);
      InsertBeforeTies(key, s[0], SortGifts(key, s[1..]), e);
    }
  }

  // ---------------------------------------------------------------------
  // price-asc against price-desc

  function Reverse(s: seq<Gift>): (r: seq<Gift>)
    ensures |r| == |s| && forall i :: 0 <= i < |s| ==> r[i] == s[|s| - 1 - i]
  {
    if s == [] then [] else Reverse(s[1..]) + [s[0]]
  }

  lemma {:induction false} ReverseMultiset(s: seq<Gift>)
    ensures multiset(Reverse(s)) == multiset(s)
  {
    if s != [] {
      ReverseMultiset(s[1..]);
      assert s == [s[0]] + s[1..];
    }
  }

  /** No two different gifts of s compare equal under key. */
  predicate TieFree(key: SortKey, s: seq<Gift>) {
    forall x, y :: x in s && y in s && Compare(key, x, y) == 0.0 ==> x == y
  }

  lemma FirstBeforeAll(key: SortKey, a: seq<Gift>, x: Gift)
    requires Sorted(key, a) && x in a
    ensures InOrder(key, a[0], x)
  {
    var i :| 0 <= i < |a| && a[i] == x;
    if i == 0 {
      CompareFlip(key, x, x);
    }
  }

  /** Two permutations with the same head have permuted tails. */
  lemma TailPermutation<T>(a: seq<T>, b: seq<T>)
    requires multiset(a) == multiset(b) && a != [] && b != [] && a[0] == b[0]
    ensures multiset(a[1..]) == multiset(b[1..])
  {
    assert a == [a[0]] + a[1..] && b == [b[0]] + b[1..];
    var ta, tb := multiset(a[1..]), multiset(b[1..]);
    assert multiset(a) == multiset{a[0]} + ta && multiset(b) == multiset{a[0]} + tb;
    forall y: T
      ensures ta[y] == tb[y]
    {
      assert (multiset{a[0]} + ta)[y] == (multiset{a[0]} + tb)[y];
    }
  }

  lemma SortedTail(key: SortKey, a: seq<Gift>)
    requires Sorted(key, a) && a != []
    ensures Sorted(key, a[1..])
  {
    forall i, j | 0 <= i < j < |a[1..]| ensures InOrder(key, a[1..][i], a[1..][j]) {
      assert a[1..][i] == a[i + 1] && a[1..][j] == a[j + 1];
    }
  }

  lemma TieFreeTail(key: SortKey, a: seq<Gift>)
    requires TieFree(key, a) && a != []
    ensures TieFree(key, a[1..])
  {
    forall y | y in a[1..] ensures y in a {
      var k :| 0 <= k < |a[1..]| && a[1..][k] == y;
      assert a[k + 1] == y;
    }
  }

  lemma {:induction false} SortedUnique(key: SortKey, a: seq<Gift>, b: seq<Gift>)
    requires Sorted(key, a) && Sorted(key, b) && multiset(a) == multiset(b) && TieFree(key, a)
    ensures a == b
  {
    if a != [] {
      assert a[0] in multiset(b);
      assert b[0] in multiset(a);
      FirstBeforeAll(key, a, b[0]);
      FirstBeforeAll(key, b, a[0]);
      CompareFlip(key, a[0], b[0]);
      assert a[0] == b[0];
      TailPermutation(a, b);
      SortedTail(key, a);
      SortedTail(key, b);
      TieFreeTail(key, a);
      SortedUnique(key, a[1..], b[1..]);
      assert a == [a[0]] + a[1..] && b == [b[0]] + b[1..];
    }
  }

  lemma {:induction false} ReverseAscIsDesc(asc: seq<Gift>)
    requires Sorted(PriceAsc, asc)
    ensures Sorted(PriceDesc, Reverse(asc))
  {
    var rev := Reverse(asc);
    forall i, j | 0 <= i < j < |rev| ensures InOrder(PriceDesc, rev[i], rev[j]) {
      assert InOrder(PriceAsc, asc[|asc| - 1 - j], asc[|asc| - 1 - i]);
    }
  }

  lemma DistinctPricesTieFree(s: seq<Gift>, t: seq<Gift>)
    requires forall x, y :: x in s && y in s && x != y ==> x.cost != y.cost
    requires multiset(t) == multiset(s)
    ensures TieFree(PriceDesc, t)
  {
    forall x, y | x in t && y in t && Compare(PriceDesc, x, y) == 0.0
      ensures x == y
    {
      assert x in multiset(t) && y in multiset(t);
      assert x in s && y in s;
    }
  }

  /** For gifts whose prices are pairwise different, price-desc is price-asc reversed. */
  lemma PriceOrdersAreReversed(s: seq<Gift>)
    requires forall x, y :: x in s && y in s && x != y ==> x.cost != y.cost
    ensures SortGifts(PriceDesc, s) == Reverse(SortGifts(PriceAsc, s))
  {
    var asc, desc := SortGifts(PriceAsc, s), SortGifts(PriceDesc, s);
    SortGiftsSorted(PriceAsc, s);
    SortGiftsSorted(PriceDesc, s);
    ReverseAscIsDesc(asc);
    ReverseMultiset(asc);
    DistinctPricesTieFree(s, desc);
    SortedUnique(PriceDesc, desc, Reverse(asc));
  }
}
