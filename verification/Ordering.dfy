/** The order in which results are reported: by path, then by archive entries, then by
    index, as `sortReport` and `groupCertificates` compare them; and why sorting makes
    a report independent of the order its parts arrived in. */
module Ordering {

  /** The position a result is sorted by. */
  datatype Key = Key(path: string, entries: seq<string>, index: nat)

  datatype Comparison = LT | EQ | GT

  /** `strings.Compare`. */
  function CompareStrings(a: string, b: string): Comparison {
    if a == [] then (if b == [] then EQ else LT)
    else if b == [] then GT
    else if a[0] < b[0] then LT
    else if b[0] < a[0] then GT
    else CompareStrings(a[1..], b[1..])
  }

  /** `slices.Compare` on string slices. */
  function CompareLists(a: seq<string>, b: seq<string>): Comparison {
    if a == [] then (if b == [] then EQ else LT)
    else if b == [] then GT
    else
      var first := CompareStrings(a[0], b[0]);
      if first != EQ then first else CompareLists(a[1..], b[1..])
  }

  function CompareKeys(a: Key, b: Key): Comparison {
    if a.path == b.path then
      var lists := CompareLists(a.entries, b.entries);
      if lists != EQ then lists
      else if a.index < b.index then LT else if b.index < a.index then GT else EQ
    else CompareStrings(a.path, b.path)
  }

  /** The comparator of both sorts. */
  predicate Less(a: Key, b: Key) {
    CompareKeys(a, b) == LT
  }

  function Reverse(c: Comparison): Comparison {
    match c case LT => GT case EQ => EQ case GT => LT
  }

  // ------------------------------------------------------------------ what comes first

  /** The first text ends where the second goes on, or has the smaller character where
      they first differ. */
  ghost predicate TextBefore(a: string, b: string) {
    exists k: nat :: TextParts(a, b, k)
  }

  predicate TextParts(a: string, b: string, k: nat) {
    k <= |a| && k < |b| && a[..k] == b[..k] && (k == |a| || a[k] < b[k])
  }

  ghost predicate ListBefore(a: seq<string>, b: seq<string>) {
    exists k: nat :: ListParts(a, b, k)
  }

  ghost predicate ListParts(a: seq<string>, b: seq<string>, k: nat) {
    k <= |a| && k < |b| && a[..k] == b[..k] && (k == |a| || TextBefore(a[k], b[k]))
  }

  /** Paths decide, then archive entries, then the index. */
  ghost predicate KeyBefore(x: Key, y: Key) {
    if x.path != y.path then TextBefore(x.path, y.path)
    else if x.entries != y.entries then ListBefore(x.entries, y.entries)
    else x.index < y.index
  }

  lemma TextPartsLater(a: string, b: string, k: nat)
    requires a != [] && b != [] && a[0] == b[0]
    ensures TextParts(a[1..], b[1..], k) <==> TextParts(a, b, k + 1)
  {
    if k <= |a| - 1 && k <= |b| - 1 {
      assert a[..k + 1] == [a[0]] + a[1..][..k] && b[..k + 1] == [b[0]] + b[1..][..k];
      assert a[1..][..k] == a[..k + 1][1..] && b[1..][..k] == b[..k + 1][1..];
    }
  }

  /** The comparison of texts is alphabetical. */
  lemma {:induction false} TextsCompare(a: string, b: string)
    ensures CompareStrings(a, b) == LT <==> TextBefore(a, b)
    decreases |a|
  {
    if a == [] || b == [] || a[0] != b[0] {
      assert TextParts(a, b, 0) <==> CompareStrings(a, b) == LT;
      forall k: nat | TextParts(a, b, k) ensures k == 0 {
      }
    } else {
      TextsCompare(a[1..], b[1..]);
      assert !TextParts(a, b, 0);
      if k: nat :| TextParts(a[1..], b[1..], k) {
        TextPartsLater(a, b, k);
      }
      if k: nat :| TextParts(a, b, k) {
        TextPartsLater(a, b, k - 1);
      }
    }
  }

  lemma ListPartsLater(a: seq<string>, b: seq<string>, k: nat)
    requires a != [] && b != [] && a[0] == b[0]
    ensures ListParts(a[1..], b[1..], k) <==> ListParts(a, b, k + 1)
  {
    hide TextBefore;
    if k <= |a| - 1 && k <= |b| - 1 {
      assert a[..k + 1] == [a[0]] + a[1..][..k] && b[..k + 1] == [b[0]] + b[1..][..k];
      assert a[1..][..k] == a[..k + 1][1..] && b[1..][..k] == b[..k + 1][1..];
    }
  }

  lemma TextNotBeforeItself(a: string)
    ensures !TextBefore(a, a)
  {
  }

  lemma {:induction false} ListsCompare(a: seq<string>, b: seq<string>)
    ensures CompareLists(a, b) == LT <==> ListBefore(a, b)
    decreases |a|
  {
    hide TextBefore, CompareStrings;
    if a != [] && b != [] {
      StringsOrder(a[0], b[0]);
      TextsCompare(a[0], b[0]);
    }
    if a == [] || b == [] || a[0] != b[0] {
      assert ListParts(a, b, 0) <==> CompareLists(a, b) == LT;
      forall k: nat | ListParts(a, b, k) ensures k == 0 {
      }
    } else {
      ListsCompare(a[1..], b[1..]);
      TextNotBeforeItself(a[0]);
      assert !ListParts(a, b, 0);
      if k: nat :| ListParts(a[1..], b[1..], k) {
        ListPartsLater(a, b, k);
      }
      if k: nat :| ListParts(a, b, k) {
        ListPartsLater(a, b, k - 1);
      }
    }
  }

  /** The comparator orders by the first path that is alphabetically smaller, then by the
      archive entries, then by the index. */
  lemma LessIsAlphabetical(x: Key, y: Key)
    ensures Less(x, y) <==> KeyBefore(x, y)
  {
    hide TextBefore, ListBefore, CompareStrings, CompareLists;
    TextsCompare(x.path, y.path);
    ListsCompare(x.entries, y.entries);
    ListsOrder(x.entries, y.entries);
  }

  /** What `sort.Slice` returns: nothing stands behind what it comes before. */
  lemma SortedIsAlphabetical<T>(r: seq<T>, s: seq<T>, key: T -> Key, i: nat, j: nat)
    requires IsSortOf(r, s, key) && i < j < |r|
    ensures !KeyBefore(key(r[j]), key(r[i]))
  {
    hide Less, KeyBefore;
    LessIsAlphabetical(key(r[j]), key(r[i]));
  }

  // ------------------------------------------------------------------- a total order

  lemma {:induction false} StringsOrder(a: string, b: string)
    ensures CompareStrings(a, b) == EQ <==> a == b
    ensures CompareStrings(b, a) == Reverse(CompareStrings(a, b))
  {
    if a != [] && b != [] && a[0] == b[0] {
      StringsOrder(a[1..], b[1..]);
      assert a == [a[0]] + a[1..] && b == [b[0]] + b[1..];
    }
  }

  lemma {:induction false} StringsTransitive(a: string, b: string, c: string)
    requires CompareStrings(a, b) == LT && CompareStrings(b, c) == LT
    ensures CompareStrings(a, c) == LT
  {
    if a != [] && b != [] && c != [] && a[0] == b[0] == c[0] {
      StringsTransitive(a[1..], b[1..], c[1..]);
    }
  }

  lemma {:induction false} ListsOrder(a: seq<string>, b: seq<string>)
    ensures CompareLists(a, b) == EQ <==> a == b
    ensures CompareLists(b, a) == Reverse(CompareLists(a, b))
  {
    if a != [] && b != [] {
      StringsOrder(a[0], b[0]);
      ListsOrder(a[1..], b[1..]);
      assert a == [a[0]] + a[1..] && b == [b[0]] + b[1..];
    }
  }

  lemma {:induction false} ListsTransitive(a: seq<string>, b: seq<string>, c: seq<string>)
    requires CompareLists(a, b) == LT && CompareLists(b, c) == LT
    ensures CompareLists(a, c) == LT
  {
    if a != [] && b != [] && c != [] {
      StringsOrder(a[0], b[0]);
      StringsOrder(b[0], c[0]);
      StringsOrder(a[0], c[0]);
      if CompareStrings(a[0], b[0]) == LT && CompareStrings(b[0], c[0]) == LT {
        StringsTransitive(a[0], b[0], c[0]);
      } else if a[0] == b[0] == c[0] {
        ListsTransitive(a[1..], b[1..], c[1..]);
      }
    }
  }

  /** The comparator is a strict total order on positions. */
  lemma LessIsStrictTotalOrder(a: Key, b: Key, c: Key)
    ensures !Less(a, a)
    ensures Less(a, b) || Less(b, a) || a == b
    ensures !(Less(a, b) && Less(b, a))
    ensures Less(a, b) && Less(b, c) ==> Less(a, c)
  {
    StringsOrder(a.path, b.path);
    ListsOrder(a.entries, b.entries);
    ListsOrder(a.entries, a.entries);
    if Less(a, b) && Less(b, c) {
      LessTransitive(a, b, c);
    }
  }

  lemma LessTransitive(a: Key, b: Key, c: Key)
    requires Less(a, b) && Less(b, c)
    ensures Less(a, c)
  {
    StringsOrder(a.path, b.path);
    StringsOrder(b.path, c.path);
    StringsOrder(a.path, c.path);
    if a.path != b.path && b.path != c.path {
      StringsTransitive(a.path, b.path, c.path);
    }
    ListsOrder(a.entries, b.entries);
    ListsOrder(b.entries, c.entries);
    ListsOrder(a.entries, c.entries);
    if CompareLists(a.entries, b.entries) == LT && CompareLists(b.entries, c.entries) == LT {
      ListsTransitive(a.entries, b.entries, c.entries);
    }
  }

  // ------------------------------------------------------------------------ sorting

  /** No later element comes before an earlier one. */
  predicate SortedBy<T>(s: seq<T>, key: T -> Key) {
    forall i, j :: 0 <= i < j < |s| ==> !Less(key(s[j]), key(s[i]))
  }

  /** A result `sort.Slice` may give: sorted, with the same elements. */
  predicate IsSortOf<T(==)>(r: seq<T>, s: seq<T>, key: T -> Key) {
    SortedBy(r, key) && multiset(r) == multiset(s)
  }

  /** No two different elements share a position. */
  ghost predicate DistinctKeys<T(!new)>(s: multiset<T>, key: T -> Key) {
    forall x: T, y: T :: x in s && y in s && key(x) == key(y) ==> x == y
  }

  lemma HeadIsLeast<T(!new)>(a: seq<T>, x: T, key: T -> Key)
    requires SortedBy(a, key) && a != [] && x in a
    ensures x == a[0] || !Less(key(x), key(a[0]))
  {
  }

  lemma SameHead<T(!new)>(a: seq<T>, b: seq<T>, key: T -> Key)
    requires SortedBy(a, key) && SortedBy(b, key) && multiset(a) == multiset(b) && a != []
    requires DistinctKeys(multiset(a), key)
    ensures b != [] && a[0] == b[0]
  {
    hide Less, SortedBy;
    assert |multiset(b)| == |multiset(a)| > 0;
    assert a[0] in multiset(b) && b[0] in multiset(a);
    HeadIsLeast(b, a[0], key);
    HeadIsLeast(a, b[0], key);
    LessIsStrictTotalOrder(key(a[0]), key(b[0]), key(a[0]));
  }

  lemma SameRest<T>(a: seq<T>, b: seq<T>)
    requires multiset(a) == multiset(b) && a != [] && b != [] && a[0] == b[0]
    ensures multiset(a[1..]) == multiset(b[1..])
  {
    assert a == [a[0]] + a[1..] && b == [b[0]] + b[1..];
    assert multiset(a[1..]) == multiset(a) - multiset{a[0]};
    assert multiset(b[1..]) == multiset(b) - multiset{b[0]};
  }

  lemma RestOf<T(!new)>(a: seq<T>, key: T -> Key)
    requires SortedBy(a, key) && a != []
    ensures SortedBy(a[1..], key) && (DistinctKeys(multiset(a), key) ==> DistinctKeys(multiset(a[1..]), key))
  {
  }

  /** Elements under distinct positions can be sorted in one way only, however they
      arrived and although the sort is not stable. */
  lemma {:induction false} SortIsUnique<T(!new)>(a: seq<T>, b: seq<T>, key: T -> Key)
    requires SortedBy(a, key) && SortedBy(b, key) && multiset(a) == multiset(b)
    requires DistinctKeys(multiset(a), key)
    ensures a == b
    decreases |a|
  {
    hide Less, SortedBy, DistinctKeys;
    if a == [] {
      assert |multiset(b)| == 0;
    } else {
      SameHead(a, b, key);
      SameRest(a, b);
      RestOf(a, key);
      RestOf(b, key);
      SortIsUnique(a[1..], b[1..], key);
      assert a == [a[0]] + a[1..] && b == [b[0]] + b[1..];
    }
  }

  /** A sort, by insertion. */
  function Insert<T>(x: T, s: seq<T>, key: T -> Key): (r: seq<T>)
    requires SortedBy(s, key)
    ensures SortedBy(r, key) && multiset(r) == multiset(s) + multiset{x}
  {
    if s == [] || Less(key(x), key(s[0])) then
      assert multiset([x] + s) == multiset(s) + multiset{x};
      InsertFront(x, s, key);
      [x] + s
    else
      var rest := Insert(x, s[1..], key);
      InsertLater(x, s, rest, key);
      [s[0]] + rest
  }

  lemma InsertFront<T>(x: T, s: seq<T>, key: T -> Key)
    requires SortedBy(s, key) && (s == [] || Less(key(x), key(s[0])))
    ensures SortedBy([x] + s, key)
  {
    var r := [x] + s;
    forall i, j | 0 <= i < j < |r| ensures !Less(key(r[j]), key(r[i])) {
      if i == 0 {
        LessIsStrictTotalOrder(key(x), key(s[0]), key(x));
        if j > 1 && Less(key(s[j - 1]), key(x)) {
          LessTransitive(key(s[j - 1]), key(x), key(s[0]));
        }
      }
    }
  }

  lemma InsertLater<T>(x: T, s: seq<T>, rest: seq<T>, key: T -> Key)
    requires SortedBy(s, key) && s != [] && !Less(key(x), key(s[0]))
    requires SortedBy(rest, key) && multiset(rest) == multiset(s[1..]) + multiset{x}
    ensures SortedBy([s[0]] + rest, key) && multiset([s[0]] + rest) == multiset(s) + multiset{x}
  {
    var r := [s[0]] + rest;
    assert s == [s[0]] + s[1..];
    forall i, j | 0 <= i < j < |r| ensures !Less(key(r[j]), key(r[i])) {
      if i == 0 {
        assert r[j] in multiset(rest);
        assert r[j] in s[1..] || r[j] == x;
      }
    }
  }

  function Sort<T>(s: seq<T>, key: T -> Key): (r: seq<T>)
    ensures IsSortOf(r, s, key)
  {
    if s == [] then []
    else
      assert s == [s[0]] + s[1..];
      Insert(s[0], Sort(s[1..], key), key)
  }

  /** `sort.Slice` with the report's comparator, in place. */
  method SortInPlace<T>(a: array<T>, key: T -> Key)
    modifies a
    ensures IsSortOf(a[..], old(a[..]), key)
  {
    hide Sort, Less;
    var sorted := Sort(a[..], key);
    assert |sorted| == a.Length by {
      assert |multiset(sorted)| == |multiset(a[..])|;
    }
    var index := 0;
    while index < a.Length
      invariant 0 <= index <= a.Length
      invariant a[..index] == sorted[..index]
    {
      a[index] := sorted[index];
      index := index + 1;
    }
    assert a[..] == sorted;
  }
}
