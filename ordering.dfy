/**
 * The orderings the list operation can ask the store for, selected by the
 * free-text `sortBy` key, and the sort that realises them.
 *
 * Names and descriptions are compared character by character (ordinal
 * comparison); a missing description sorts before every present one when
 * ascending, and after every present one when descending.
 */
module Ordering {
  import opened Wrappers
  import opened Products

  /** Lexicographic order on strings. */
  predicate StrLe(a: string, b: string)
    decreases |a|
  {
    a == [] || (b != [] && (a[0] < b[0] || (a[0] == b[0] && StrLe(a[1..], b[1..]))))
  }

  lemma {:induction false} StrLeTotal(a: string, b: string)
    ensures StrLe(a, b) || StrLe(b, a)
    decreases |a|
  {
    if a != [] && b != [] && a[0] == b[0] {
      StrLeTotal(a[1..], b[1..]);
    }
  }

  lemma {:induction false} StrLeTransitive(a: string, b: string, c: string)
    requires StrLe(a, b) && StrLe(b, c)
    ensures StrLe(a, c)
    decreases |a|
  {
    if a != [] && a[0] == b[0] && b[0] == c[0] {
      StrLeTransitive(a[1..], b[1..], c[1..]);
    }
  }

  /** Order on nullable descriptions: null first, then by text. */
  predicate DescriptionLe(a: Option<string>, b: Option<string>)
  {
    a.None? || (b.Some? && StrLe(a.value, b.value))
  }

  /** The six orderings of the `sortBy` switch. */
  datatype SortOrder = NameAsc | NameDesc | PriceAsc | PriceDesc | DescriptionAsc | DescriptionDesc

  /** The `sortBy` keys the switch recognises; every other key means `NameAsc`. */
  const RecognizedKeys: set<Option<string>> :=
    {Some("name_desc"), Some("price_desc"), Some("description_desc"), Some("price_asc"), Some("description_asc")}

  /** The switch on `sortBy`; a null key falls through to the default. */
  function OrderFor(sortBy: Option<string>): (o: SortOrder)
    ensures o == NameAsc <==> sortBy !in RecognizedKeys
    ensures o == NameDesc <==> sortBy == Some("name_desc")
    ensures o == PriceDesc <==> sortBy == Some("price_desc")
    ensures o == DescriptionDesc <==> sortBy == Some("description_desc")
    ensures o == PriceAsc <==> sortBy == Some("price_asc")
    ensures o == DescriptionAsc <==> sortBy == Some("description_asc")
  {
    if sortBy == Some("name_desc") then NameDesc
    else if sortBy == Some("price_desc") then PriceDesc
    else if sortBy == Some("description_desc") then DescriptionDesc
    else if sortBy == Some("price_asc") then PriceAsc
    else if sortBy == Some("description_asc") then DescriptionAsc
    else NameAsc
  }

  /** `a` may come before `b` under ordering `o`. */
  predicate Precedes(o: SortOrder, a: Product, b: Product)
  {
    match o
    case NameAsc => StrLe(a.name, b.name)
    case NameDesc => StrLe(b.name, a.name)
    case PriceAsc => a.price <= b.price
    case PriceDesc => b.price <= a.price
    case DescriptionAsc => DescriptionLe(a.description, b.description)
    case DescriptionDesc => DescriptionLe(b.description, a.description)
  }

  lemma PrecedesTotal(o: SortOrder, a: Product, b: Product)
    ensures Precedes(o, a, b) || Precedes(o, b, a)
  {
    match o
    case NameAsc => StrLeTotal(a.name, b.name);
    case NameDesc => StrLeTotal(a.name, b.name);
    case PriceAsc =>
    case PriceDesc =>
    case DescriptionAsc =>
      if a.description.Some? && b.description.Some? {
        StrLeTotal(a.description.value, b.description.value);
      }
    case DescriptionDesc =>
      if a.description.Some? && b.description.Some? {
        StrLeTotal(a.description.value, b.description.value);
      }
  }

  lemma PrecedesTransitive(o: SortOrder, a: Product, b: Product, c: Product)
    requires Precedes(o, a, b) && Precedes(o, b, c)
    ensures Precedes(o, a, c)
  {
    match o
    case NameAsc => StrLeTransitive(a.name, b.name, c.name);
    case NameDesc => StrLeTransitive(c.name, b.name, a.name);
    case PriceAsc =>
    case PriceDesc =>
    case DescriptionAsc =>
      if a.description.Some? {
        StrLeTransitive(a.description.value, b.description.value, c.description.value);
      }
    case DescriptionDesc =>
      if c.description.Some? {
        StrLeTransitive(c.description.value, b.description.value, a.description.value);
      }
  }

  /** Every row may come before every later row. */
  ghost predicate Sorted(o: SortOrder, s: seq<Product>)
  {
    forall i, j :: 0 <= i < j < |s| ==> Precedes(o, s[i], s[j])
  }

  /** Puts `x` before the first row it may precede. */
  function Insert(o: SortOrder, x: Product, s: seq<Product>): (r: seq<Product>)
    ensures |r| == |s| + 1
    ensures multiset(r) == multiset(s) + multiset{x}
    decreases |s|
  {
    if s == [] || Precedes(o, x, s[0]) then [x] + s
    else
      assert s == [s[0]] + s[1..];
      [s[0]] + Insert(o, x, s[1..])
  }

  /** The rows of `s` in the order `o` (the store's ORDER BY). */
  function Sort(o: SortOrder, s: seq<Product>): (r: seq<Product>)
    ensures |r| == |s|
    ensures multiset(r) == multiset(s)
    decreases |s|
  {
    if s == [] then []
    else
      assert s == [s[0]] + s[1..];
      Insert(o, s[0], Sort(o, s[1..]))
  }

  /** A row that may precede every row of a sorted list can be put in front of it. */
  lemma ConsSorted(o: SortOrder, x: Product, s: seq<Product>)
    requires Sorted(o, s)
    requires forall j :: 0 <= j < |s| ==> Precedes(o, x, s[j])
    ensures Sorted(o, [x] + s)
  {
    var r := [x] + s;
    forall i, j | 0 <= i < j < |r| ensures Precedes(o, r[i], r[j]) {
      assert r[j] == s[j - 1];
      if i > 0 {
        assert r[i] == s[i - 1];
      }
    }
  }

  /** A row that may precede the head of a sorted list may precede all of it. */
  lemma PrecedesHead(o: SortOrder, x: Product, s: seq<Product>)
    requires Sorted(o, s) && s != [] && Precedes(o, x, s[0])
    ensures forall j :: 0 <= j < |s| ==> Precedes(o, x, s[j])
  {
    forall j | 0 < j < |s| ensures Precedes(o, x, s[j]) {
      PrecedesTransitive(o, x, s[0], s[j]);
    }
  }

  /** The head of a sorted list may precede every row of the rest with `x` inserted. */
  lemma HeadPrecedesInsert(o: SortOrder, x: Product, s: seq<Product>)
    requires Sorted(o, s) && s != [] && Precedes(o, s[0], x)
    ensures forall j :: 0 <= j < |Insert(o, x, s[1..])| ==> Precedes(o, s[0], Insert(o, x, s[1..])[j])
  {
    var t := Insert(o, x, s[1..]);
    forall j | 0 <= j < |t| ensures Precedes(o, s[0], t[j]) {
      assert t[j] in multiset(t);
      if t[j] != x {
        assert t[j] in multiset(s[1..]);
        var k :| 0 <= k < |s[1..]| && s[1..][k] == t[j];
        assert s[k + 1] == t[j];
      }
    }
  }

  lemma {:induction false} InsertSorted(o: SortOrder, x: Product, s: seq<Product>)
    requires Sorted(o, s)
    ensures Sorted(o, Insert(o, x, s))
    decreases |s|
  {
    if s == [] {
    } else if Precedes(o, x, s[0]) {
      PrecedesHead(o, x, s);
      ConsSorted(o, x, s);
    } else {
      assert Sorted(o, s[1..]) by {
        forall i, j | 0 <= i < j < |s[1..]| ensures Precedes(o, s[1..][i], s[1..][j]) {
          assert s[1..][i] == s[i + 1] && s[1..][j] == s[j + 1];
        }
      }
      InsertSorted(o, x, s[1..]);
      PrecedesTotal(o, x, s[0]);
      HeadPrecedesInsert(o, x, s);
      ConsSorted(o, s[0], Insert(o, x, s[1..]));
    }
  }

  lemma {:induction false} SortSorted(o: SortOrder, s: seq<Product>)
    ensures Sorted(o, Sort(o, s))
    decreases |s|
  {
    if s != [] {
      SortSorted(o, s[1..]);
      InsertSorted(o, s[0], Sort(o, s[1..]));
    }
  }
}
