/**
 * The product table, abstracted to a map from primary key to row, and
 * the two ways the repository reads it: a full scan and a first-match
 * lookup by key. A scan returns the rows in ascending key order.
 */
module Table {
  import opened Wrappers
  import opened Products

  type Table = map<int, Product>

  /** Each row is stored under its own id. */
  ghost predicate WellKeyed(t: Table)
  {
    forall k :: k in t ==> t[k].id == k
  }

  /** A non-empty set of keys has a least element (by induction on the set). */
  lemma MinExists(keys: set<int>)
    requires keys != {}
    ensures exists m :: m in keys && forall k :: k in keys ==> m <= k
    decreases |keys|
  {
    if forall x :: x !in keys {
      assert false;
    }
    var x :| x in keys;
    if forall k :: k in keys ==> k == x {
      assert x in keys && forall k :: k in keys ==> x <= k;
    } else {
      var y :| y in keys && y != x;
      assert y in keys - {x};
      MinExists(keys - {x});
      var rest :| rest in keys - {x} && forall k :: k in keys - {x} ==> rest <= k;
      var m := if x < rest then x else rest;
      forall k | k in keys ensures m <= k {
        if k != x {
          assert k in keys - {x};
        }
      }
      assert m in keys && forall k :: k in keys ==> m <= k;
    }
  }

  /** The least of a non-empty set of keys. */
  function Least(keys: set<int>): (m: int)
    requires keys != {}
    ensures m in keys && forall k :: k in keys ==> m <= k
  {
    MinExists(keys);
    var m :| m in keys && forall k :: k in keys ==> m <= k;
    m
  }

  /** The keys in ascending order. */
  function SortedKeys(keys: set<int>): (r: seq<int>)
    ensures |r| == |keys|
    ensures forall k :: k in r <==> k in keys
    ensures forall i, j :: 0 <= i < j < |r| ==> r[i] < r[j]
    decreases |keys|
  {
    if keys == {} then []
    else
      var m := Least(keys);
      var rest := SortedKeys(keys - {m});
      ConsLeast(keys, m, rest);
      [m] + rest
  }

  /** Putting the least key in front of the ascending rest gives all keys, ascending. */
  lemma ConsLeast(keys: set<int>, m: int, rest: seq<int>)
    requires m in keys && forall k :: k in keys ==> m <= k
    requires |rest| == |keys - {m}|
    requires forall k :: k in rest <==> k in keys - {m}
    requires forall i, j :: 0 <= i < j < |rest| ==> rest[i] < rest[j]
    ensures |[m] + rest| == |keys|
    ensures forall k :: k in [m] + rest <==> k in keys
    ensures forall i, j :: 0 <= i < j < |[m] + rest| ==> ([m] + rest)[i] < ([m] + rest)[j]
  {
    var r := [m] + rest;
    assert |keys - {m}| == |keys| - 1;
    forall i, j | 0 <= i < j < |r| ensures r[i] < r[j] {
      assert r[j] == rest[j - 1] && r[j] in keys - {m};
      if i > 0 {
        assert r[i] == rest[i - 1];
      }
    }
  }

  /** The rows a full scan of the table returns (ToListAsync). */
  function Scan(t: Table): (r: seq<Product>)
    ensures |r| == |t|
    ensures forall x :: x in r <==> x in t.Values
    ensures WellKeyed(t) ==> forall i, j :: 0 <= i < j < |r| ==> r[i].id < r[j].id
  {
    var ks := SortedKeys(t.Keys);
    var r := RowsAt(t, ks);
    ScanFacts(t, ks, r);
    r
  }

  /** The rows stored under the keys `ks`, in that order. */
  function RowsAt(t: Table, ks: seq<int>): (r: seq<Product>)
    requires forall i :: 0 <= i < |ks| ==> ks[i] in t
    ensures |r| == |ks| && forall i :: 0 <= i < |ks| ==> ks[i] in t && r[i] == t[ks[i]]
    decreases |ks|
  {
    if ks == [] then [] else [t[ks[0]]] + RowsAt(t, ks[1..])
  }

  lemma ScanFacts(t: Table, ks: seq<int>, r: seq<Product>)
    requires |ks| == |t.Keys|
    requires forall k :: k in ks <==> k in t
    requires forall i, j :: 0 <= i < j < |ks| ==> ks[i] < ks[j]
    requires |r| == |ks| && forall i :: 0 <= i < |ks| ==> ks[i] in t && r[i] == t[ks[i]]
    ensures |r| == |t|
    ensures forall x :: x in r <==> x in t.Values
    ensures WellKeyed(t) ==> forall i, j :: 0 <= i < j < |r| ==> r[i].id < r[j].id
  {
    assert |t.Keys| == |t|;
    forall x | x in t.Values ensures x in r {
      if forall k :: k in t ==> t[k] != x {
        assert false;
      }
      var k :| k in t && t[k] == x;
      assert k in ks;
      var i :| 0 <= i < |ks| && ks[i] == k;
      assert r[i] == x;
    }
    forall x | x in r ensures x in t.Values {
      var i :| 0 <= i < |r| && r[i] == x;
      assert t[ks[i]] == x;
    }
  }

  /** The first row with the given id (FirstOrDefaultAsync), or none. */
  function FirstWithId(rows: seq<Product>, id: int): (r: Option<Product>)
    ensures r.Some? ==> r.value in rows && r.value.id == id
    ensures r.None? ==> forall x :: x in rows ==> x.id != id
    decreases |rows|
  {
    if rows == [] then None
    else if rows[0].id == id then Some(rows[0])
    else
      assert rows == [rows[0]] + rows[1..];
      FirstWithId(rows[1..], id)
  }

  /** On a well-keyed table, the first-match lookup over a scan is the lookup of the key. */
  lemma FirstWithIdIsKeyLookup(t: Table, id: int)
    requires WellKeyed(t)
    ensures FirstWithId(Scan(t), id) == if id in t then Some(t[id]) else None
  {
    var r := FirstWithId(Scan(t), id);
    if id in t {
      assert t[id] in Scan(t);
    }
    if r.Some? {
      var k :| k in t && t[k] == r.value;
    }
  }
}
