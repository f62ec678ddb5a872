/** The local product table: its rows in the database's natural order, and the
    repository operations the service uses on it (find by id, save, remove). */
module LocalTable {
  import opened Common
  import opened Entities

  function Ids(rows: seq<Product>): set<int>
  {
    set p | p in rows :: p.id
  }

  /** The primary key: no two rows share an id. */
  predicate DistinctIds(rows: seq<Product>)
  {
    forall i, j :: 0 <= i < j < |rows| ==> rows[i].id != rows[j].id
  }

  /** The position of the first row with the given id. */
  function IndexOf(rows: seq<Product>, id: int): (r: Option<nat>)
    ensures r.Some? ==> r.value < |rows| && rows[r.value].id == id
    ensures r.Some? ==> forall j :: 0 <= j < r.value ==> rows[j].id != id
    ensures r.None? <==> forall j :: 0 <= j < |rows| ==> rows[j].id != id
  {
    if |rows| == 0 then None
    else if rows[0].id == id then Some(0)
    else match IndexOf(rows[1..], id)
      case None => None
      case Some(k) => Some(k + 1)
  }

  /** findOne({ where: { id } }) on the table, and Array.find by id on a list of rows. */
  function Lookup(rows: seq<Product>, id: int): (r: Option<Product>)
    ensures r.Some? ==> r.value in rows && r.value.id == id
    ensures r.None? <==> id !in Ids(rows)
  {
    match IndexOf(rows, id)
    case Some(i) => Some(rows[i])
    case None => None
  }

  /** Under the primary key, every row is what a lookup of its id finds. */
  lemma LookupFindsRow(rows: seq<Product>, p: Product)
    requires DistinctIds(rows) && p in rows
    ensures Lookup(rows, p.id) == Some(p)
  {
  }

  /** Two tables with the same ids at the same positions agree on where an id is. */
  lemma IndexOfSameIds(a: seq<Product>, b: seq<Product>, id: int)
    requires |a| == |b| && forall k :: 0 <= k < |a| ==> a[k].id == b[k].id
    ensures IndexOf(a, id) == IndexOf(b, id)
  {
  }

  /** Appending a row leaves every lookup of another id as it was. */
  lemma LookupAppend(rows: seq<Product>, p: Product, id: int)
    requires id != p.id
    ensures Lookup(rows + [p], id) == Lookup(rows, id)
  {
    var s := rows + [p];
    var ra, rs := IndexOf(rows, id), IndexOf(s, id);
    assert ra.Some? ==> s[ra.value].id == id;
    assert rs.Some? ==> rs.value < |rows| && s[rs.value] == rows[rs.value];
  }

  /** Repository.save: the row with the product's id is replaced in place, or the
      product is appended when its id is new. */
  function Upsert(rows: seq<Product>, p: Product): (r: seq<Product>)
    ensures Lookup(r, p.id) == Some(p)
    ensures forall id :: id != p.id ==> Lookup(r, id) == Lookup(rows, id)
    ensures p.id !in Ids(rows) ==> r == rows + [p]
    ensures p.id in Ids(rows) ==> |r| == |rows|
    ensures p.id in Ids(rows) ==> forall k :: 0 <= k < |rows| && rows[k].id != p.id ==> r[k] == rows[k]
    ensures Ids(r) == Ids(rows) + {p.id}
    ensures DistinctIds(rows) ==> DistinctIds(r)
  {
    match IndexOf(rows, p.id)
    case Some(i) =>
      var r := rows[i := p];
      assert forall id :: id != p.id ==> Lookup(r, id) == Lookup(rows, id) by {
        forall id | id != p.id
          ensures Lookup(r, id) == Lookup(rows, id)
        {
          IndexOfSameIds(r, rows, id);
        }
      }
      IndexOfSameIds(r, rows, p.id);
      assert Ids(r) == Ids(rows) + {p.id} by {
        forall x | x in Ids(rows) ensures x in Ids(r) {
          var k :| 0 <= k < |rows| && rows[k].id == x;
          assert r[k].id == x;
        }
        forall x | x in Ids(r) ensures x in Ids(rows) + {p.id} {
          var k :| 0 <= k < |r| && r[k].id == x;
          assert k != i ==> r[k] == rows[k];
        }
      }
      r
    case None =>
      var r := rows + [p];
      assert forall id :: id != p.id ==> Lookup(r, id) == Lookup(rows, id) by {
        forall id | id != p.id
          ensures Lookup(r, id) == Lookup(rows, id)
        {
          LookupAppend(rows, p, id);
        }
      }
      assert r[|rows|] == p;
      assert Ids(r) == Ids(rows) + {p.id};
      r
  }

  /** Repository.remove: the row with the given id is dropped and the others keep
      their order (Reconcile.DeleteKeepsOrder). */
  function Delete(rows: seq<Product>, id: int): (r: seq<Product>)
    ensures id !in Ids(rows) ==> r == rows
    ensures id in Ids(rows) ==> |r| == |rows| - 1
    ensures forall p :: p in r ==> p in rows
    ensures forall k :: k != id ==> Lookup(r, k) == Lookup(rows, k)
    ensures DistinctIds(rows) ==> Lookup(r, id).None? && DistinctIds(r)
  {
    match IndexOf(rows, id)
    case None => rows
    case Some(i) =>
      var r := rows[..i] + rows[i + 1..];
      assert forall k :: k != id ==> Lookup(r, k) == Lookup(rows, k) by {
        forall k | k != id
          ensures Lookup(r, k) == Lookup(rows, k)
        {
          DeleteKeepsLookup(rows, i, k);
        }
      }
      assert DistinctIds(rows) ==> Lookup(r, id).None? by {
        forall k | 0 <= k < |r| ensures r[k] == rows[if k < i then k else k + 1] {
        }
      }
      assert DistinctIds(rows) ==> DistinctIds(r) by {
        if DistinctIds(rows) {
          forall a, b | 0 <= a < b < |r| ensures r[a].id != r[b].id {
            var a' := if a < i then a else a + 1;
            var b' := if b < i then b else b + 1;
            assert r[a] == rows[a'] && r[b] == rows[b'];
          }
        }
      }
      r
  }

  /** Dropping the row at position i does not change where another id is found. */
  lemma DeleteKeepsLookup(rows: seq<Product>, i: nat, k: int)
    requires i < |rows| && rows[i].id != k
    ensures Lookup(rows[..i] + rows[i + 1..], k) == Lookup(rows, k)
  {
    var r := rows[..i] + rows[i + 1..];
    var rr, ro := IndexOf(r, k), IndexOf(rows, k);
    if ro.Some? {
      var j := ro.value;
      var j' := if j < i then j else j - 1;
      assert r[j'] == rows[j];
      assert IndexOf(r, k) == Some(j') by {
        forall m | 0 <= m < j' ensures r[m].id != k {
          if m < i { assert r[m] == rows[m]; } else { assert r[m] == rows[m + 1]; }
        }
      }
    }
    forall m | 0 <= m < |r| ensures r[m] == rows[if m < i then m else m + 1] {
    }
  }
}
