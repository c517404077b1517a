/**
 * The product table behind `prisma.product`: rows in insertion order, each
 * with an auto-incremented id. Only the columns the core reads are kept.
 */
module ProductStore {
  import opened Wrappers

  datatype Product = Product(id: nat, name: string, description: string)

  /** No two rows share an id. */
  predicate DistinctIds(rows: seq<Product>) {
    forall i, j :: 0 <= i < |rows| && 0 <= j < |rows| && i != j ==> rows[i].id != rows[j].id
  }

  /** Ids grow in insertion order. */
  predicate IncreasingIds(rows: seq<Product>) {
    forall i, j :: 0 <= i < j < |rows| ==> rows[i].id < rows[j].id
  }

  lemma IncreasingIdsAreDistinct(rows: seq<Product>)
    requires IncreasingIds(rows)
    ensures DistinctIds(rows)
  {
    forall i, j | 0 <= i < |rows| && 0 <= j < |rows| && i != j
      ensures rows[i].id != rows[j].id
    {
      if i < j { assert rows[i].id < rows[j].id; } else { assert rows[j].id < rows[i].id; }
    }
  }

  /** `findUnique({ where: { id } })`: the row with that id, if any. */
  function FindProduct(rows: seq<Product>, id: nat): (r: Option<Product>)
    ensures r.Some? ==> r.value in rows && r.value.id == id
    ensures r.None? ==> forall i :: 0 <= i < |rows| ==> rows[i].id != id
  {
    if rows == [] then None
    else if rows[0].id == id then Some(rows[0])
    else FindProduct(rows[1..], id)
  }

  /** Once ids are distinct, the row a lookup finds is the only one with that id. */
  lemma {:induction false} FindProductUnique(rows: seq<Product>, k: nat)
    requires DistinctIds(rows) && k < |rows|
    ensures FindProduct(rows, rows[k].id) == Some(rows[k])
  {
    if k > 0 {
      assert rows[0].id != rows[k].id;
      var tail := rows[1..];
      assert tail[k - 1] == rows[k];
      assert DistinctIds(tail) by {
        forall i, j | 0 <= i < |tail| && 0 <= j < |tail| && i != j
          ensures tail[i].id != tail[j].id
        {
          assert tail[i] == rows[i + 1] && tail[j] == rows[j + 1];
        }
      }
      FindProductUnique(tail, k - 1);
    }
  }

  class ProductTable {
    var rows: seq<Product>
    var nextId: nat

    /** Ids are at least 1, below the next id to hand out, and increasing. */
    ghost predicate Valid()
      reads this
    {
      nextId >= 1 &&
      (forall i :: 0 <= i < |rows| ==> 1 <= rows[i].id < nextId) &&
      IncreasingIds(rows)
    }

    constructor ()
      ensures Valid() && rows == [] && nextId == 1
    {
      rows := [];
      nextId := 1;
    }

    /**
     * `prisma.product.create({ data: { name, description } })`: appends one
     * row with exactly the given columns under a fresh id, which no earlier
     * row has.
     */
    method Create(name: string, description: string) returns (p: Product)
      requires Valid()
      modifies this
      ensures Valid()
      ensures p == Product(old(nextId), name, description)
      ensures rows == old(rows) + [p] && nextId == old(nextId) + 1
      ensures forall q :: q in old(rows) ==> q.id < p.id
    {
      p := Product(nextId, name, description);
      rows := rows + [p];
      nextId := nextId + 1;
    }
  }

  /** After a create, looking the new id up finds exactly the new row. */
  lemma CreateThenFind(before: seq<Product>, p: Product)
    requires IncreasingIds(before) && forall q :: q in before ==> q.id < p.id
    ensures IncreasingIds(before + [p])
    ensures FindProduct(before + [p], p.id) == Some(p)
  {
    var after := before + [p];
    assert IncreasingIds(after) by {
      forall i, j | 0 <= i < j < |after|
        ensures after[i].id < after[j].id
      {
        if j == |before| {
          assert after[i] in before;
        }
      }
    }
    IncreasingIdsAreDistinct(after);
    FindProductUnique(after, |before|);
  }
}
