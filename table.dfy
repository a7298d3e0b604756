/**
 The inventory table held in the session: a sequence of rows with the columns
 'Nombre del Producto', 'Stock', 'Precio' and 'Costo'. Prices and costs are
 integer cents, so every derived amount is exact.

 This module defines the row, the lookups the operations use (membership of a
 name in the name column, the first row carrying a name) and, as functions of
 the table before the operation, the table that each of delete, edit and
 subtract-stock leaves behind.
 */
module Table {

  datatype Row = Row(name: string, stock: int, price: int, cost: int)

  /** `name in inventario['Nombre del Producto'].values`: the name column is
      scanned row by row for an equal string. */
  predicate Contains(t: seq<Row>, name: string)
    ensures Contains(t, name) <==> exists i :: 0 <= i < |t| && t[i].name == name
  {
    if t == [] then false
    else if t[0].name == name then true
    else
      assert forall i :: 1 <= i < |t| ==> t[i] == t[1..][i - 1];
      Contains(t[1..], name)
  }

  /** No two rows carry the same name (exact, case-sensitive comparison). */
  predicate UniqueNames(t: seq<Row>)
  {
    forall i, j :: 0 <= i < j < |t| ==> t[i].name != t[j].name
  }

  /** Position of the first row whose name is `name`: the row that
      `inventario[inventario['Nombre del Producto'] == name].index[0]` labels. */
  function FirstIndex(t: seq<Row>, name: string): (k: nat)
    requires Contains(t, name)
    ensures k < |t| && t[k].name == name
    ensures forall j :: 0 <= j < k ==> t[j].name != name
  {
    if t[0].name == name then 0
    else
      assert exists i :: 1 <= i < |t| && t[i].name == name;
      var i :| 1 <= i < |t| && t[i].name == name;
      assert t[1..][i - 1].name == name;
      FirstIndex(t[1..], name) + 1
  }

  /** The frame the delete keeps: `inventario[inventario['Nombre del Producto'] != name]`. */
  function Without(t: seq<Row>, name: string): (r: seq<Row>)
    ensures |r| <= |t|
    ensures !Contains(r, name)
    ensures forall x :: x in r ==> x in t
  {
    if t == [] then []
    else if t[0].name == name then Without(t[1..], name)
    else [t[0]] + Without(t[1..], name)
  }

  /** The table after `editar_producto(original, ...)` writes all four cells of
      the first row named `original` with the fields of `row`. */
  function Edited(t: seq<Row>, original: string, row: Row): (r: seq<Row>)
    ensures |r| == |t|
    ensures !Contains(t, original) ==> r == t
    ensures Contains(t, original) ==>
              r[FirstIndex(t, original)] == row &&
              forall i :: 0 <= i < |t| && i != FirstIndex(t, original) ==> r[i] == t[i]
  {
    if Contains(t, original) then t[FirstIndex(t, original) := row] else t
  }

  /** Whether `sustraer_stock(name, qty)` writes the table: the name is present
      and the first row carrying it holds at least `qty` units. */
  predicate CanSubtract(t: seq<Row>, name: string, qty: int)
    ensures CanSubtract(t, name, qty) <==>
              exists k :: 0 <= k < |t| && t[k].name == name && t[k].stock >= qty &&
                          forall j :: 0 <= j < k ==> t[j].name != name
  {
    Contains(t, name) && t[FirstIndex(t, name)].stock >= qty
  }

  /** The table after `sustraer_stock(name, qty)`: the Stock cell of the first
      row named `name` drops by `qty` when it holds enough; otherwise nothing changes. */
  function Subtracted(t: seq<Row>, name: string, qty: int): (r: seq<Row>)
    ensures |r| == |t|
    ensures forall i :: 0 <= i < |t| ==> r[i].name == t[i].name && r[i].price == t[i].price && r[i].cost == t[i].cost
    ensures !CanSubtract(t, name, qty) ==> r == t
    ensures CanSubtract(t, name, qty) ==>
              var k := FirstIndex(t, name);
              r[k].stock == t[k].stock - qty && r[k].stock >= 0 &&
              forall i :: 0 <= i < |t| && i != k ==> r[i] == t[i]
  {
    if CanSubtract(t, name, qty) then
      var k := FirstIndex(t, name);
      t[k := t[k].(stock := t[k].stock - qty)]
    else t
  }

  /** Deleting a name that no row carries leaves the table as it was. */
  lemma {:induction false} WithoutAbsent(t: seq<Row>, name: string)
    requires !Contains(t, name)
    ensures Without(t, name) == t
  {
    if t != [] {
      assert t[0].name != name;
      assert !Contains(t[1..], name) by {
        forall i | 0 <= i < |t[1..]| ensures t[1..][i].name != name {
          assert t[1..][i] == t[i + 1];
        }
      }
      WithoutAbsent(t[1..], name);
      assert [t[0]] + t[1..] == t;
    }
  }

  /** The delete filter works row by row, so it keeps the surviving rows in
      their original order: filtering a concatenation filters each part. */
  lemma {:induction false} WithoutAppend(a: seq<Row>, b: seq<Row>, name: string)
    ensures Without(a + b, name) == Without(a, name) + Without(b, name)
  {
    if a == [] {
      assert a + b == b;
    } else {
      assert (a + b)[0] == a[0];
      assert (a + b)[1..] == a[1..] + b;
      WithoutAppend(a[1..], b, name);
    }
  }

  /** Each row not named `name` survives the delete as often as it occurred;
      no row named `name` survives. */
  lemma {:induction false} WithoutCounts(t: seq<Row>, name: string, x: Row)
    ensures multiset(Without(t, name))[x] == if x.name == name then 0 else multiset(t)[x]
  {
    if t != [] {
      WithoutCounts(t[1..], name, x);
      assert t == [t[0]] + t[1..];
      assert multiset(t)[x] == multiset([t[0]])[x] + multiset(t[1..])[x];
      if t[0].name != name {
        var w := Without(t[1..], name);
        assert multiset([t[0]] + w)[x] == multiset([t[0]])[x] + multiset(w)[x];
      }
    }
  }

  /** The delete never creates a duplicate name. */
  lemma {:induction false} WithoutKeepsUnique(t: seq<Row>, name: string)
    requires UniqueNames(t)
    ensures UniqueNames(Without(t, name))
  {
    if t != [] {
      var rest := t[1..];
      assert UniqueNames(rest) by {
        forall i, j | 0 <= i < j < |rest| ensures rest[i].name != rest[j].name {
          assert rest[i] == t[i + 1] && rest[j] == t[j + 1];
        }
      }
      WithoutKeepsUnique(rest, name);
      if t[0].name != name {
        var w := Without(rest, name);
        forall x | x in w ensures x.name != t[0].name {
          assert x in rest;
          var i :| 0 <= i < |rest| && rest[i] == x;
          assert t[i + 1] == x;
        }
        var r := [t[0]] + w;
        forall i, j | 0 <= i < j < |r| ensures r[i].name != r[j].name {
          if i == 0 {
            assert r[j] == w[j - 1];
            assert r[j] in w;
          } else {
            assert r[i] == w[i - 1] && r[j] == w[j - 1];
          }
        }
      }
    }
  }

  /** Filtering out the name of the middle row, when the rows around it do
      not carry that name, removes just the middle row. */
  lemma {:induction false} WithoutAround(pre: seq<Row>, x: Row, post: seq<Row>, name: string)
    requires x.name == name && !Contains(pre, name) && !Contains(post, name)
    ensures Without(pre + [x] + post, name) == pre + post
  {
    assert Without([x], name) == [] by {
      assert [x][1..] == [];
      assert Without([x], name) == Without([x][1..], name);
    }
    WithoutAppend(pre, [x], name);
    WithoutAbsent(pre, name);
    assert Without(pre + [x], name) == pre;
    WithoutAppend(pre + [x], post, name);
    WithoutAbsent(post, name);
  }

  /** When names are unique, deleting a present name removes exactly the one
      row that carries it. */
  lemma {:induction false} WithoutUniqueRemovesOne(t: seq<Row>, name: string)
    requires UniqueNames(t) && Contains(t, name)
    ensures var k := FirstIndex(t, name);
            Without(t, name) == t[..k] + t[k + 1..]
  {
    var k := FirstIndex(t, name);
    var pre, post := t[..k], t[k + 1..];
    assert !Contains(pre, name) by {
      forall i | 0 <= i < |pre| ensures pre[i].name != name {
        assert pre[i] == t[i];
      }
    }
    assert !Contains(post, name) by {
      forall i | 0 <= i < |post| ensures post[i].name != name {
        assert post[i] == t[k + 1 + i];
        assert t[k].name != t[k + 1 + i].name;
      }
    }
    assert t == pre + [t[k]] + post;
    WithoutAround(pre, t[k], post, name);
  }

  /** Subtracting stock only touches a Stock cell, so it never creates a duplicate name. */
  lemma SubtractedKeepsUnique(t: seq<Row>, name: string, qty: int)
    requires UniqueNames(t)
    ensures UniqueNames(Subtracted(t, name, qty))
  {
    var r := Subtracted(t, name, qty);
    forall i, j | 0 <= i < j < |r| ensures r[i].name != r[j].name {
      assert r[i].name == t[i].name && r[j].name == t[j].name;
    }
  }
}
