/**
 * The bookmarks table as the router uses it: a sequence of rows in
 * insertion order, looked up by id and deleted by id. The store keeps the
 * values the router inserts as they were given.
 */
module Store {
  import opened Json
  import opened Wrappers

  /** A row of the bookmarks table. */
  datatype Row = Row(id: nat, title: Value, url: Value, description: Value, rating: Value)

  /** Some row carries `id`. */
  predicate HasId(rows: seq<Row>, id: nat) {
    exists i :: 0 <= i < |rows| && rows[i].id == id
  }

  /** No two rows share an id (the table's primary key). */
  predicate UniqueIds(rows: seq<Row>) {
    forall i, j :: 0 <= i < j < |rows| ==> rows[i].id != rows[j].id
  }

  /** The elements of `s` that `keep` accepts, in their original order (`Array.prototype.filter`). */
  function Filter<T(!new)>(s: seq<T>, keep: T -> bool): (r: seq<T>)
    ensures |r| <= |s|
    ensures forall x :: x in r <==> x in s && keep(x)
  {
    if s == [] then []
    else if keep(s[0]) then [s[0]] + Filter(s[1..], keep)
    else Filter(s[1..], keep)
  }

  /** Filtering a concatenation filters each part and keeps them in order. */
  lemma {:induction false} FilterAppend<T(!new)>(a: seq<T>, b: seq<T>, keep: T -> bool)
    ensures Filter(a + b, keep) == Filter(a, keep) + Filter(b, keep)
  {
    if a == [] {
      assert a + b == b;
    } else {
      assert (a + b)[1..] == a[1..] + b;
      FilterAppend(a[1..], b, keep);
    }
  }

  /** Filtering with a test every element passes changes nothing. */
  lemma {:induction false} FilterAll<T(!new)>(s: seq<T>, keep: T -> bool)
    requires forall i :: 0 <= i < |s| ==> keep(s[i])
    ensures Filter(s, keep) == s
  {
    if s != [] {
      FilterAll(s[1..], keep);
    }
  }

  /** The lookup behind `getById`: the row with that id, if there is one. */
  function Find(rows: seq<Row>, id: nat): (r: Option<Row>)
    ensures r.Some? ==> r.value in rows && r.value.id == id
    ensures r.None? <==> !HasId(rows, id)
  {
    if rows == [] then None
    else if rows[0].id == id then Some(rows[0])
    else
      var r := Find(rows[1..], id);
      assert HasId(rows[1..], id) ==> HasId(rows, id) by {
        if HasId(rows[1..], id) {
          var i :| 0 <= i < |rows[1..]| && rows[1..][i].id == id;
          assert rows[i + 1].id == id;
        }
      }
      r
  }

  /** With unique ids, the row found is the only row carrying that id. */
  lemma FindUnique(rows: seq<Row>, id: nat, i: nat)
    requires UniqueIds(rows)
    requires i < |rows| && rows[i].id == id
    ensures Find(rows, id) == Some(rows[i])
  {
  }

  /** The deletion by id: every row carrying `id` goes, the others stay in order. */
  function Without(rows: seq<Row>, id: nat): seq<Row> {
    Filter(rows, (r: Row) => r.id != id)
  }

  /**
   * Deleting the id of row `i` in a table with unique ids removes exactly
   * that row: the rows before it and the rows after it stay, in order.
   */
  lemma RemovesExactlyOne(rows: seq<Row>, id: nat, i: nat)
    requires UniqueIds(rows)
    requires i < |rows| && rows[i].id == id
    ensures Without(rows, id) == rows[..i] + rows[i + 1..]
    ensures |Without(rows, id)| == |rows| - 1
  {
    var keep := (r: Row) => r.id != id;
    assert rows == rows[..i] + ([rows[i]] + rows[i + 1..]);
    FilterAppend(rows[..i], [rows[i]] + rows[i + 1..], keep);
    FilterAppend([rows[i]], rows[i + 1..], keep);
    FilterAll(rows[..i], keep);
    FilterAll(rows[i + 1..], keep);
    assert Filter([rows[i]], keep) == [];
  }

  /** A deletion keeps the ids unique. */
  lemma {:induction false} WithoutUnique(rows: seq<Row>, id: nat)
    requires UniqueIds(rows)
    ensures UniqueIds(Without(rows, id))
  {
    if rows != [] {
      WithoutUnique(rows[1..], id);
      var rest := Without(rows[1..], id);
      if rows[0].id != id {
        assert Without(rows, id) == [rows[0]] + rest;
        forall j | 0 <= j < |rest| ensures rest[j].id != rows[0].id {
          assert rest[j] in rows[1..];
        }
      } else {
        assert Without(rows, id) == rest;
      }
    }
  }

  /** After a deletion the id is gone and every other id finds what it found before. */
  lemma {:induction false} FindAfterDelete(rows: seq<Row>, id: nat, other: nat)
    ensures Find(Without(rows, id), other) == if other == id then None else Find(rows, other)
  {
    if rows != [] {
      FindAfterDelete(rows[1..], id, other);
      if rows[0].id != id {
        assert Without(rows, id) == [rows[0]] + Without(rows[1..], id);
        assert ([rows[0]] + Without(rows[1..], id))[1..] == Without(rows[1..], id);
      } else {
        assert Without(rows, id) == Without(rows[1..], id);
      }
    }
  }

  /** A row appended with an id no other row carries is found by that id. */
  lemma FindAppended(rows: seq<Row>, row: Row)
    requires !HasId(rows, row.id)
    ensures Find(rows + [row], row.id) == Some(row)
  {
    var all := rows + [row];
    assert all[|rows|].id == row.id;
    var r := Find(all, row.id);
    var j :| 0 <= j < |all| && all[j] == r.value;
    if j < |rows| {
      assert rows[j].id == row.id;
    }
  }
}
