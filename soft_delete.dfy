/**
 * Soft delete as the ORM does it: a row is never removed by `delete()`, its
 * `deleted_at` is set instead, ordinary queries skip it, `onlyTrashed()`
 * queries see only such rows, and `restore()` clears the mark. The model keeps
 * the mark as a flag beside each row.
 */
module SoftDelete {
  import opened Schema

  datatype Row<T> = Row(val: T, deleted: bool)

  type Table<T> = map<Id, Row<T>>

  /** The row exists and ordinary queries see it. */
  predicate Live<T>(m: Table<T>, k: Id) {
    k in m && !m[k].deleted
  }

  /** The row exists and only `onlyTrashed()` queries see it. */
  predicate Trashed<T>(m: Table<T>, k: Id) {
    k in m && m[k].deleted
  }

  function LiveIn<T>(m: Table<T>, ks: set<Id>): (r: set<Id>)
    ensures forall k :: k in r <==> k in ks && Live(m, k)
  {
    set k | k in ks && Live(m, k)
  }

  function TrashedIn<T>(m: Table<T>, ks: set<Id>): (r: set<Id>)
    ensures forall k :: k in r <==> k in ks && Trashed(m, k)
  {
    set k | k in ks && Trashed(m, k)
  }

  /** The table after every row of `ks` has been deleted (`flag`) or restored (`!flag`). */
  function WithDeleted<T>(m: Table<T>, ks: set<Id>, flag: bool): (r: Table<T>)
    ensures r.Keys == m.Keys
    ensures forall k :: k in r ==> r[k].val == m[k].val
    ensures forall k :: k in r ==> r[k].deleted == (if k in ks then flag else m[k].deleted)
  {
    map k | k in m :: if k in ks then Row(m[k].val, flag) else m[k]
  }

  /**
   * `foreach ($rows as $row) { $row->delete(); }` (or `restore()`): marks the
   * rows of `ks` one at a time, in whatever order the collection holds them.
   */
  method MarkAll<T>(m: Table<T>, ks: set<Id>, flag: bool) returns (r: Table<T>)
    ensures r == WithDeleted(m, ks, flag)
  {
    r := m;
    var todo := ks;
    while todo != {}
      invariant todo <= ks
      invariant r == WithDeleted(m, ks - todo, flag)
      decreases todo
    {
      var k :| k in todo;
      if k in r {
        r := r[k := Row(r[k].val, flag)];
      }
      todo := todo - {k};
    }
  }

  /**
   * Deleting the live rows of `ks` and then restoring its trashed rows leaves
   * every row of `ks` live. That gives the table back exactly when none of
   * those rows was trashed beforehand: a restore cascade also revives rows
   * that were deleted on their own, before the parent was.
   */
  lemma DeleteThenRestore<T>(m: Table<T>, ks: set<Id>)
    ensures var m1 := WithDeleted(m, LiveIn(m, ks), true);
            var m2 := WithDeleted(m1, TrashedIn(m1, ks), false);
            && m2 == WithDeleted(m, ks, false)
            && (m2 == m <==> forall k :: k in ks ==> !Trashed(m, k))
  {
    var m1 := WithDeleted(m, LiveIn(m, ks), true);
    var m2 := WithDeleted(m1, TrashedIn(m1, ks), false);
    assert m2 == WithDeleted(m, ks, false);
    if m2 == m {
      forall k | k in ks ensures !Trashed(m, k) {
        if k in m {
          assert m2[k].deleted == false;
        }
      }
    }
  }
}
