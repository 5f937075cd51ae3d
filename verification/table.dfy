/** A database table as the handlers see it: rows with integer primary keys, kept in the
    order they were inserted. */
module Table {
  import opened Wrappers

  datatype Row<T> = Row(id: int, data: T)

  type Table<T> = seq<Row<T>>

  /** Primary keys increase along the table, so no two rows share one. */
  ghost predicate Increasing<T>(t: Table<T>)
  {
    forall i, j :: 0 <= i < j < |t| ==> t[i].id < t[j].id
  }

  /** Every key is below `next`, the key the next insertion receives. */
  ghost predicate Below<T>(t: Table<T>, next: int)
  {
    forall i :: 0 <= i < |t| ==> t[i].id < next
  }

  ghost predicate WellFormed<T>(t: Table<T>, next: int)
  {
    Increasing(t) && Below(t, next)
  }

  ghost predicate HasId<T>(t: Table<T>, id: int)
  {
    exists i :: 0 <= i < |t| && t[i].id == id
  }

  /** `Model.query.get(id)`: the row with primary key `id`, if there is one. */
  function Find<T>(t: Table<T>, id: int): (r: Option<T>)
    ensures r.Some? <==> HasId(t, id)
    ensures r.Some? ==> Row(id, r.value) in t
  {
    if t == [] then None
    else if t[0].id == id then Some(t[0].data)
    else
      assert forall i :: 1 <= i < |t| ==> t[i] == t[1..][i - 1];
      Find(t[1..], id)
  }

  /** In a table with distinct keys, `Find` returns the one row that has the key. */
  lemma FindUnique<T>(t: Table<T>, i: int)
    requires Increasing(t) && 0 <= i < |t|
    ensures Find(t, t[i].id) == Some(t[i].data)
  {
    var v := Find(t, t[i].id).value;
    var j :| 0 <= j < |t| && t[j] == Row(t[i].id, v);
    assert j == i;
  }

  /** `db.session.add(row)` followed by a commit: the new row goes at the end. */
  function Insert<T>(t: Table<T>, next: int, data: T): (r: Table<T>)
    requires WellFormed(t, next)
    ensures WellFormed(r, next + 1)
    ensures |r| == |t| + 1 && r[..|t|] == t && r[|t|] == Row(next, data)
    ensures !HasId(t, next)
  {
    t + [Row(next, data)]
  }

  /** `db.session.delete(row)` followed by a commit: the table without the row keyed `id`. */
  function Delete<T>(t: Table<T>, id: int): (r: Table<T>)
    ensures !HasId(r, id)
    ensures |r| <= |t|
  {
    if t == [] then []
    else if t[0].id == id then Delete(t[1..], id)
    else [t[0]] + Delete(t[1..], id)
  }

  /** Deleting the key of row `i` removes row `i` and nothing else, keeping the order. */
  lemma {:induction false} DeleteAt<T>(t: Table<T>, i: int)
    requires Increasing(t) && 0 <= i < |t|
    ensures Delete(t, t[i].id) == t[..i] + t[i + 1..]
  {
    var id := t[i].id;
    var tail := t[1..];
    IncreasingTail(t);
    if i == 0 {
      DeleteAbsent(tail, id);
    } else {
      assert t[0].id != id;
      DeleteAt(tail, i - 1);
      assert tail[i - 1].id == id;
      calc {
        Delete(t, id);
        [t[0]] + Delete(tail, id);
        [t[0]] + (tail[..i - 1] + tail[i..]);
        { TailSlices(t, i); }
        [t[0]] + (t[1..i] + t[i + 1..]);
        { assert t[..i] == [t[0]] + t[1..i]; }
        t[..i] + t[i + 1..];
      }
    }
  }

  /** The rows after the first of a table with increasing keys have increasing keys, all
      above the first row's. */
  lemma IncreasingTail<T>(t: Table<T>)
    requires Increasing(t) && t != []
    ensures Increasing(t[1..])
    ensures forall k :: 0 <= k < |t[1..]| ==> t[0].id < t[1..][k].id
  {
    var tail := t[1..];
    forall a, b | 0 <= a < b < |tail| ensures tail[a].id < tail[b].id {
      assert tail[a] == t[a + 1] && tail[b] == t[b + 1];
    }
    forall k | 0 <= k < |tail| ensures t[0].id < tail[k].id {
      assert tail[k] == t[k + 1];
    }
  }

  lemma TailSlices<X>(s: seq<X>, i: int)
    requires 1 <= i < |s|
    ensures s[1..][..i - 1] == s[1..i] && s[1..][i..] == s[i + 1..]
  {
  }

  /** Deleting a key that is absent leaves the table as it is. */
  lemma {:induction false} DeleteAbsent<T>(t: Table<T>, id: int)
    requires forall k :: 0 <= k < |t| ==> t[k].id != id
    ensures Delete(t, id) == t
  {
    if t != [] {
      DeleteAbsent(t[1..], id);
      assert t == [t[0]] + t[1..];
    }
  }

  /** The position in `t` of position `a` of `t` with row `i` removed. */
  function Skip(a: int, i: int): int
  {
    if a < i then a else a + 1
  }

  lemma RemoveIndex<T>(t: Table<T>, i: int)
    requires 0 <= i < |t|
    ensures |t[..i] + t[i + 1..]| == |t| - 1
    ensures forall a :: 0 <= a < |t| - 1 ==> (t[..i] + t[i + 1..])[a] == t[Skip(a, i)]
  {
  }

  /** Taking one row out of a well-formed table leaves a well-formed table one row shorter. */
  lemma RemoveKeepsWellFormed<T>(t: Table<T>, next: int, i: int)
    requires WellFormed(t, next) && 0 <= i < |t|
    ensures WellFormed(t[..i] + t[i + 1..], next)
    ensures |t[..i] + t[i + 1..]| == |t| - 1
  {
    var r := t[..i] + t[i + 1..];
    RemoveIndex(t, i);
    forall a, b | 0 <= a < b < |r| ensures r[a].id < r[b].id {
      assert r[a] == t[Skip(a, i)] && r[b] == t[Skip(b, i)];
    }
    forall a | 0 <= a < |r| ensures r[a].id < next {
      assert r[a] == t[Skip(a, i)];
    }
  }

  /** Deleting an existing key removes exactly one row, and the result is well formed. */
  lemma DeleteExisting<T>(t: Table<T>, next: int, id: int)
    requires WellFormed(t, next) && HasId(t, id)
    ensures WellFormed(Delete(t, id), next)
    ensures |Delete(t, id)| == |t| - 1
  {
    var i :| 0 <= i < |t| && t[i].id == id;
    DeleteAt(t, i);
    RemoveKeepsWellFormed(t, next, i);
  }

  /** Deleting one key keeps every row with another key. */
  lemma {:induction false} DeleteKeepsOthers<T>(t: Table<T>, id: int, x: int)
    requires HasId(t, x) && x != id
    ensures HasId(Delete(t, id), x)
  {
    if t[0].id == x {
      assert Delete(t, id)[0].id == x;
    } else {
      var k :| 0 <= k < |t| && t[k].id == x;
      assert t[1..][k - 1].id == x;
      DeleteKeepsOthers(t[1..], id, x);
      var r := Delete(t[1..], id);
      var j :| 0 <= j < |r| && r[j].id == x;
      if t[0].id != id {
        assert Delete(t, id)[j + 1] == r[j];
      }
    }
  }

  /** Every row left by a deletion was a row of the table. */
  lemma {:induction false} DeleteKeepsRows<T>(t: Table<T>, id: int, k: int)
    requires 0 <= k < |Delete(t, id)|
    ensures Delete(t, id)[k] in t
  {
    var r := Delete(t[1..], id);
    if t[0].id == id {
      DeleteKeepsRows(t[1..], id, k);
    } else if k > 0 {
      DeleteKeepsRows(t[1..], id, k - 1);
    }
    assert forall x :: x in t[1..] ==> x in t;
  }

  /** Appending a row keeps every key that was there. */
  lemma InsertKeeps<T>(t: Table<T>, next: int, data: T, x: int)
    requires WellFormed(t, next) && HasId(t, x)
    ensures HasId(Insert(t, next, data), x)
  {
    var k :| 0 <= k < |t| && t[k].id == x;
    assert Insert(t, next, data)[k] == t[k];
  }
}
