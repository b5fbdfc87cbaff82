/** The users table as the store sees it: a sequence of rows in insertion
    order, with the lookups (find by primary key, query by email) and the
    row-level writes (append, overwrite fields, remove) that the
    persistence layer performs on it. */
module Table {
  import opened Wrappers
  import opened Users

  /** No two rows share an id (the primary key). */
  ghost predicate UniqueIds(rows: seq<User>) {
    forall i, j :: 0 <= i < j < |rows| ==> rows[i].id != rows[j].id
  }

  /** No two rows share an email. The store does not enforce this; the
      services keep it (see Validation). */
  ghost predicate UniqueEmails(rows: seq<User>) {
    forall i, j :: 0 <= i < j < |rows| ==> rows[i].email != rows[j].email
  }

  /** Primary-key integrity: every id is positive, below the next id the
      sequence hands out, and unique. */
  ghost predicate TableValid(rows: seq<User>, nextId: int) {
    && 0 < nextId
    && (forall i :: 0 <= i < |rows| ==> 0 < rows[i].id < nextId)
    && UniqueIds(rows)
  }

  /** Position of the first row with the given id, if any. */
  function IndexOf(rows: seq<User>, id: int): (r: Option<nat>)
    ensures r.Some? ==> r.value < |rows| && rows[r.value].id == id
    ensures r.Some? ==> forall j :: 0 <= j < r.value ==> rows[j].id != id
    ensures r.None? ==> forall j :: 0 <= j < |rows| ==> rows[j].id != id
  {
    if |rows| == 0 then None
    else if rows[0].id == id then Some(0)
    else match IndexOf(rows[1..], id)
      case None => None
      case Some(k) => Some(k + 1)
  }

  /** `session.find(User.class, id)`: the row with that id, or null (None). */
  function FindById(rows: seq<User>, id: int): (r: Option<User>)
    ensures r.Some? ==> r.value.id == id
  {
    match IndexOf(rows, id)
    case None => None
    case Some(i) => Some(rows[i])
  }

  /** The result list of the query `select u where u.email = email`: rows
      with that email only, and empty exactly when the table has none. */
  function WithEmail(rows: seq<User>, email: string): (r: seq<User>)
    ensures |r| <= |rows|
    ensures forall k :: 0 <= k < |r| ==> r[k].email == email
    ensures |r| == 0 <==> forall i :: 0 <= i < |rows| ==> rows[i].email != email
  {
    if |rows| == 0 then []
    else (if rows[0].email == email then [rows[0]] else []) + WithEmail(rows[1..], email)
  }

  /** `users.isEmpty() ? null : users.get(0)` applied to that query. */
  function FirstByEmail(rows: seq<User>, email: string): (r: Option<User>)
    ensures r.Some? ==> r.value.email == email
    ensures r.None? <==> forall i :: 0 <= i < |rows| ==> rows[i].email != email
  {
    var matches := WithEmail(rows, email);
    if |matches| == 0 then None else Some(matches[0])
  }

  /** The row with `user.id` gets `user`'s name, email and age; its id stays,
      and no row with another id changes. */
  function UpdateRow(rows: seq<User>, user: User): (r: seq<User>)
    ensures |r| == |rows|
    ensures forall k :: 0 <= k < |rows| ==> r[k].id == rows[k].id
    ensures forall k :: 0 <= k < |rows| && rows[k].id != user.id ==> r[k] == rows[k]
    ensures (exists k :: 0 <= k < |rows| && rows[k].id == user.id) ==> user in r
  {
    match IndexOf(rows, user.id)
    case None => rows
    case Some(i) => rows[i := rows[i].(name := user.name, email := user.email, age := user.age)]
  }

  /** The table without the row with that id: one row shorter when the id is
      present, unchanged otherwise. */
  function DeleteRow(rows: seq<User>, id: int): (r: seq<User>)
    ensures (exists k :: 0 <= k < |rows| && rows[k].id == id) ==> |r| == |rows| - 1
    ensures (forall k :: 0 <= k < |rows| ==> rows[k].id != id) ==> r == rows
  {
    match IndexOf(rows, id)
    case None => rows
    case Some(i) => rows[..i] + rows[i + 1..]
  }

  /** IndexOf is pinned down by its postconditions: any answer that meets them is IndexOf's. */
  lemma IndexOfUnique(rows: seq<User>, id: int, r: Option<nat>)
    requires r.Some? ==> r.value < |rows| && rows[r.value].id == id
    requires r.Some? ==> forall j :: 0 <= j < r.value ==> rows[j].id != id
    requires r.None? ==> forall j :: 0 <= j < |rows| ==> rows[j].id != id
    ensures IndexOf(rows, id) == r
  {
  }

  /** With unique ids, `find` returns a row exactly when the table holds it under that id. */
  lemma FindByIdSpec(rows: seq<User>, id: int, u: User)
    requires UniqueIds(rows)
    ensures FindById(rows, id) == Some(u) <==> u in rows && u.id == id
  {
    if u in rows && u.id == id {
      var i :| 0 <= i < |rows| && rows[i] == u;
      IndexOfUnique(rows, id, Some(i));
    }
  }

  /** `find` answers null exactly when no row has that id. */
  lemma FindByIdNone(rows: seq<User>, id: int)
    ensures FindById(rows, id).None? <==> forall i :: 0 <= i < |rows| ==> rows[i].id != id
  {
  }

  /** The email query's first result is the first row, in table order, whose
      email equals the argument exactly. */
  lemma {:induction false} FirstByEmailSpec(rows: seq<User>, email: string)
    ensures FirstByEmail(rows, email).Some? ==>
      exists i :: 0 <= i < |rows| && rows[i] == FirstByEmail(rows, email).value && rows[i].email == email
        && forall j :: 0 <= j < i ==> rows[j].email != email
  {
    if |rows| > 0 && FirstByEmail(rows, email).Some? {
      var found := FirstByEmail(rows, email).value;
      if rows[0].email == email {
        assert rows[0] == found;
      } else {
        var tail := rows[1..];
        assert WithEmail(rows, email) == WithEmail(tail, email);
        FirstByEmailSpec(tail, email);
        var i :| 0 <= i < |tail| && tail[i] == found && tail[i].email == email
          && forall j :: 0 <= j < i ==> tail[j].email != email;
        assert rows[i + 1] == found;
        forall j | 0 <= j < i + 1 ensures rows[j].email != email {
          if j > 0 { assert rows[j] == tail[j - 1]; }
        }
      }
    }
  }

  /** Persisting a user under the next id appends a row that `find` returns
      under that id, keeps the table valid and changes no other lookup. */
  lemma SaveRowSpec(rows: seq<User>, nextId: int, user: User)
    requires TableValid(rows, nextId)
    ensures TableValid(rows + [user.(id := nextId)], nextId + 1)
    ensures FindById(rows + [user.(id := nextId)], nextId) == Some(user.(id := nextId))
    ensures forall id :: id != nextId ==> FindById(rows + [user.(id := nextId)], id) == FindById(rows, id)
  {
    var saved := user.(id := nextId);
    var rows' := rows + [saved];
    IndexOfUnique(rows', nextId, Some(|rows|));
    forall id | id != nextId
      ensures FindById(rows', id) == FindById(rows, id)
    {
      IndexOfUnique(rows', id, IndexOf(rows, id));
    }
  }

  /** Overwriting a row keeps every id in place, keeps the table valid,
      makes `find` return the new values under that id and changes no
      other lookup. */
  lemma UpdateRowSpec(rows: seq<User>, nextId: int, user: User)
    requires TableValid(rows, nextId)
    requires FindById(rows, user.id).Some?
    ensures TableValid(UpdateRow(rows, user), nextId)
    ensures FindById(UpdateRow(rows, user), user.id) == Some(user)
    ensures forall id :: id != user.id ==> FindById(UpdateRow(rows, user), id) == FindById(rows, id)
  {
    var i := IndexOf(rows, user.id).value;
    var rows' := UpdateRow(rows, user);
    IndexOfUnique(rows', user.id, Some(i));
    forall id | id != user.id
      ensures FindById(rows', id) == FindById(rows, id)
    {
      IndexOfUnique(rows', id, IndexOf(rows, id));
    }
  }

  /** Removing the row at position `i` finds every other id one position
      lower when it came after `i`, and at the same position otherwise. */
  lemma {:induction false} RemoveAtIndexOf(rows: seq<User>, i: nat, other: int)
    requires i < |rows| && rows[i].id != other
    ensures IndexOf(rows[..i] + rows[i + 1..], other) ==
      match IndexOf(rows, other)
      case None => None
      case Some(k) => if k < i then Some(k) else Some(k - 1)
  {
    var rows' := rows[..i] + rows[i + 1..];
    var tail := rows[1..];
    if i == 0 {
      assert rows' == tail;
    } else if rows[0].id == other {
      assert rows'[0] == rows[0];
    } else {
      assert rows'[0] == rows[0];
      assert rows'[1..] == tail[..i - 1] + tail[i..];
      RemoveAtIndexOf(tail, i - 1, other);
      match IndexOf(tail, other)
      case None =>
        assert IndexOf(rows, other) == None;
        assert IndexOf(rows', other) == None;
      case Some(k) =>
        assert IndexOf(rows, other) == Some(k + 1);
        assert IndexOf(rows', other) == Some(if k < i - 1 then k + 1 else k);
    }
  }

  /** Removing the row with `id` changes no lookup of another id. */
  lemma DeleteRowKeepsOthers(rows: seq<User>, id: int, other: int)
    requires other != id
    ensures FindById(DeleteRow(rows, id), other) == FindById(rows, other)
  {
    match IndexOf(rows, id)
    case None =>
    case Some(i) =>
      RemoveAtIndexOf(rows, i, other);
  }

  /** Removing a row keeps the table valid. */
  lemma DeleteRowValid(rows: seq<User>, nextId: int, id: int)
    requires TableValid(rows, nextId)
    ensures TableValid(DeleteRow(rows, id), nextId)
  {
    match IndexOf(rows, id)
    case None =>
    case Some(i) =>
      var rows' := rows[..i] + rows[i + 1..];
      forall k | 0 <= k < |rows'|
        ensures 0 < rows'[k].id < nextId
      {
        if k < i { assert rows'[k] == rows[k]; } else { assert rows'[k] == rows[k + 1]; }
      }
      forall a, b | 0 <= a < b < |rows'|
        ensures rows'[a].id != rows'[b].id
      {
        var a' := if a < i then a else a + 1;
        var b' := if b < i then b else b + 1;
        assert rows'[a] == rows[a'] && rows'[b] == rows[b'] && a' < b';
      }
  }

  /** Removing a row keeps the table valid, leaves nothing under that id,
      shortens the table by one when the row existed and changes no other lookup. */
  lemma DeleteRowSpec(rows: seq<User>, nextId: int, id: int)
    requires TableValid(rows, nextId)
    ensures TableValid(DeleteRow(rows, id), nextId)
    ensures FindById(DeleteRow(rows, id), id).None?
    ensures FindById(rows, id).Some? ==> |DeleteRow(rows, id)| == |rows| - 1
    ensures FindById(rows, id).None? ==> DeleteRow(rows, id) == rows
    ensures forall other :: other != id ==> FindById(DeleteRow(rows, id), other) == FindById(rows, other)
  {
    var rows' := DeleteRow(rows, id);
    DeleteRowValid(rows, nextId, id);
    match IndexOf(rows, id)
    case None =>
    case Some(i) =>
      assert forall k :: 0 <= k < |rows'| ==> rows'[k] == (if k < i then rows[k] else rows[k + 1]);
      IndexOfUnique(rows', id, None);
      forall other | other != id
        ensures FindById(rows', other) == FindById(rows, other)
      {
        DeleteRowKeepsOthers(rows, id, other);
      }
  }
}
