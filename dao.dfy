/** The earlier store: the same operations as the newer one without null
    guards; `save` and `update` return nothing, and a missing row on update
    fails when its setters are called on null. Each operation is one unit
    of work; a failing one leaves the table as it was (the rollback). */
module Dao {
  import opened Wrappers
  import opened Users
  import opened Table

  class UserDao {
    /** The users table, in insertion order. */
    var rows: seq<User>
    /** The next value of the id sequence. */
    var nextId: int
    /** Every call this store has received, oldest first. */
    ghost var calls: seq<Call>

    ghost predicate Valid()
      reads this`rows, this`nextId
    {
      TableValid(rows, nextId)
    }

    /** An empty table whose id sequence starts at 1. */
    constructor ()
      ensures Valid() && rows == [] && nextId == 1 && calls == []
    {
      rows := [];
      nextId := 1;
      calls := [];
    }

    /** `save`: there is no null guard, so null reaches `persist`, which
        refuses it with an IllegalArgument and the transaction rolls back; a
        user that already carries an id is refused by `persist`; otherwise the
        user is stored under a fresh non-zero id. */
    method Save(user: Option<User>) returns (r: Outcome<Exception>)
      requires Valid()
      modifies this`rows, this`nextId, this`calls
      ensures Valid()
      ensures calls == old(calls) + [SaveCall(user)]
      ensures user.None? ==> r == Fail(IllegalArgument(None)) && rows == old(rows) && nextId == old(nextId)
      ensures user.Some? && user.value.id != 0 ==>
        r == Fail(EntityExists) && rows == old(rows) && nextId == old(nextId)
      ensures user.Some? && user.value.id == 0 ==>
        && r == Pass && nextId == old(nextId) + 1
        && old(nextId) != 0 && FindById(old(rows), old(nextId)).None?
        && rows == old(rows) + [user.value.(id := old(nextId))]
    {
      calls := calls + [SaveCall(user)];
      if user.None? {
        return Fail(IllegalArgument(None));
      }
      var u := user.value;
      if u.id != 0 {
        // a detached entity: persist throws and the transaction rolls back
        return Fail(EntityExists);
      }
      SaveRowSpec(rows, nextId, u);
      rows := rows + [u.(id := nextId)];
      nextId := nextId + 1;
      r := Pass;
    }

    /** `readAll`: every row, in table order. */
    method ReadAll() returns (r: seq<User>)
      modifies this`calls
      ensures calls == old(calls) + [ReadAllCall]
      ensures r == rows
    {
      calls := calls + [ReadAllCall];
      r := rows;
    }

    /** `readById`: the row with that id, or empty. */
    method ReadById(id: int) returns (r: Option<User>)
      modifies this`calls
      ensures calls == old(calls) + [ReadByIdCall(id)]
      ensures r == FindById(rows, id)
    {
      calls := calls + [ReadByIdCall(id)];
      r := FindById(rows, id);
    }

    /** `readByEmail`: the first row whose email equals the argument, or
        empty. There is no null guard: null goes into the query as a null
        comparison, which no stored row satisfies, so the answer is empty. */
    method ReadByEmail(email: Option<string>) returns (r: Option<User>)
      modifies this`calls
      ensures calls == old(calls) + [ReadByEmailCall(email)]
      ensures email.None? ==> r == None
      ensures email.Some? ==> r == FirstByEmail(rows, email.value)
    {
      calls := calls + [ReadByEmailCall(email)];
      if email.None? {
        return None;
      }
      r := FirstByEmail(rows, email.value);
    }

    /** `update`: overwrites the name, email and age of the row with the
        user's id, keeping the id. There is no null guard: null fails with a
        NullPointer at `getId`, and a missing row fails with a NullPointer on
        its first setter; either way the transaction rolls back. */
    method Update(user: Option<User>) returns (r: Outcome<Exception>)
      requires Valid()
      modifies this`rows, this`calls
      ensures Valid()
      ensures calls == old(calls) + [UpdateCall(user)]
      ensures user.None? ==> r == Fail(NullPointer(None)) && rows == old(rows)
      ensures user.Some? && FindById(old(rows), user.value.id).None? ==>
        r == Fail(NullPointer(None)) && rows == old(rows)
      ensures user.Some? && FindById(old(rows), user.value.id).Some? ==>
        r == Pass && rows == UpdateRow(old(rows), user.value)
    {
      calls := calls + [UpdateCall(user)];
      if user.None? {
        return Fail(NullPointer(None));
      }
      var u := user.value;
      var i := IndexOf(rows, u.id);
      if i.None? {
        return Fail(NullPointer(None));
      }
      UpdateRowSpec(rows, nextId, u);
      rows := rows[i.value := rows[i.value].(name := u.name, email := u.email, age := u.age)];
      r := Pass;
    }

    /** `delete`: removes the row with that id; a missing row makes
        `remove(null)` throw IllegalArgument and the transaction rolls back. */
    method Delete(id: int) returns (r: Outcome<Exception>)
      requires Valid()
      modifies this`rows, this`calls
      ensures Valid()
      ensures calls == old(calls) + [DeleteCall(id)]
      ensures FindById(old(rows), id).None? ==> r == Fail(IllegalArgument(None)) && rows == old(rows)
      ensures FindById(old(rows), id).Some? ==> r == Pass && rows == DeleteRow(old(rows), id)
    {
      calls := calls + [DeleteCall(id)];
      var i := IndexOf(rows, id);
      if i.None? {
        return Fail(IllegalArgument(None));
      }
      DeleteRowValid(rows, nextId, id);
      rows := rows[..i.value] + rows[i.value + 1..];
      r := Pass;
    }
  }
}
