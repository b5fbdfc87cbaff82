/** The newer store: guards against null arguments, returns the saved and the
    updated user, and reports a missing row on update as NoSuchElement.
    Each operation is one unit of work; a failing one leaves the table as it
    was (the rollback). */
module DaoImpl {
  import opened Wrappers
  import opened Users
  import opened Table

  class UserDaoImpl {
    /** The users table, in insertion order. */
    var rows: seq<User>
    /** The next value of the id sequence. */
    var nextId: int
    /** Every call this store has received, oldest first. */
    ghost var calls: seq<Call>

    ghost predicate Valid()
      reads this`rows, this`nextId
    {
      TableValid(rows, nextId)
    }

    /** An empty table whose id sequence starts at 1. */
    constructor ()
      ensures Valid() && rows == [] && nextId == 1 && calls == []
    {
      rows := [];
      nextId := 1;
      calls := [];
    }

    /** `save`: null is refused before any unit of work; a user that already
        carries an id is refused by `persist`; otherwise the user is stored
        under a fresh non-zero id and returned with that id. */
    method Save(user: Option<User>) returns (r: Result<User, Exception>)
      requires Valid()
      modifies this`rows, this`nextId, this`calls
      ensures Valid()
      ensures calls == old(calls) + [SaveCall(user)]
      ensures user.None? ==>
        r == Failure(NullPointer(Some("User cant be null"))) && rows == old(rows) && nextId == old(nextId)
      ensures user.Some? && user.value.id != 0 ==>
        r == Failure(EntityExists) && rows == old(rows) && nextId == old(nextId)
      ensures user.Some? && user.value.id == 0 ==>
        && r == Success(user.value.(id := old(nextId))) && nextId == old(nextId) + 1
        && r.value.id != 0 && FindById(old(rows), r.value.id).None?
        && rows == old(rows) + [r.value]
    {
      calls := calls + [SaveCall(user)];
      if user.None? {
        return Failure(NullPointer(Some("User cant be null")));
      }
      var u := user.value;
      if u.id != 0 {
        // a detached entity: persist throws and the transaction rolls back
        return Failure(EntityExists);
      }
      var saved := u.(id := nextId);
      SaveRowSpec(rows, nextId, u);
      rows := rows + [saved];
      nextId := nextId + 1;
      r := Success(saved);
    }

    /** `readById`: the row with that id, or empty. */
    method ReadById(id: int) returns (r: Option<User>)
      modifies this`calls
      ensures calls == old(calls) + [ReadByIdCall(id)]
      ensures r == FindById(rows, id)
    {
      calls := calls + [ReadByIdCall(id)];
      r := FindById(rows, id);
    }

    /** `readByEmail`: null is refused; otherwise the first row whose email
        equals the argument, or empty. */
    method ReadByEmail(email: Option<string>) returns (r: Result<Option<User>, Exception>)
      modifies this`calls
      ensures calls == old(calls) + [ReadByEmailCall(email)]
      ensures email.None? ==> r == Failure(NullPointer(Some("Email cant be null")))
      ensures email.Some? ==> r == Success(FirstByEmail(rows, email.value))
    {
      calls := calls + [ReadByEmailCall(email)];
      if email.None? {
        return Failure(NullPointer(Some("Email cant be null")));
      }
      r := Success(FirstByEmail(rows, email.value));
    }

    /** `readAll`: every row, in table order. */
    method ReadAll() returns (r: seq<User>)
      modifies this`calls
      ensures calls == old(calls) + [ReadAllCall]
      ensures r == rows
    {
      calls := calls + [ReadAllCall];
      r := rows;
    }

    /** `update`: null is refused; a missing row throws NoSuchElement and the
        transaction rolls back; otherwise the row's name, email and age are
        overwritten in place, its id kept, and the updated row returned. */
    method Update(user: Option<User>) returns (r: Result<User, Exception>)
      requires Valid()
      modifies this`rows, this`calls
      ensures Valid()
      ensures calls == old(calls) + [UpdateCall(user)]
      ensures user.None? ==> r == Failure(NullPointer(Some("User cant be null"))) && rows == old(rows)
      ensures user.Some? && FindById(old(rows), user.value.id).None? ==>
        r == Failure(NoSuchElement(None)) && rows == old(rows)
      ensures user.Some? && FindById(old(rows), user.value.id).Some? ==>
        r == Success(user.value) && rows == UpdateRow(old(rows), user.value)
    {
      calls := calls + [UpdateCall(user)];
      if user.None? {
        return Failure(NullPointer(Some("User cant be null")));
      }
      var u := user.value;
      var i := IndexOf(rows, u.id);
      if i.None? {
        return Failure(NoSuchElement(None));
      }
      UpdateRowSpec(rows, nextId, u);
      var row := rows[i.value].(name := u.name, email := u.email, age := u.age);
      rows := rows[i.value := row];
      r := Success(row);
    }

    /** `delete`: removes the row with that id; a missing row makes
        `remove(null)` throw IllegalArgument and the transaction rolls back. */
    method Delete(id: int) returns (r: Outcome<Exception>)
      requires Valid()
      modifies this`rows, this`calls
      ensures Valid()
      ensures calls == old(calls) + [DeleteCall(id)]
      ensures FindById(old(rows), id).None? ==> r == Fail(IllegalArgument(None)) && rows == old(rows)
      ensures FindById(old(rows), id).Some? ==> r == Pass && rows == DeleteRow(old(rows), id)
    {
      calls := calls + [DeleteCall(id)];
      var i := IndexOf(rows, id);
      if i.None? {
        return Fail(IllegalArgument(None));
      }
      DeleteRowValid(rows, nextId, id);
      rows := rows[..i.value] + rows[i.value + 1..];
      r := Pass;
    }
  }
}
