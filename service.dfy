/** The earlier service over the earlier store: validation answers true or
    false, and every refusal (invalid user, missing id) returns silently. */
module Service {
  import opened Wrappers
  import opened Users
  import opened Table
  import opened Validation
  import opened Dao

  class UserService {
    const dao: UserDao

    constructor (dao: UserDao)
      ensures this.dao == dao
    {
      this.dao := dao;
    }

    /** `save`: an invalid user returns silently and the store's `save` is
        never called; a valid user goes to the store's `save` once. */
    method Save(user: User) returns (r: Outcome<Exception>)
      requires dao.Valid()
      modifies dao`rows, dao`nextId, dao`calls
      ensures dao.Valid()
      ensures UniqueEmails(old(dao.rows)) ==> UniqueEmails(dao.rows)
      ensures ViolationsIn(user, old(dao.rows)) != [] ==>
        && r == Pass
        && dao.rows == old(dao.rows) && dao.nextId == old(dao.nextId)
        && dao.calls == old(dao.calls) + [ReadByEmailCall(Some(user.email))]
      ensures ViolationsIn(user, old(dao.rows)) == [] ==>
        && dao.calls == old(dao.calls) + [ReadByEmailCall(Some(user.email)), SaveCall(Some(user))]
        && (user.id != 0 ==>
              r == Fail(EntityExists) && dao.rows == old(dao.rows) && dao.nextId == old(dao.nextId))
        && (user.id == 0 ==>
              && r == Pass && dao.rows == old(dao.rows) + [user.(id := old(dao.nextId))]
              && dao.nextId == old(dao.nextId) + 1)
    {
      ghost var rows0, next0 := dao.rows, dao.nextId;
      var valid := IsUserValid(user);
      if !valid {
        return Pass;
      }
      r := dao.Save(Some(user));
      if UniqueEmails(rows0) && user.id == 0 {
        ValidSaveKeepsEmailsUnique(rows0, next0, user);
      }
    }

    /** `read`: the store's `readById`, unchanged. */
    method Read(id: int) returns (r: Option<User>)
      modifies dao`calls
      ensures dao.calls == old(dao.calls) + [ReadByIdCall(id)]
      ensures r == FindById(dao.rows, id)
    {
      r := dao.ReadById(id);
    }

    /** `readAll`: the store's `readAll`, unchanged. */
    method ReadAll() returns (r: seq<User>)
      modifies dao`calls
      ensures dao.calls == old(dao.calls) + [ReadAllCall]
      ensures r == dao.rows
    {
      r := dao.ReadAll();
    }

    /** `update`: a missing id and an invalid user both return silently
        without calling the store's `update`; a valid user of an existing row
        calls it once. Nothing is thrown. */
    method Update(user: User) returns (r: Outcome<Exception>)
      requires dao.Valid()
      modifies dao`rows, dao`calls
      ensures dao.Valid()
      ensures r == Pass
      ensures UniqueEmails(old(dao.rows)) ==> UniqueEmails(dao.rows)
      ensures FindById(old(dao.rows), user.id).None? ==>
        dao.rows == old(dao.rows) && dao.calls == old(dao.calls) + [ReadByIdCall(user.id)]
      ensures FindById(old(dao.rows), user.id).Some? && ViolationsIn(user, old(dao.rows)) != [] ==>
        && dao.rows == old(dao.rows)
        && dao.calls == old(dao.calls) + [ReadByIdCall(user.id), ReadByEmailCall(Some(user.email))]
      ensures FindById(old(dao.rows), user.id).Some? && ViolationsIn(user, old(dao.rows)) == [] ==>
        && dao.rows == UpdateRow(old(dao.rows), user)
        && dao.calls == old(dao.calls) + [ReadByIdCall(user.id), ReadByEmailCall(Some(user.email)), UpdateCall(Some(user))]
    {
      ghost var rows0 := dao.rows;
      var existing := dao.ReadById(user.id);
      if existing.None? {
        return Pass;
      }
      var valid := IsUserValid(user);
      if !valid {
        return Pass;
      }
      r := dao.Update(Some(user));
      if UniqueEmails(rows0) {
        ValidUpdateKeepsEmailsUnique(rows0, dao.nextId, user);
      }
    }

    /** `delete`: a missing id is a silent no-op that never calls the store's
        `delete`; an existing id calls it once. Either way nothing is thrown. */
    method Delete(id: int) returns (r: Outcome<Exception>)
      requires dao.Valid()
      modifies dao`rows, dao`calls
      ensures dao.Valid()
      ensures r == Pass
      ensures UniqueEmails(old(dao.rows)) ==> UniqueEmails(dao.rows)
      ensures FindById(old(dao.rows), id).None? ==>
        dao.rows == old(dao.rows) && dao.calls == old(dao.calls) + [ReadByIdCall(id)]
      ensures FindById(old(dao.rows), id).Some? ==>
        && dao.rows == DeleteRow(old(dao.rows), id)
        && dao.calls == old(dao.calls) + [ReadByIdCall(id), DeleteCall(id)]
    {
      ghost var rows0 := dao.rows;
      var user := dao.ReadById(id);
      if user.None? {
        return Pass;
      }
      r := dao.Delete(id);
      if UniqueEmails(rows0) {
        DeleteKeepsEmailsUnique(rows0, id);
      }
    }

    /** `isUserValid`: runs all four checks, the email lookup included even
        when an earlier check failed, and answers whether none failed. */
    method IsUserValid(user: User) returns (isValid: bool)
      modifies dao`calls
      ensures dao.calls == old(dao.calls) + [ReadByEmailCall(Some(user.email))]
      ensures isValid <==> ViolationsIn(user, dao.rows) == []
    {
      isValid := true;
      // the lookup's answer, fixed up front so that every check is stated against it
      ghost var found := FirstByEmail(dao.rows, user.email);
      ghost var broken: seq<Rule> := [];

      var nameLength := |user.name|;
      if nameLength > 100 || nameLength == 0 {
        broken := broken + [NameLength];
        isValid := false;
      }
      assert broken == Collect([], NameLength, user, found);
      ghost var afterName := broken;

      var emailLength := |user.email|;
      if emailLength > 100 || emailLength == 0 {
        broken := broken + [EmailLength];
        isValid := false;
      }
      assert broken == Collect(afterName, EmailLength, user, found);
      ghost var afterEmail := broken;

      var userCheck := dao.ReadByEmail(Some(user.email));
      if userCheck.Some? && userCheck.value.id != user.id {
        broken := broken + [EmailTaken];
        isValid := false;
      }
      assert broken == Collect(afterEmail, EmailTaken, user, found);
      ghost var afterLookup := broken;

      var userAge := user.age;
      if userAge < 0 || userAge > 120 {
        broken := broken + [AgeRange];
        isValid := false;
      }
      assert broken == Collect(afterLookup, AgeRange, user, found);
      assert broken == Violations(user, found);
      assert isValid <==> |broken| == 0;
    }
  }
}
