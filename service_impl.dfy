/** The newer service over the newer store: validation throws an
    IllegalArgument whose message names every broken rule, and update of a
    missing user throws NoSuchElement. */
module ServiceImpl {
  import opened Wrappers
  import opened Users
  import opened Table
  import opened Validation
  import opened DaoImpl

  class UserServiceImpl {
    const dao: UserDaoImpl

    constructor (dao: UserDaoImpl)
      ensures this.dao == dao
    {
      this.dao := dao;
    }

    /** `save`: an invalid user is refused with the validation exception and
        the store's `save` is never called; a valid user goes to the store's
        `save` once and its answer is returned. */
    method Save(user: User) returns (r: Result<User, Exception>)
      requires dao.Valid()
      modifies dao`rows, dao`nextId, dao`calls
      ensures dao.Valid()
      ensures UniqueEmails(old(dao.rows)) ==> UniqueEmails(dao.rows)
      ensures ViolationsIn(user, old(dao.rows)) != [] ==>
        && r == Failure(IllegalArgument(Some(Message(ViolationsIn(user, old(dao.rows))))))
        && dao.rows == old(dao.rows) && dao.nextId == old(dao.nextId)
        && dao.calls == old(dao.calls) + [ReadByEmailCall(Some(user.email))]
      ensures ViolationsIn(user, old(dao.rows)) == [] ==>
        && dao.calls == old(dao.calls) + [ReadByEmailCall(Some(user.email)), SaveCall(Some(user))]
        && (user.id != 0 ==>
              r == Failure(EntityExists) && dao.rows == old(dao.rows) && dao.nextId == old(dao.nextId))
        && (user.id == 0 ==>
              && r == Success(user.(id := old(dao.nextId))) && dao.rows == old(dao.rows) + [r.value]
              && dao.nextId == old(dao.nextId) + 1)
    {
      ghost var rows0, next0 := dao.rows, dao.nextId;
      var valid := IsUserValid(user);
      if valid.Fail? {
        // isUserValid throws on an invalid user, so its `false` answer never
        // reaches the "User is invalid" branch
        return Failure(valid.error);
      }
      r := dao.Save(Some(user));
      if UniqueEmails(rows0) && user.id == 0 {
        ValidSaveKeepsEmailsUnique(rows0, next0, user);
      }
    }

    /** `read`: the store's `readById`, unchanged. */
    method Read(id: int) returns (r: Option<User>)
      modifies dao`calls
      ensures dao.calls == old(dao.calls) + [ReadByIdCall(id)]
      ensures r == FindById(dao.rows, id)
    {
      r := dao.ReadById(id);
    }

    /** `readAll`: the store's `readAll`, unchanged. */
    method ReadAll() returns (r: seq<User>)
      modifies dao`calls
      ensures dao.calls == old(dao.calls) + [ReadAllCall]
      ensures r == dao.rows
    {
      r := dao.ReadAll();
    }

    /** `update`: a missing id throws NoSuchElement before any validation;
        an invalid user throws the validation exception; only a valid user
        of an existing row reaches the store's `update`, whose answer is returned. */
    method Update(user: User) returns (r: Result<User, Exception>)
      requires dao.Valid()
      modifies dao`rows, dao`calls
      ensures dao.Valid()
      ensures UniqueEmails(old(dao.rows)) ==> UniqueEmails(dao.rows)
      ensures FindById(old(dao.rows), user.id).None? ==>
        && r == Failure(NoSuchElement(Some("User not exist")))
        && dao.rows == old(dao.rows)
        && dao.calls == old(dao.calls) + [ReadByIdCall(user.id)]
      ensures FindById(old(dao.rows), user.id).Some? && ViolationsIn(user, old(dao.rows)) != [] ==>
        && r == Failure(IllegalArgument(Some(Message(ViolationsIn(user, old(dao.rows))))))
        && dao.rows == old(dao.rows)
        && dao.calls == old(dao.calls) + [ReadByIdCall(user.id), ReadByEmailCall(Some(user.email))]
      ensures FindById(old(dao.rows), user.id).Some? && ViolationsIn(user, old(dao.rows)) == [] ==>
        && r == Success(user)
        && dao.rows == UpdateRow(old(dao.rows), user)
        && dao.calls == old(dao.calls) + [ReadByIdCall(user.id), ReadByEmailCall(Some(user.email)), UpdateCall(Some(user))]
    {
      ghost var rows0 := dao.rows;
      var existing := dao.ReadById(user.id);
      if existing.None? {
        return Failure(NoSuchElement(Some("User not exist")));
      }
      // the source ignores the answer; validation still stops an invalid user by throwing
      var valid := IsUserValid(user);
      if valid.Fail? {
        return Failure(valid.error);
      }
      r := dao.Update(Some(user));
      if UniqueEmails(rows0) {
        ValidUpdateKeepsEmailsUnique(rows0, dao.nextId, user);
      }
    }

    /** `delete`: a missing id is a silent no-op that never calls the store's
        `delete`; an existing id calls it once. Either way nothing is thrown. */
    method Delete(id: int) returns (r: Outcome<Exception>)
      requires dao.Valid()
      modifies dao`rows, dao`calls
      ensures dao.Valid()
      ensures r == Pass
      ensures UniqueEmails(old(dao.rows)) ==> UniqueEmails(dao.rows)
      ensures FindById(old(dao.rows), id).None? ==>
        dao.rows == old(dao.rows) && dao.calls == old(dao.calls) + [ReadByIdCall(id)]
      ensures FindById(old(dao.rows), id).Some? ==>
        && dao.rows == DeleteRow(old(dao.rows), id)
        && dao.calls == old(dao.calls) + [ReadByIdCall(id), DeleteCall(id)]
    {
      ghost var rows0 := dao.rows;
      var user := dao.ReadById(id);
      if user.None? {
        return Pass;
      }
      r := dao.Delete(id);
      if UniqueEmails(rows0) {
        DeleteKeepsEmailsUnique(rows0, id);
      }
    }

    /** `isUserValid`: runs all four checks, the email lookup included,
        collecting one text per broken rule; throws IllegalArgument with the
        joined texts when any rule is broken. */
    method IsUserValid(user: User) returns (r: Outcome<Exception>)
      modifies dao`calls
      ensures dao.calls == old(dao.calls) + [ReadByEmailCall(Some(user.email))]
      ensures ViolationsIn(user, dao.rows) == [] ==> r == Pass
      ensures ViolationsIn(user, dao.rows) != [] ==>
        r == Fail(IllegalArgument(Some(Message(ViolationsIn(user, dao.rows)))))
    {
      var isValid := true;
      var builder := "";
      // the lookup's answer, fixed up front so that every check is stated against it
      ghost var found := FirstByEmail(dao.rows, user.email);
      ghost var broken: seq<Rule> := [];

      var nameLength := |user.name|;
      if nameLength > 100 || nameLength == 0 {
        MessageStep(broken, NameLength);
        builder := builder + Text(NameLength);
        broken := broken + [NameLength];
        isValid := false;
      }
      assert broken == Collect([], NameLength, user, found);
      ghost var afterName := broken;

      var emailLength := |user.email|;
      if emailLength > 100 || emailLength == 0 {
        MessageStep(broken, EmailLength);
        builder := builder + Text(EmailLength);
        broken := broken + [EmailLength];
        isValid := false;
      }
      assert broken == Collect(afterName, EmailLength, user, found);
      ghost var afterEmail := broken;

      var lookup := dao.ReadByEmail(Some(user.email));
      var userCheck := lookup.value;
      if userCheck.Some? && userCheck.value.id != user.id {
        MessageStep(broken, EmailTaken);
        builder := builder + Text(EmailTaken);
        broken := broken + [EmailTaken];
        isValid := false;
      }
      assert broken == Collect(afterEmail, EmailTaken, user, found);
      ghost var afterLookup := broken;

      var userAge := user.age;
      if userAge < 0 || userAge > 120 {
        MessageStep(broken, AgeRange);
        builder := builder + Text(AgeRange);
        broken := broken + [AgeRange];
        isValid := false;
      }
      assert broken == Collect(afterLookup, AgeRange, user, found);
      assert broken == Violations(user, found) && builder == Message(broken);
      assert isValid <==> |broken| == 0;
      if !isValid {
        return Fail(IllegalArgument(Some(builder)));
      }
      r := Pass;
    }
  }
}
