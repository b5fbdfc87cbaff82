/** Client runs over fresh stores and services, derived from the contracts
    alone: the behaviour the store tests pin down, and runs through the
    newer service. */
module Scenarios {
  import opened Wrappers
  import opened Users
  import opened Table
  import opened Validation
  import opened DaoImpl
  import opened Dao
  import opened ServiceImpl

  /** A saved user gets a non-zero id and reads back, by email and by id,
      with the name, email and age it was saved with. */
  method SaveThenReadBack(name: string, email: string, age: int)
    returns (saved: Result<User, Exception>, byEmail: Result<Option<User>, Exception>, byId: Option<User>)
    ensures saved.Success? && saved.value.id != 0
    ensures saved.value == User(saved.value.id, name, email, age)
    ensures byEmail == Success(Some(saved.value))
    ensures byId == Some(saved.value)
  {
    var dao := new UserDaoImpl();
    saved := dao.Save(Some(User(0, name, email, age)));
    byEmail := dao.ReadByEmail(Some(email));
    byId := dao.ReadById(saved.value.id);
  }

  /** Saving a null user is refused with its message and stores nothing. */
  method SaveNull() returns (r: Result<User, Exception>, all: seq<User>)
    ensures r == Failure(NullPointer(Some("User cant be null")))
    ensures all == []
  {
    var dao := new UserDaoImpl();
    r := dao.Save(None);
    all := dao.ReadAll();
  }

  /** The user returned by a save carries its id, so saving it again fails. */
  method SaveTwice(name: string, email: string, age: int)
    returns (first: Result<User, Exception>, second: Result<User, Exception>)
    ensures first.Success? && first.value.id != 0
    ensures second == Failure(EntityExists)
  {
    var dao := new UserDaoImpl();
    first := dao.Save(Some(User(0, name, email, age)));
    second := dao.Save(Some(first.value));
  }

  /** An empty table reads back empty; two saved users read back in save order. */
  method ReadAllInSaveOrder(a: User, b: User)
    returns (before: seq<User>, after: seq<User>)
    requires a.id == 0 && b.id == 0
    ensures before == []
    ensures |after| == 2
    ensures after[0] == a.(id := after[0].id) && after[1] == b.(id := after[1].id)
    ensures after[0].id != after[1].id
  {
    var dao := new UserDaoImpl();
    before := dao.ReadAll();
    var savedA := dao.Save(Some(a));
    var savedB := dao.Save(Some(b));
    after := dao.ReadAll();
  }

  /** Updating a saved user overwrites its name, email and age under the same
      id; reading it back by id gives the updated user. */
  method UpdateThenReadBack(user: User, newName: string, newEmail: string, newAge: int)
    returns (updated: Result<User, Exception>, byId: Option<User>)
    requires user.id == 0
    ensures updated.Success?
    ensures updated.value.name == newName && updated.value.email == newEmail && updated.value.age == newAge
    ensures byId == Some(updated.value)
  {
    var dao := new UserDaoImpl();
    var saved := dao.Save(Some(user));
    var changed := saved.value.(name := newName, email := newEmail, age := newAge);
    updated := dao.Update(Some(changed));
    byId := dao.ReadById(changed.id);
  }

  /** Updating a user that was never saved throws NoSuchElement. */
  method UpdateMissing(user: User) returns (r: Result<User, Exception>)
    ensures r == Failure(NoSuchElement(None))
  {
    var dao := new UserDaoImpl();
    r := dao.Update(Some(user));
  }

  /** Deleting a saved user leaves nothing under its id; deleting id 0
      afterwards throws IllegalArgument. */
  method DeleteThenReadBack(user: User)
    returns (deleted: Outcome<Exception>, byId: Option<User>, again: Outcome<Exception>)
    requires user.id == 0
    ensures deleted == Pass
    ensures byId == None
    ensures again == Fail(IllegalArgument(None))
  {
    var dao := new UserDaoImpl();
    var saved := dao.Save(Some(user));
    deleted := dao.Delete(saved.value.id);
    byId := dao.ReadById(saved.value.id);
    again := dao.Delete(0);
  }

  /** The earlier store has no null guards: a null user is refused by
      `persist`, a null update fails at `getId`, a null email finds nothing,
      and the table stays empty throughout. */
  method EarlierStoreNulls()
    returns (saved: Outcome<Exception>, updated: Outcome<Exception>, byEmail: Option<User>, all: seq<User>)
    ensures saved == Fail(IllegalArgument(None))
    ensures updated == Fail(NullPointer(None))
    ensures byEmail == None
    ensures all == []
  {
    var dao := new UserDao();
    saved := dao.Save(None);
    updated := dao.Update(None);
    byEmail := dao.ReadByEmail(None);
    all := dao.ReadAll();
  }

  /** Through the service: two valid users with different emails are
      created one after the other under ids 1 and 2. */
  method ServiceSavesTwo()
    returns (ann: Result<User, Exception>, bob: Result<User, Exception>)
    ensures ann == Success(User(1, "Ann", "ann@x.io", 30))
    ensures bob == Success(User(2, "Bob", "bob@x.io", 40))
  {
    var dao := new UserDaoImpl();
    var service := new UserServiceImpl(dao);
    ann := service.Save(User(0, "Ann", "ann@x.io", 30));
    assert FirstByEmail(dao.rows, "bob@x.io") == None;
    bob := service.Save(User(0, "Bob", "bob@x.io", 40));
  }

  /** Through the service: Ann is created under id 1, then Bob with Ann's
      email is refused as "taken" and nothing is stored for him. */
  method ServiceRefusesTakenEmail()
    returns (ann: Result<User, Exception>, bob: Result<User, Exception>, all: seq<User>)
    ensures ann == Success(User(1, "Ann", "ann@x.io", 30))
    ensures bob == Failure(IllegalArgument(Some(TakenText)))
    ensures all == [User(1, "Ann", "ann@x.io", 30)]
  {
    var dao := new UserDaoImpl();
    var service := new UserServiceImpl(dao);
    ann := service.Save(User(0, "Ann", "ann@x.io", 30));
    assert FirstByEmail(dao.rows, "ann@x.io") == Some(User(1, "Ann", "ann@x.io", 30));
    assert ViolationsIn(User(0, "Bob", "ann@x.io", 40), dao.rows) == [EmailTaken];
    MessageSingle(EmailTaken);
    bob := service.Save(User(0, "Bob", "ann@x.io", 40));
    all := service.ReadAll();
  }

  /** Through the service: Ann with age 200 is refused as out of range, while
      Ann keeping her own email under her own id is accepted. */
  method ServiceUpdates()
    returns (tooOld: Result<User, Exception>, renamed: Result<User, Exception>, byId: Option<User>)
    ensures tooOld == Failure(IllegalArgument(Some(AgeText)))
    ensures renamed == Success(User(1, "Anna", "ann@x.io", 31))
    ensures byId == Some(User(1, "Anna", "ann@x.io", 31))
  {
    var dao := new UserDaoImpl();
    var service := new UserServiceImpl(dao);
    var ann := service.Save(User(0, "Ann", "ann@x.io", 30));
    assert FirstByEmail(dao.rows, "ann@x.io") == Some(User(1, "Ann", "ann@x.io", 30));
    assert ViolationsIn(User(1, "Ann", "ann@x.io", 200), dao.rows) == [AgeRange];
    MessageSingle(AgeRange);
    tooOld := service.Update(User(1, "Ann", "ann@x.io", 200));
    renamed := service.Update(User(1, "Anna", "ann@x.io", 31));
    byId := service.Read(1);
  }

  /** Through the service: deleting Ann succeeds, deleting her again is a
      silent no-op, and she is gone. */
  method ServiceDeletesTwice()
    returns (first: Outcome<Exception>, second: Outcome<Exception>, gone: Option<User>)
    ensures first == Pass && second == Pass
    ensures gone == None
  {
    var dao := new UserDaoImpl();
    var service := new UserServiceImpl(dao);
    var ann := service.Save(User(0, "Ann", "ann@x.io", 30));
    first := service.Delete(1);
    second := service.Delete(1);
    gone := service.Read(1);
  }
}
