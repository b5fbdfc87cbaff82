# User validation and persistence service, modelled in Dafny

This project models the core of a small Java user registry built on
Hibernate. A `User` has an id, a name, an email and an age. The core has
two layers, each in two versions.

- The store (`UserDAOImpl`, and the earlier `UserDAO`) persists, finds,
  queries by email, lists, overwrites and removes rows of the users
  table. Each write runs in one transaction, and a failing write is rolled
  back. Here the table is a sequence of rows held by a class
  (`DaoImpl.UserDaoImpl`, `Dao.UserDao`). The database's id sequence is a
  counter `nextId` that starts at 1. The table invariant `Table.TableValid`
  says every id is positive, below `nextId` and unique.
- The service (`UserServiceImpl`, and the earlier `UserService`) validates
  a user against four rules before a write:
  - the name is 1 to 100 characters long;
  - the email is 1 to 100 characters long;
  - no stored row has the same email under a different id;
  - the age is between 0 and 120.

  The newer service throws `IllegalArgumentException`. Its message joins one
  text per broken rule, in check order. The earlier service only answers
  false. Both services check that an id exists before an update or a
  delete.

Java `null` arguments of both stores are `Option.None`. A thrown
exception is the `Failure`/`Fail` side of a `Result`/`Outcome`, with the
`Users.Exception` datatype naming the exception class and its message. A
message that comes from Hibernate rather than from the core is `None`.
Each store records the calls it receives in a ghost log `calls`. The
contracts use this log to state which store operations a service call
makes, and how many times, as the unit tests' `verify(times(n))` do.

Modules:

- `Wrappers`: Option, Result and Outcome.
- `Users`: the entity, the exceptions and the call log.
- `Table`: the table-level meaning of find, the email query, persist, field
  overwrite and remove, with lemmas.
- `Validation`: the rules, the message and the email-uniqueness lemmas.
- `DaoImpl`, `Dao`: the two stores.
- `ServiceImpl`, `Service`: the two services.
- `Scenarios`: client runs stated as contracts. Some restate the store's
  tests; the others are runs through the earlier store and the newer service.

Three behaviours worth noting:

- There are two versions of the store and two of the service, and both
  are modelled.
- Deleting a missing id at the store level is not a no-op. `remove(null)`
  throws `IllegalArgumentException`. Only the services turn a missing id
  into a silent no-op.
- In the newer service, validation never returns false. It throws. The
  "User is invalid" branch of `UserServiceImpl.save` is therefore
  unreachable, and the model has no path to it.

## Model

| member | source | states |
|---|---|---|
| Table.IndexOf | src/main/java/ru/practice/dao/UserDAOImpl.java:63 | the position found is in range, holds the id and is the first such; None exactly when no row has the id |
| Table.FindById | src/main/java/ru/practice/dao/UserDAOImpl.java:63-66 | `find` answers only a row under the id asked for; `FindByIdSpec` adds that it is a stored row and `FindByIdNone` when there is none |
| Table.FindByIdSpec | src/main/java/ru/practice/dao/UserDAOImpl.java:58-66 | with unique ids, `find` returns a user exactly when that user is a row of the table under that id |
| Table.FindByIdNone | src/main/java/ru/practice/dao/UserDAOImpl.java:63-66 | `find` answers empty exactly when no row has that id |
| Table.WithEmail | src/main/java/ru/practice/dao/UserDAOImpl.java:82-86 | the email query's result list holds only rows with that email, is no longer than the table, and is empty exactly when no row has the email |
| Table.FirstByEmail | src/main/java/ru/practice/dao/UserDAOImpl.java:88-91 | the first result, when there is one, has that email; there is none exactly when no row has the email; `FirstByEmailSpec` adds which row it is |
| Table.FirstByEmailSpec | src/main/java/ru/practice/dao/UserDAOImpl.java:81-91 | a non-empty answer of the email query is the first row, in table order, whose email equals the argument exactly |
| Table.UpdateRow | src/main/java/ru/practice/dao/UserDAOImpl.java:132-138 | the setters keep the table's length and every row's id, change no row with another id, and leave the user's values in the table when its id is stored |
| Table.DeleteRow | src/main/java/ru/practice/dao/UserDAOImpl.java:167 | `remove` makes the table one row shorter when the id is stored and leaves it unchanged otherwise |
| Table.SaveRowSpec | src/main/java/ru/practice/dao/UserDAOImpl.java:39 | persisting under the next id keeps ids positive, bounded and unique, makes the new row findable under its id, and changes no other lookup |
| Table.UpdateRowSpec | src/main/java/ru/practice/dao/UserDAOImpl.java:132-138 | overwriting name, email and age keeps the table valid, makes `find` return the new values under the id, and changes no other lookup |
| Table.DeleteRowSpec | src/main/java/ru/practice/dao/UserDAOImpl.java:167 | removing keeps the table valid, leaves nothing under the id, shortens the table by one when the row existed, leaves it unchanged when it did not, and changes no other lookup |
| Table.RemoveAtIndexOf | src/main/java/ru/practice/dao/UserDAOImpl.java:167 | after removing one row, the first row with any other id is found one position lower if it came after the removed row and at the same position otherwise |
| Table.DeleteRowValid | src/main/java/ru/practice/dao/UserDAOImpl.java:167 | removing a row keeps ids positive, bounded and unique |
| Table.DeleteRowKeepsOthers | src/main/java/ru/practice/dao/UserDAOImpl.java:167 | removing the row with one id changes no lookup of another id |
| Validation.ViolationsExact | src/main/java/ru/practice/services/UserServiceImpl.java:69-95 | specifies `Violations`, which runs the four checks of `Broken`: a rule is reported exactly when the user breaks it; all four checks run without stopping early, and the reported rules are in check order with none repeated |
| Validation.MessageEmpty | src/main/java/ru/practice/services/UserServiceImpl.java:67-97 | specifies `Message`, the joined texts of the broken rules: it is empty exactly when no rule is broken; `MessageAppend`, `MessageStep` and `MessageSingle` give the joining |
| Validation.MessageAppend | src/main/java/ru/practice/services/UserServiceImpl.java:67-97 | the message of two runs of broken rules is the two messages joined |
| Validation.MessageStep | src/main/java/ru/practice/services/UserServiceImpl.java:72 | one more broken rule appends exactly its text to the message |
| Validation.MessageSingle | src/main/java/ru/practice/services/UserServiceImpl.java:86 | one broken rule gives exactly its own text as the message |
| Validation.EmailTakenIff | src/main/java/ru/practice/services/UserServiceImpl.java:83-84 | with unique emails, the lookup reports "taken" exactly when some row has the user's email under a different id |
| Validation.ValidIffAcceptable | src/main/java/ru/practice/services/UserServiceImpl.java:69-95 | with unique emails, the four checks pass exactly when the name and email lengths are in [1,100], the age is in [0,120] and no row with that email has a different id |
| Validation.OwnEmailIsNotTaken | src/main/java/ru/practice/services/UserServiceImpl.java:84 | a user keeping the email of its own stored row is never an "email taken" conflict |
| Validation.ValidSaveKeepsEmailsUnique | src/main/java/ru/practice/services/UserServiceImpl.java:24-32 | persisting a new user that passed the checks keeps emails unique in the table |
| Validation.ValidUpdateKeepsEmailsUnique | src/main/java/ru/practice/services/UserServiceImpl.java:43-51 | overwriting a row with a user that passed the checks keeps emails unique |
| Validation.DeleteKeepsEmailsUnique | src/main/java/ru/practice/services/UserServiceImpl.java:54-63 | removing a row keeps emails unique |
| DaoImpl.UserDaoImpl.constructor | src/main/java/ru/practice/dao/UserDAOImpl.java:23-25 | a new store has an empty, valid table whose id sequence starts at 1 |
| DaoImpl.UserDaoImpl.Save | src/main/java/ru/practice/dao/UserDAOImpl.java:27-56 | null throws NullPointerException "User cant be null"; a user that already has an id is refused by persist; both leave the table unchanged. Otherwise the user is appended under a fresh non-zero id and returned with that id |
| DaoImpl.UserDaoImpl.ReadById | src/main/java/ru/practice/dao/UserDAOImpl.java:58-71 | the row with that id, or empty |
| DaoImpl.UserDaoImpl.ReadByEmail | src/main/java/ru/practice/dao/UserDAOImpl.java:73-96 | null throws NullPointerException "Email cant be null"; otherwise the first exact-email match, or empty |
| DaoImpl.UserDaoImpl.ReadAll | src/main/java/ru/practice/dao/UserDAOImpl.java:98-116 | every row, in table order |
| DaoImpl.UserDaoImpl.Update | src/main/java/ru/practice/dao/UserDAOImpl.java:118-155 | null throws NullPointerException; a missing id throws NoSuchElementException and rolls back. Otherwise name, email and age are overwritten under the same id and the updated user is returned |
| DaoImpl.UserDaoImpl.Delete | src/main/java/ru/practice/dao/UserDAOImpl.java:157-182 | removes the row with that id; a missing id throws IllegalArgumentException and the table is unchanged |
| Dao.UserDao.constructor | src/main/java/ru/practice/dao/UserDAO.java:22-24 | a new store has an empty, valid table whose id sequence starts at 1 |
| Dao.UserDao.Save | src/main/java/ru/practice/dao/UserDAO.java:26-43 | with no null guard, null reaches persist and is refused as an illegal argument; a user that already has an id is refused by persist; both leave the table unchanged. Otherwise the user is appended under a fresh non-zero id |
| Dao.UserDao.ReadAll | src/main/java/ru/practice/dao/UserDAO.java:45-63 | every row, in table order |
| Dao.UserDao.ReadById | src/main/java/ru/practice/dao/UserDAO.java:65-78 | the row with that id, or empty |
| Dao.UserDao.ReadByEmail | src/main/java/ru/practice/dao/UserDAO.java:80-99 | the first exact-email match, or empty; with no null guard, null goes into the query and finds no row |
| Dao.UserDao.Update | src/main/java/ru/practice/dao/UserDAO.java:101-123 | overwrites name, email and age under the same id; null fails with a NullPointerException at `getId`, a missing id with one on the first setter, and both leave the table unchanged |
| Dao.UserDao.Delete | src/main/java/ru/practice/dao/UserDAO.java:125-144 | removes the row with that id; a missing id throws IllegalArgumentException and the table is unchanged |
| ServiceImpl.UserServiceImpl.constructor | src/main/java/ru/practice/services/UserServiceImpl.java:20-22 | the service works on the store it is given |
| ServiceImpl.UserServiceImpl.Save | src/main/java/ru/practice/services/UserServiceImpl.java:24-33 | an invalid user throws the validation exception, the store's save is called zero times and the table and id sequence are unchanged; a valid user calls the store's save exactly once and returns its answer, with the id sequence advanced exactly when a row is stored; emails stay unique |
| ServiceImpl.UserServiceImpl.Read | src/main/java/ru/practice/services/UserServiceImpl.java:35-37 | exactly the store's readById answer |
| ServiceImpl.UserServiceImpl.ReadAll | src/main/java/ru/practice/services/UserServiceImpl.java:39-41 | exactly the store's readAll answer |
| ServiceImpl.UserServiceImpl.Update | src/main/java/ru/practice/services/UserServiceImpl.java:43-52 | a missing id throws NoSuchElementException "User not exist" before any validation; an invalid user throws the validation exception; neither calls the store's update. A valid user of an existing row calls it once and gets its answer; emails stay unique |
| ServiceImpl.UserServiceImpl.Delete | src/main/java/ru/practice/services/UserServiceImpl.java:54-63 | never throws; a missing id makes no store delete, an existing id exactly one, which removes the row |
| ServiceImpl.UserServiceImpl.IsUserValid | src/main/java/ru/practice/services/UserServiceImpl.java:65-101 | looks the email up once whatever the other checks say; passes exactly when no rule is broken, and otherwise throws IllegalArgumentException whose message joins one text per broken rule in check order |
| Service.UserService.constructor | src/main/java/ru/practice/services/UserService.java:18-20 | the service works on the store it is given |
| Service.UserService.Save | src/main/java/ru/practice/services/UserService.java:22-30 | an invalid user returns silently with zero store saves and the table and id sequence unchanged; a valid user calls the store's save exactly once, with the id sequence advanced exactly when a row is stored; emails stay unique |
| Service.UserService.Read | src/main/java/ru/practice/services/UserService.java:32-34 | exactly the store's readById answer |
| Service.UserService.ReadAll | src/main/java/ru/practice/services/UserService.java:36-38 | exactly the store's readAll answer |
| Service.UserService.Update | src/main/java/ru/practice/services/UserService.java:40-52 | never throws; a missing id or an invalid user makes no store update; a valid user of an existing row makes exactly one; emails stay unique |
| Service.UserService.Delete | src/main/java/ru/practice/services/UserService.java:54-63 | never throws; a missing id makes no store delete, an existing id exactly one, which removes the row |
| Service.UserService.IsUserValid | src/main/java/ru/practice/services/UserService.java:65-92 | looks the email up once whatever the other checks say, and answers true exactly when no rule is broken |
| Scenarios.SaveThenReadBack | src/test/java/ru/practice/UserDAOImplTest.java:86-102 | a saved user gets a non-zero id, keeps its name, email and age, and reads back by email and by id |
| Scenarios.SaveNull | src/test/java/ru/practice/UserDAOImplTest.java:104-110 | saving null throws with "User cant be null" and stores nothing |
| Scenarios.SaveTwice | src/test/java/ru/practice/UserDAOImplTest.java:112-122 | saving the returned, already-persisted user again fails with EntityExists |
| Scenarios.ReadAllInSaveOrder | src/test/java/ru/practice/UserDAOImplTest.java:135-157 | an empty table reads back empty; two saved users read back in save order under distinct ids |
| Scenarios.UpdateThenReadBack | src/test/java/ru/practice/UserDAOImplTest.java:201-219 | an update of a saved user returns the new name, email and age, and reading by id gives the same user |
| Scenarios.UpdateMissing | src/test/java/ru/practice/UserDAOImplTest.java:228-233 | updating a user that was never saved throws NoSuchElementException |
| Scenarios.DeleteThenReadBack | src/test/java/ru/practice/UserDAOImplTest.java:235-251 | after deleting a saved user nothing is found under its id; deleting id 0 throws IllegalArgumentException |
| Scenarios.EarlierStoreNulls | src/main/java/ru/practice/dao/UserDAO.java:26-123 | in the earlier store, a null save is refused as an illegal argument, a null update fails with a NullPointerException, a null email finds nothing, and the table stays empty |
| Scenarios.ServiceSavesTwo | src/main/java/ru/practice/services/UserServiceImpl.java:24-33 | two valid users with different emails saved one after the other get ids 1 and 2 |
| Scenarios.ServiceRefusesTakenEmail | src/main/java/ru/practice/services/UserServiceImpl.java:83-97 | a second user with a stored email is refused with exactly the "taken" text, and nothing is stored for it |
| Scenarios.ServiceUpdates | src/main/java/ru/practice/services/UserServiceImpl.java:43-51 | an update with age 200 is refused with exactly the age text; an update that keeps the user's own email is accepted and reads back |
| Scenarios.ServiceDeletesTwice | src/main/java/ru/practice/services/UserServiceImpl.java:54-63 | deleting an existing user and then deleting it again both succeed, and the user is gone |

## Left out

- Hibernate sessions, transactions and criteria queries are replaced by operations on a row sequence. A failing write leaves the table as it was, as the rollback does. `getCurrentSession` versus `openSession` is not modelled.
- Store failures that do not come from the core's own logic are not modelled. These include an unreachable database, constraint and connection errors, and the `DataException` the database raises for a name longer than its column.
- The database id sequence is a counter starting at 1. The 32-bit `int` wrap-around of ids is not modelled.
- ServiceImpl.UserServiceImpl.Save, ServiceImpl.UserServiceImpl.Update, Service.UserService.Save, Service.UserService.Update: a `null` user is not modelled. The source throws a NullPointerException from `getName()` or `getId()` before touching the store. The service arguments are plain values, because modelling null there would add a branch to every contract with no store behaviour behind it.
- A `null` name or email, given to a service or directly to either store's `save`/`update`, is not modelled. A service would throw a NullPointerException from `length()`. Neither store checks a user's fields before writing them, so whether a null field reaches the table depends on the column mapping, which is not part of this model.
- Dao.UserDao.Save, Dao.UserDao.ReadByEmail: with a null argument, the outcome is the persistence library's. The model assumes `persist(null)` is refused as an illegal argument. It also assumes a query comparing the email with null finds no row: the model has no null fields, so the query finds no row.
- Name and email lengths count `char`s of a `seq<char>`. Java's UTF-16 code units are not distinguished from code points.
- Java object identity is not modelled: users are values. The newer store's `save` returns the same instance it was given. The model returns the same user with the assigned id.
- The race between a service's existence check and the later store update or delete across sessions is not modelled. The model is sequential.
- Logging, the interactive console application (`App.java`, including its copy of the earlier validation) and the test harnesses are not modelled.
- Exception messages produced by Hibernate or the JDK are `None`. Only the class of the exception is kept.
- `readAll`'s order is the table order, that is, save order. An update keeps a row in place, and the model assumes the database keeps that order too. `readByEmail`'s "first match" relies on the same order: it is the earliest saved row with that email.
