/** The four validation rules both services apply before a write, the
    message the newer service builds from the broken ones, and the
    uniqueness of emails that validated writes keep. */
module Validation {
  import opened Wrappers
  import opened Users
  import opened Table

  /** The rules, in the order the checks run. */
  datatype Rule = NameLength | EmailLength | EmailTaken | AgeRange

  /** Position of a rule among the checks. */
  function Rank(rule: Rule): (r: nat) {
    match rule
    case NameLength => 0
    case EmailLength => 1
    case EmailTaken => 2
    case AgeRange => 3
  }

  const NameText := "Name length should be between 1 and 100 characters. "
  const EmailText := "Email length should be between 1 and 100 characters. "
  const TakenText := "This email is already taken. "
  const AgeText := "Age should be in range of 0 and 120 years. "

  /** The text the newer service appends for a broken rule. */
  function Text(rule: Rule): (r: string) {
    match rule
    case NameLength => NameText
    case EmailLength => EmailText
    case EmailTaken => TakenText
    case AgeRange => AgeText
  }

  /** Whether `user` breaks `rule`, where `found` is the store's answer to
      the lookup of `user.email`. */
  predicate Broken(rule: Rule, user: User, found: Option<User>) {
    match rule
    case NameLength => |user.name| > 100 || |user.name| == 0
    case EmailLength => |user.email| > 100 || |user.email| == 0
    case EmailTaken => found.Some? && found.value.id != user.id
    case AgeRange => user.age < 0 || user.age > 120
  }

  /** One check: `rule` is added to the rules found so far when `user` breaks it. */
  function Collect(sofar: seq<Rule>, rule: Rule, user: User, found: Option<User>): (r: seq<Rule>) {
    if Broken(rule, user, found) then sofar + [rule] else sofar
  }

  /** The broken rules, collected without stopping at the first one. */
  function Violations(user: User, found: Option<User>): (r: seq<Rule>) {
    var afterName := Collect([], NameLength, user, found);
    var afterEmail := Collect(afterName, EmailLength, user, found);
    var afterLookup := Collect(afterEmail, EmailTaken, user, found);
    Collect(afterLookup, AgeRange, user, found)
  }

  /** The broken rules of `user` against the table `rows`. */
  function ViolationsIn(user: User, rows: seq<User>): (r: seq<Rule>) {
    Violations(user, FirstByEmail(rows, user.email))
  }

  /** The texts of the broken rules, joined in order (empty exactly when no
      rule is broken, by `MessageEmpty`). */
  function Message(rules: seq<Rule>): (r: string) {
    if rules == [] then "" else Text(rules[0]) + Message(rules[1..])
  }

  /** The rules stated on the table itself: the lengths and the age are in
      range and no row with the same email has a different id. */
  ghost predicate Acceptable(user: User, rows: seq<User>) {
    && 1 <= |user.name| <= 100
    && 1 <= |user.email| <= 100
    && (forall i :: 0 <= i < |rows| && rows[i].email == user.email ==> rows[i].id == user.id)
    && 0 <= user.age <= 120
  }

  /** Every broken rule is reported, no other, each once, in check order. */
  lemma ViolationsExact(user: User, found: Option<User>)
    ensures forall rule :: rule in Violations(user, found) <==> Broken(rule, user, found)
    ensures forall i, j :: 0 <= i < j < |Violations(user, found)| ==>
      Rank(Violations(user, found)[i]) < Rank(Violations(user, found)[j])
  {
  }

  /** The message of a concatenation is the concatenation of the messages. */
  lemma {:induction false} MessageAppend(a: seq<Rule>, b: seq<Rule>)
    ensures Message(a + b) == Message(a) + Message(b)
  {
    if a == [] {
      assert a + b == b;
    } else {
      assert (a + b)[1..] == a[1..] + b;
      MessageAppend(a[1..], b);
    }
  }

  /** Appending one broken rule appends its text to the message. */
  lemma MessageStep(rules: seq<Rule>, rule: Rule)
    ensures Message(rules + [rule]) == Message(rules) + Text(rule)
  {
    MessageAppend(rules, [rule]);
    assert Message([rule]) == Text(rule) + Message([]);
  }

  /** A single broken rule gives exactly its own text. */
  lemma MessageSingle(rule: Rule)
    ensures Message([rule]) == Text(rule)
  {
    assert Message([rule]) == Text(rule) + Message([]);
    assert Text(rule) + "" == Text(rule);
  }

  /** The message is empty exactly when no rule is broken. */
  lemma MessageEmpty(rules: seq<Rule>)
    ensures Message(rules) == "" <==> rules == []
  {
    if rules != [] {
      assert |Message(rules)| >= |Text(rules[0])| > 0;
    }
  }

  /** With unique emails, the lookup reports "taken" exactly when some row
      has the user's email under a different id. */
  lemma EmailTakenIff(user: User, rows: seq<User>)
    requires UniqueEmails(rows)
    ensures Broken(EmailTaken, user, FirstByEmail(rows, user.email)) <==>
      exists i :: 0 <= i < |rows| && rows[i].email == user.email && rows[i].id != user.id
  {
    FirstByEmailSpec(rows, user.email);
  }

  /** With unique emails, the four checks pass exactly when the rules hold on the table. */
  lemma ValidIffAcceptable(user: User, rows: seq<User>)
    requires UniqueEmails(rows)
    ensures ViolationsIn(user, rows) == [] <==> Acceptable(user, rows)
  {
    EmailTakenIff(user, rows);
  }

  /** A user that keeps the email of its own stored row is no email conflict. */
  lemma OwnEmailIsNotTaken(user: User, rows: seq<User>)
    requires UniqueEmails(rows)
    requires exists i :: 0 <= i < |rows| && rows[i].id == user.id && rows[i].email == user.email
    ensures EmailTaken !in ViolationsIn(user, rows)
  {
    EmailTakenIff(user, rows);
  }

  /** Persisting a new user that passed the checks keeps emails unique:
      every stored id is non-zero, so any row with that email would have
      been a conflict. */
  lemma ValidSaveKeepsEmailsUnique(rows: seq<User>, nextId: int, user: User)
    requires TableValid(rows, nextId) && UniqueEmails(rows)
    requires user.id == 0 && ViolationsIn(user, rows) == []
    ensures UniqueEmails(rows + [user.(id := nextId)])
  {
    EmailTakenIff(user, rows);
  }

  /** Overwriting a row with a user that passed the checks keeps emails unique. */
  lemma ValidUpdateKeepsEmailsUnique(rows: seq<User>, nextId: int, user: User)
    requires TableValid(rows, nextId) && UniqueEmails(rows)
    requires ViolationsIn(user, rows) == []
    ensures UniqueEmails(UpdateRow(rows, user))
  {
    EmailTakenIff(user, rows);
    match IndexOf(rows, user.id)
    case None =>
    case Some(k) =>
      var rows' := UpdateRow(rows, user);
      forall i, j | 0 <= i < j < |rows'|
        ensures rows'[i].email != rows'[j].email
      {
        if i == k {
          assert rows[j].id != user.id;
        } else if j == k {
          assert rows[i].id != user.id;
        }
      }
  }

  /** Removing a row keeps emails unique. */
  lemma DeleteKeepsEmailsUnique(rows: seq<User>, id: int)
    requires UniqueEmails(rows)
    ensures UniqueEmails(DeleteRow(rows, id))
  {
    match IndexOf(rows, id)
    case None =>
    case Some(k) =>
      var rows' := DeleteRow(rows, id);
      assert forall m :: 0 <= m < |rows'| ==> rows'[m] == (if m < k then rows[m] else rows[m + 1]);
  }
}
