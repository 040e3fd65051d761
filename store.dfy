/**
 * The persisted state the listeners read and write: the users table with each
 * user's activity counters, achievement rows and badge column, and the errors
 * the listeners raise.
 */
module Store {
  import opened Wrappers

  type UserId = nat

  /**
   * What the listeners see of one persisted user: the number of watched lessons,
   * the number of comments, the names of the user's achievement rows in creation
   * order (a list, so that a duplicate row could be seen), and the nullable badge.
   */
  datatype UserRecord = UserRecord(watched: nat, comments: nat, achievements: seq<string>, badge: Option<string>)

  /** The exceptions the two listeners throw. */
  datatype Error = UserNotFound | UnknownAchievement(name: string) | UnknownBadge(name: string)

  /** The exception message of each error. */
  function Message(e: Error): string
  {
    match e
    case UserNotFound => "User not found in the database"
    case UnknownAchievement(name) => "Unknown achievement: " + name
    case UnknownBadge(name) => "Unknown badge: " + name
  }

  /** Different errors carry different messages: a message names its error and its input. */
  lemma MessageIdentifiesError(e1: Error, e2: Error)
    requires Message(e1) == Message(e2)
    ensures e1 == e2
  {
    var m := Message(e1);
    match e1
    case UserNotFound =>
      assert m[1] == 's';
    case UnknownAchievement(n1) =>
      assert m[1] == 'n' && m[8] == 'a';
      if e2.UnknownAchievement? {
        assert n1 == m[21..] == e2.name;
      }
    case UnknownBadge(n1) =>
      assert m[1] == 'n' && m[8] == 'b';
      if e2.UnknownBadge? {
        assert n1 == m[15..] == e2.name;
      }
  }

  /**
   * `$user && User::find($user->id)`: the event carries a user (None stands for a
   * null or never-saved user) and that user is persisted.
   */
  predicate Resolves(users: map<UserId, UserRecord>, user: Option<UserId>)
  {
    user.Some? && user.value in users
  }

  /** No achievement name appears in two rows. */
  predicate NoDuplicateRows(rows: seq<string>)
  {
    forall i, j :: 0 <= i < j < |rows| ==> rows[i] != rows[j]
  }

  /** A name in two rows is counted at least twice. */
  lemma DuplicateCounted(rows: seq<string>, i: nat, j: nat)
    requires i < j < |rows| && rows[i] == rows[j]
    ensures multiset(rows)[rows[i]] >= 2
  {
    assert rows == rows[..j] + rows[j..];
    assert rows[..j][i] == rows[i] && rows[j..][0] == rows[j];
    assert multiset(rows) == multiset(rows[..j]) + multiset(rows[j..]);
  }

  /** Unique rows, counted: no name has more than one row. */
  lemma {:induction false} NoDuplicateRowsByCount(rows: seq<string>)
    ensures NoDuplicateRows(rows) <==> forall x :: multiset(rows)[x] <= 1
  {
    if !NoDuplicateRows(rows) {
      var i, j :| 0 <= i < j < |rows| && rows[i] == rows[j];
      DuplicateCounted(rows, i, j);
    } else if rows != [] {
      var rest := rows[1..];
      assert NoDuplicateRows(rest) by {
        assert forall i :: 0 <= i < |rest| ==> rest[i] == rows[i + 1];
      }
      NoDuplicateRowsByCount(rest);
      assert rows[0] !in rest by {
        assert forall j :: 0 <= j < |rest| ==> rest[j] == rows[j + 1];
      }
      assert rows == [rows[0]] + rest;
      assert multiset(rows) == multiset{rows[0]} + multiset(rest);
    }
  }

  /** The database the listeners update in place. */
  class Database {
    var users: map<UserId, UserRecord>

    constructor (users: map<UserId, UserRecord>)
      ensures this.users == users
    {
      this.users := users;
    }
  }
}
