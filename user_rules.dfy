/**
 * The expression-level logic of controllers/usersControllers.js: the projection that
 * `getAllUsers` selects, and the unique constraint that `updateUsers` can run into.
 */
module UserRules {
  import opened Basics
  import opened Tables
  import opened Schema
  import opened Responses

  /** `select: { username, email, createdAt, updatedAt }` applied to one row. */
  function View(u: User): UserView {
    UserView(u.fields.username, u.fields.email, u.fields.createdAt, u.fields.updatedAt)
  }

  /** The projection applied to every row, in key order. */
  function Listing(users: seq<User>): (vs: seq<UserView>)
    ensures |vs| == |users|
    ensures forall i :: 0 <= i < |users| ==> vs[i] == View(users[i])
  {
    if users == [] then [] else [View(users[0])] + Listing(users[1..])
  }

  /**
   * The listing hides the secrets: two tables whose rows agree on username, email, createdAt
   * and updatedAt list identically, whatever their keys, password hashes and tokens.
   */
  lemma {:induction false} ListingHidesSecrets(a: seq<User>, b: seq<User>)
    requires |a| == |b|
    requires forall i :: 0 <= i < |a| ==>
      a[i].fields.username == b[i].fields.username && a[i].fields.email == b[i].fields.email &&
      a[i].fields.createdAt == b[i].fields.createdAt && a[i].fields.updatedAt == b[i].fields.updatedAt
    ensures Listing(a) == Listing(b)
  {
    if a != [] {
      ListingHidesSecrets(a[1..], b[1..]);
    }
  }

  /** Whether a row other than the one at position `i` already has `username` (the unique constraint of `update`). */
  predicate UsernameTakenByOther(users: seq<User>, i: nat, username: string) {
    exists j :: 0 <= j < |users| && j != i && users[j].fields.username == username
  }

  /** The row `update` writes: the new username, the email rewritten with its own value, and the current second as updatedAt. */
  function Renamed(u: User, username: string, nowSec: int): User {
    u.(fields := u.fields.(username := username, email := u.fields.email, updatedAt := Some(nowSec)))
  }

  /**
   * Renaming the row at `i` to a username no other row has, while rewriting its email with its
   * own value, keeps usernames and emails unique and present.
   */
  lemma RenameKeepsLogins(users: seq<User>, i: nat, username: string, nowSec: int)
    requires UniqueLogins(users) && LoginsPresent(users) && i < |users|
    requires username != "" && !UsernameTakenByOther(users, i, username)
    ensures var r := users[i := Renamed(users[i], username, nowSec)];
      UniqueLogins(r) && LoginsPresent(r)
  {
    var r := users[i := Renamed(users[i], username, nowSec)];
    forall a, b | 0 <= a < b < |r|
      ensures r[a].fields.username != r[b].fields.username
    {
      if a != i && b != i {
        assert r[a] == users[a] && r[b] == users[b];
      } else if a == i {
        assert users[b].fields.username != username;
      } else {
        assert users[a].fields.username != username;
      }
    }
  }
}
