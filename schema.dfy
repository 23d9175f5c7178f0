/**
 * The two tables of the database, `user` and `product`, with the columns the handlers read
 * and write, and the constraints the handlers rely on.
 */
module Schema {
  import opened Basics
  import opened Tables

  /** The columns of a `user` row besides its key; `createdAt` and `updatedAt` are epoch seconds. */
  datatype UserFields = UserFields(
    username: string,
    email: string,
    password: string,
    token: Option<string>,
    createdAt: int,
    updatedAt: Option<int>)

  type User = Row<UserFields>

  /** The columns of a `product` row besides its key. */
  datatype ProductFields = ProductFields(
    productName: string,
    category: string,
    price: int,
    description: string,
    stock: int,
    image: string,
    status: bool,
    createdAt: int,
    updatedAt: Option<int>)

  type Product = Row<ProductFields>

  /** The unique constraints on `user.username` and `user.email`. */
  predicate UniqueLogins(users: seq<User>) {
    forall i, j :: 0 <= i < j < |users| ==>
      users[i].fields.username != users[j].fields.username && users[i].fields.email != users[j].fields.email
  }

  /** Every stored username and email is a non-empty string (the handlers store only truthy strings). */
  predicate LoginsPresent(users: seq<User>) {
    forall i :: 0 <= i < |users| ==> users[i].fields.username != "" && users[i].fields.email != ""
  }

  /** The `user` table with its counter. */
  predicate UsersValid(users: seq<User>, next: int) {
    TableValid(users, next) && UniqueLogins(users) && LoginsPresent(users)
  }

  /** Whether a username or an email is already used by some row. */
  predicate LoginTaken(users: seq<User>, email: string, username: string) {
    exists i :: 0 <= i < |users| && (users[i].fields.email == email || users[i].fields.username == username)
  }

  /** Renumbering keys leaves every column but `id` alone, so the unique constraints still hold. */
  lemma ShiftKeepsLogins(users: seq<User>, k: int)
    requires UniqueLogins(users) && LoginsPresent(users)
    ensures UniqueLogins(ShiftAbove(users, k)) && LoginsPresent(ShiftAbove(users, k))
  {
  }

  /** Removing a row keeps the unique constraints. */
  lemma RemoveKeepsLogins(users: seq<User>, i: nat)
    requires UniqueLogins(users) && LoginsPresent(users) && i < |users|
    ensures UniqueLogins(RemoveAt(users, i)) && LoginsPresent(RemoveAt(users, i))
  {
    var r := RemoveAt(users, i);
    assert forall j :: 0 <= j < |r| ==> r[j] == if j < i then users[j] else users[j + 1];
  }

  /**
   * The `user` half of the product delete: the keys above `k` are shifted down one by one
   * and the counter is reset to one past the largest key; when the shift hits a duplicate
   * key the statement is rolled back and the table and its counter stay as they were.
   */
  method ShiftUsers(users: seq<User>, k: int, next: int) returns (ok: bool, r: seq<User>, counter: int)
    requires UsersValid(users, next) && k >= 1
    ensures ok == !ShiftClashes(users, k)
    ensures ok ==> r == ShiftAbove(users, k) && counter == MaxId(r) + 1
    ensures !ok ==> r == users && counter == next
    ensures UsersValid(r, counter)
  {
    ok, r := ShiftKeys(users, k);
    if !ok {
      return ok, r, next;
    }
    ShiftKeepsOrder(users, k);
    ShiftKeepsLogins(users, k);
    var largest := LargestKey(r);
    counter := largest + 1;
  }

  /** Deleting and renumbering keeps the whole `user` table valid, with the counter reset to the largest key plus one. */
  lemma DeleteRenumberUsersValid(users: seq<User>, k: int, next: int)
    requires UsersValid(users, next) && HasId(users, k)
    ensures var r := DeleteRenumber(users, k); UsersValid(r, MaxId(r) + 1)
  {
    var p := Find(users, k).value;
    var removed := RemoveAt(users, p);
    assert TableValid(DeleteRenumber(users, k), MaxId(DeleteRenumber(users, k)) + 1) by {
      DeleteRenumberValid(users, k, next);
    }
    assert UniqueLogins(removed) && LoginsPresent(removed) by {
      RemoveKeepsLogins(users, p);
    }
    ShiftKeepsLogins(removed, k);
  }
}
