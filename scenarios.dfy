/**
 * Requests in sequence against one database, and the concrete tables that show what the
 * product delete handler does to the `user` table.
 */
module Scenarios {
  import opened Basics
  import opened JsValues
  import opened Tables
  import opened Schema
  import opened Tokens
  import opened Responses
  import opened AuthRules
  import opened Handlers

  /**
   * Deleting product 2 of products 1, 2, 3 as written leaves product keys 1 and 3, with a gap,
   * while renumbering the product table gives keys 1 and 2.
   */
  lemma DeleteProductLeavesProductGap(p: ProductFields)
    ensures var products := [Row(1, p), Row(2, p), Row(3, p)];
      HasId(products, 2) &&
      RemoveAt(products, Find(products, 2).value) == [Row(1, p), Row(3, p)] &&
      DeleteRenumber(products, 2) == [Row(1, p), Row(2, p)]
  {
    var products := [Row(1, p), Row(2, p), Row(3, p)];
    assert products[1].id == 2;
    assert Find(products, 2) == Some(1);
    assert RemoveAt(products, 1) == [Row(1, p), Row(3, p)];
    assert ShiftAbove([Row(1, p), Row(3, p)], 2) == [Row(1, p), Row(2, p)];
  }

  /**
   * Deleting product 1 as written when users 1 and 3 exist renumbers user 3 to user 2, though
   * no user was deleted.
   */
  lemma DeleteProductRenumbersUsers(u1: UserFields, u3: UserFields)
    ensures var users := [Row(1, u1), Row(3, u3)];
      !ShiftClashes(users, 1) && ShiftAbove(users, 1) == [Row(1, u1), Row(2, u3)]
  {
    var users := [Row(1, u1), Row(3, u3)];
    assert ShiftAbove(users, 1)[1] == Row(2, u3);
    assert !HasId(users, 2);
  }

  /**
   * Deleting product 1 as written when users 1 and 2 exist makes the user shift hit the
   * primary key: the answer is 500, although the product is already gone.
   */
  lemma DeleteProductUserClash(u1: UserFields, u2: UserFields)
    ensures ShiftClashes([Row(1, u1), Row(2, u2)], 1)
  {
    var users := [Row(1, u1), Row(2, u2)];
    assert users[0].id == 1 && users[1].id == 2;
  }

  /**
   * A new user who registers and then logs in by email is answered 200 with the token that was
   * stored and with their own email and username decoded from it, given bcrypt and
   * jsonwebtoken that keep their promises.
   */
  method RegisterThenLogin(store: Store, username: string, email: string, password: string,
                           h: Hasher, salt: nat, j: Jwt, nowMs: nat)
    returns (registered: Response, loggedIn: Response)
    requires store.Valid() && HasherSound(h) && JwtSound(j)
    requires username != "" && email != "" && password != ""
    requires ':' !in email && ':' !in username
    requires !LoginTaken(store.users, email, username)
    modifies store
    ensures store.Valid()
    ensures registered == Response(201, Success(Some(UserRegistered), None, NoData))
    ensures loggedIn.status == 200 && loggedIn.body.Success? && loggedIn.body.token.Some?
    ensures loggedIn.body.data == Identity(Decoded(email, Some(username)))
    ensures |store.users| == |old(store.users)| + 1
    ensures store.users[|store.users| - 1].fields.token == loggedIn.body.token
  {
    registered := store.Register(RegisterBody(Str(username), Str(email), Str(password)), h, salt, nowMs);
    var users := store.users;
    var last := |users| - 1;
    assert users[last].fields.email == email;
    forall i | 0 <= i < |users| && MatchesLogin(users[i], email, "")
      ensures i == last
    {
      EmptyKeyMatchesNothing(users, i, email, "");
    }
    var body := LoginBody(Str(email), Undefined, Str(password));
    assert LoginKey(body.email) == Some(email) && LoginKey(body.username) == Some("");
    assert MatchesLogin(users[last], email, "");
    loggedIn := store.Login(body, h, j, nowMs);
    LoginIdentity(users[last], j, nowMs);
  }
}
