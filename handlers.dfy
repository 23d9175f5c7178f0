/**
 * The request handlers of the three controllers, as methods of the database they act on.
 * Each takes the already parsed request fields (path id, body fields), the current time in
 * milliseconds, and the libraries it calls, and returns the status code and JSON body it sends.
 * An error thrown by Prisma, bcrypt or jsonwebtoken becomes the catch block's 500.
 */
module Handlers {
  import opened Basics
  import opened JsValues
  import opened JsNumbers
  import opened Tables
  import opened Schema
  import opened Tokens
  import opened Responses
  import opened ProductRules
  import opened UserRules
  import opened AuthRules

  const ProductNotFound := "Product not found"
  const NoProductsFound := "No products found"
  const ProductFieldsRequired := "Category, ProductName and price are required"
  const ProductCreated := "Product created successfully"
  const ProductIdRequired := "Product id is required"
  const ProductUpdated := "Product updated successfully"
  const ProductDeleted := "Product deleted successfully"
  const NoUsersFound := "No users found"
  const IdRequired := "Id is required"
  const UsernameRequired := "Username is required"
  const RegisterFieldsRequired := "Username, email, and password are required"
  const UserExists := "User with this email or username already exists"
  const UserRegistered := "User registered successfully"
  const LoginFieldsRequired := "Email/username and password are required"
  const InvalidCredentials := "Invalid credentials"
  const LoginSucceeded := "Login Successfully"

  function UserNotFound(id: int): string {
    "User with id " + DecimalString(id) + " not found"
  }

  function UserUpdated(id: int): string {
    "User with id " + DecimalString(id) + " has been updated"
  }

  function UserDeleted(id: int): string {
    "User with id " + DecimalString(id) + " has been deleted."
  }

  /**
   * What `login` does once it has picked the matching row at position `i` of `before`: check
   * the password, store a fresh token in that row, verify the token and answer with the
   * decoded payload.
   */
  ghost predicate LoginEffect(before: seq<User>, i: nat, b: LoginBody, h: Hasher, j: Jwt, nowMs: nat,
                              after: seq<User>, res: Response)
    requires i < |before|
  {
    var u := before[i];
    if !b.password.Str? then
      after == before && res == Response(500, LibraryError)
    else if !ComparePassword(h, b.password.s, u.fields.password) then
      after == before && res == Response(401, Failure(InvalidCredentials))
    else
      var token := CreateToken(j, u.fields.email, u.fields.username, nowMs);
      after == before[i := WithToken(u, token)] &&
      match VerifyToken(j, token, nowMs)
      case Verified(c) => res == Response(200, Success(Some(LoginSucceeded), Some(token), Identity(DecodedBase64(c.data))))
      case Failed(_) => res == Response(500, LibraryError)
  }

  /**
   * With a sound jsonwebtoken, the token `login` has just issued verifies, and the identity it
   * answers with is the matched row's email and username whenever neither holds a ':'.
   */
  lemma LoginIdentity(u: User, j: Jwt, nowMs: nat)
    requires JwtSound(j)
    requires ':' !in u.fields.email && ':' !in u.fields.username
    ensures var token := CreateToken(j, u.fields.email, u.fields.username, nowMs);
      VerifyToken(j, token, nowMs).Verified? &&
      DecodedBase64(VerifyToken(j, token, nowMs).claims.data) == Decoded(u.fields.email, Some(u.fields.username))
  {
    TokenLifetime(j, u.fields.email, u.fields.username, nowMs, nowMs);
    DecodePayload(u.fields.email, u.fields.username);
  }

  /**
   * What `addProducts` does to the product table and its counter: 400 when a required field
   * is falsy, 500 when Prisma rejects a value, otherwise the new row goes in under the next
   * key and is returned with 201.
   */
  method AddProductsTo(products: seq<Product>, next: int, body: ProductBody, nowMs: nat)
    returns (res: Response, r: seq<Product>, counter: int)
    requires TableValid(products, next)
    ensures TableValid(r, counter)
    ensures if !HasRequiredFields(body) then
        res == Response(400, Failure(ProductFieldsRequired)) && r == products && counter == next
      else if !CreateAccepted(body) then
        res == Response(500, LibraryError) && r == products && counter == next
      else
        var row := Row(next, NewProduct(body, nowMs).value);
        r == products + [row] && counter == next + 1 && !HasId(products, next) &&
        res == Response(201, Success(Some(ProductCreated), None, ProductData(row)))
  {
    if !HasRequiredFields(body) {
      return Response(400, Failure(ProductFieldsRequired)), products, next;
    }
    var fields := NewProduct(body, nowMs);
    if fields.None? {
      return Response(500, LibraryError), products, next;
    }
    r, counter := Insert(products, next, fields.value);
    res := Response(201, Success(Some(ProductCreated), None, ProductData(Row(next, fields.value))));
  }

  /** The database: the `user` and `product` tables with their AUTO_INCREMENT counters. */
  class Store {
    var users: seq<User>
    var products: seq<Product>
    var userNextId: int
    var productNextId: int

    /** Both tables in key order below their counters; usernames and emails unique and present. */
    ghost predicate Valid()
      reads this
    {
      UsersValid(users, userNextId) && TableValid(products, productNextId)
    }

    /** An empty database. */
    constructor()
      ensures Valid()
      ensures users == [] && products == [] && userNextId == 1 && productNextId == 1
    {
      users := [];
      products := [];
      userNextId := 1;
      productNextId := 1;
    }

    /**
     * `getAllProducts`: with an id, the row with that key or 404; without one, every row or
     * 404 when there is none.
     */
    method GetAllProducts(id: Option<int>) returns (res: Response)
      requires Valid()
      ensures id.Some? && !HasId(products, id.value) ==> res == Response(404, Failure(ProductNotFound))
      ensures id.Some? && HasId(products, id.value) ==>
        res.status == 200 && res.body.Success? && res.body.data.ProductData? &&
        res.body.data.product in products && res.body.data.product.id == id.value
      ensures id.None? && products == [] ==> res == Response(404, Failure(NoProductsFound))
      ensures id.None? && products != [] ==> res == Response(200, Success(None, None, ProductList(products)))
    {
      if id.Some? {
        var i := Find(products, id.value);
        if i.None? {
          return Response(404, Failure(ProductNotFound));
        }
        return Response(200, Success(None, None, ProductData(products[i.value])));
      }
      if |products| == 0 {
        return Response(404, Failure(NoProductsFound));
      }
      return Response(200, Success(None, None, ProductList(products)));
    }

    /**
     * `addProducts`: 400 when a required field is falsy, 500 when Prisma rejects a value,
     * otherwise the new row is appended under the next key and returned with 201.
     */
    method AddProducts(body: ProductBody, nowMs: nat) returns (res: Response)
      requires Valid()
      modifies this
      ensures Valid()
      ensures users == old(users) && userNextId == old(userNextId)
      ensures if !HasRequiredFields(body) then
          res == Response(400, Failure(ProductFieldsRequired)) &&
          products == old(products) && productNextId == old(productNextId)
        else if !CreateAccepted(body) then
          res == Response(500, LibraryError) && products == old(products) && productNextId == old(productNextId)
        else
          var row := Row(old(productNextId), NewProduct(body, nowMs).value);
          products == old(products) + [row] && productNextId == old(productNextId) + 1 &&
          res == Response(201, Success(Some(ProductCreated), None, ProductData(row)))
    {
      res, products, productNextId := AddProductsTo(products, productNextId, body, nowMs);
    }

    /**
     * `updateProduct`: 400 without an id, 404 for an unknown id, 500 when Prisma rejects a
     * value; otherwise only the row with that key is rewritten, by the merge, in place.
     */
    method UpdateProduct(id: Option<int>, body: ProductBody, nowMs: nat) returns (res: Response)
      requires Valid()
      modifies this
      ensures Valid()
      ensures users == old(users) && userNextId == old(userNextId) && productNextId == old(productNextId)
      ensures id.None? ==> res == Response(400, Failure(ProductIdRequired)) && products == old(products)
      ensures id.Some? && !HasId(old(products), id.value) ==>
        res == Response(404, Failure(ProductNotFound)) && products == old(products)
      ensures id.Some? && HasId(old(products), id.value) && !MergeAccepted(body) ==>
        res == Response(500, LibraryError) && products == old(products)
      ensures id.Some? && HasId(old(products), id.value) && MergeAccepted(body) ==>
        var i := Find(old(products), id.value).value;
        var row := Row(id.value, MergeProduct(old(products)[i].fields, body, nowMs).value);
        products == old(products)[i := row] &&
        res == Response(200, Success(Some(ProductUpdated), None, ProductData(row)))
    {
      if id.None? {
        return Response(400, Failure(ProductIdRequired));
      }
      var i := Find(products, id.value);
      if i.None? {
        return Response(404, Failure(ProductNotFound));
      }
      var merged := MergeProduct(products[i.value].fields, body, nowMs);
      if merged.None? {
        return Response(500, LibraryError);
      }
      var row := Row(id.value, merged.value);
      products := products[i.value := row];
      res := Response(200, Success(Some(ProductUpdated), None, ProductData(row)));
    }

    /**
     * `deleteProduct`, as written: 404 for an unknown id; otherwise the product row is
     * deleted, then the keys of the `user` table (not the product table) above the product's
     * id are shifted down and the user counter is reset. When that shift hits a duplicate user
     * key, the response is 500, the users are left as they were, and the product stays deleted.
     */
    method DeleteProduct(id: int) returns (res: Response)
      requires Valid()
      modifies this
      ensures Valid()
      ensures productNextId == old(productNextId)
      ensures !HasId(old(products), id) ==>
        res == Response(404, Failure(ProductNotFound)) &&
        products == old(products) && users == old(users) && userNextId == old(userNextId)
      ensures HasId(old(products), id) ==> products == RemoveAt(old(products), Find(old(products), id).value)
      ensures HasId(old(products), id) && ShiftClashes(old(users), id) ==>
        res == Response(500, LibraryError) && users == old(users) && userNextId == old(userNextId)
      ensures HasId(old(products), id) && !ShiftClashes(old(users), id) ==>
        res == Response(200, Success(Some(ProductDeleted), None, NoData)) &&
        users == ShiftAbove(old(users), id) && userNextId == MaxId(users) + 1
    {
      var i := Find(products, id);
      if i.None? {
        return Response(404, Failure(ProductNotFound));
      }
      assert id >= 1 by {
        assert products[i.value].id == id;
      }
      var remaining := DeleteKey(products, id, productNextId);
      var ok, shifted, counter := ShiftUsers(users, id, userNextId);
      products, users, userNextId := remaining, shifted, counter;
      res := if ok then Response(200, Success(Some(ProductDeleted), None, NoData)) else Response(500, LibraryError);
    }

    /**
     * `deleteProduct` as the rest of the API evidently intends it: the product row is deleted
     * and the keys of the product table above it are shifted down, with the product counter
     * reset, leaving the `user` table alone.
     */
    method DeleteProductRenumbered(id: int) returns (res: Response)
      requires Valid()
      modifies this
      ensures Valid()
      ensures users == old(users) && userNextId == old(userNextId)
      ensures !HasId(old(products), id) ==>
        res == Response(404, Failure(ProductNotFound)) &&
        products == old(products) && productNextId == old(productNextId)
      ensures HasId(old(products), id) ==>
        res == Response(200, Success(Some(ProductDeleted), None, NoData)) &&
        products == DeleteRenumber(old(products), id) && productNextId == MaxId(products) + 1
    {
      var i := Find(products, id);
      if i.None? {
        return Response(404, Failure(ProductNotFound));
      }
      products, productNextId := DeleteAndRenumber(products, id, productNextId);
      res := Response(200, Success(Some(ProductDeleted), None, NoData));
    }

    /**
     * `getAllUsers`: 404 for an empty table; otherwise the projection of every row, wrapped in
     * a one-element array, under the key `sucess`.
     */
    method GetAllUsers() returns (res: Response)
      requires Valid()
      ensures users == [] ==> res == Response(404, Failure(NoUsersFound))
      ensures users != [] ==>
        res.status == 200 && res.body.MisspelledSuccess? && res.body.data.UserListing? &&
        |res.body.data.pages| == 1 && |res.body.data.pages[0]| == |users| &&
        forall i :: 0 <= i < |users| ==> res.body.data.pages[0][i] == View(users[i])
    {
      if |users| == 0 {
        return Response(404, Failure(NoUsersFound));
      }
      res := Response(200, MisspelledSuccess(UserListing([Listing(users)])));
    }

    /**
     * `updateUsers`: 400 without an id, 400 for a falsy username, 404 for an unknown id, 500
     * when Prisma rejects the username (not a string, or another row's); otherwise only the
     * row with that key changes, in its username and updatedAt.
     */
    method UpdateUsers(id: Option<int>, username: JsVal, nowMs: nat) returns (res: Response)
      requires Valid()
      modifies this
      ensures Valid()
      ensures products == old(products) && userNextId == old(userNextId) && productNextId == old(productNextId)
      ensures id.None? ==> res == Response(400, Failure(IdRequired)) && users == old(users)
      ensures id.Some? && !Truthy(username) ==> res == Response(400, Failure(UsernameRequired)) && users == old(users)
      ensures id.Some? && Truthy(username) && !HasId(old(users), id.value) ==>
        res == Response(404, Failure(UserNotFound(id.value))) && users == old(users)
      ensures id.Some? && Truthy(username) && HasId(old(users), id.value) ==>
        var i := Find(old(users), id.value).value;
        if username.Str? && !UsernameTakenByOther(old(users), i, username.s) then
          users == old(users)[i := Renamed(old(users)[i], username.s, nowMs / 1000)] &&
          res == Response(200, Success(Some(UserUpdated(id.value)), None, NoData))
        else
          users == old(users) && res == Response(500, LibraryError)
    {
      if id.None? {
        return Response(400, Failure(IdRequired));
      }
      if !Truthy(username) {
        return Response(400, Failure(UsernameRequired));
      }
      var i := Find(users, id.value);
      if i.None? {
        return Response(404, Failure(UserNotFound(id.value)));
      }
      if !username.Str? || UsernameTakenByOther(users, i.value, username.s) {
        return Response(500, LibraryError);
      }
      RenameKeepsLogins(users, i.value, username.s, nowMs / 1000);
      users := users[i.value := Renamed(users[i.value], username.s, nowMs / 1000)];
      res := Response(200, Success(Some(UserUpdated(id.value)), None, NoData));
    }

    /**
     * `deleteUsers`: 400 without an id, 404 for an unknown id; otherwise the row is deleted,
     * the keys above it shift down (which cannot clash, the key itself being gone), and the
     * counter is reset to one above the largest remaining key.
     */
    method DeleteUsers(id: Option<int>) returns (res: Response)
      requires Valid()
      modifies this
      ensures Valid()
      ensures products == old(products) && productNextId == old(productNextId)
      ensures id.None? ==> res == Response(400, Failure(IdRequired)) && users == old(users) && userNextId == old(userNextId)
      ensures id.Some? && !HasId(old(users), id.value) ==>
        res == Response(404, Failure(UserNotFound(id.value))) && users == old(users) && userNextId == old(userNextId)
      ensures id.Some? && HasId(old(users), id.value) ==>
        res == Response(200, Success(Some(UserDeleted(id.value)), None, NoData)) &&
        users == DeleteRenumber(old(users), id.value) && userNextId == MaxId(users) + 1
    {
      if id.None? {
        return Response(400, Failure(IdRequired));
      }
      var k := id.value;
      var i := Find(users, k);
      if i.None? {
        return Response(404, Failure(UserNotFound(k)));
      }
      var renumbered, counter := DeleteAndRenumber(users, k, userNextId);
      assert UsersValid(renumbered, counter) by {
        DeleteRenumberUsersValid(users, k, userNextId);
      }
      users, userNextId := renumbered, counter;
      res := Response(200, Success(Some(UserDeleted(k)), None, NoData));
    }

    /**
     * `register`: 400 when a field is falsy, 500 when Prisma or bcrypt rejects a value, 400
     * when the email or the username is taken; otherwise one row is appended under the next
     * key, holding the bcrypt hash of the password and no token, and the answer is 201.
     */
    method Register(body: RegisterBody, h: Hasher, salt: nat, nowMs: nat) returns (res: Response)
      requires Valid()
      modifies this
      ensures Valid()
      ensures products == old(products) && productNextId == old(productNextId)
      ensures !RegisterFieldsPresent(body) ==>
        res == Response(400, Failure(RegisterFieldsRequired)) && users == old(users) && userNextId == old(userNextId)
      ensures RegisterFieldsPresent(body) && !(body.username.Str? && body.email.Str?) ==>
        res == Response(500, LibraryError) && users == old(users) && userNextId == old(userNextId)
      ensures RegisterFieldsPresent(body) && body.username.Str? && body.email.Str? &&
              LoginTaken(old(users), body.email.s, body.username.s) ==>
        res == Response(400, Failure(UserExists)) && users == old(users) && userNextId == old(userNextId)
      ensures RegisterFieldsPresent(body) && body.username.Str? && body.email.Str? &&
              !LoginTaken(old(users), body.email.s, body.username.s) ==>
        if body.password.Str? then
          var hashed := HashPassword(h, body.password.s, salt);
          users == old(users) + [Row(old(userNextId), UserFields(body.username.s, body.email.s, hashed, None, nowMs / 1000, None))] &&
          userNextId == old(userNextId) + 1 &&
          res == Response(201, Success(Some(UserRegistered), None, NoData)) &&
          (HasherSound(h) ==> ComparePassword(h, body.password.s, hashed))
        else
          res == Response(500, LibraryError) && users == old(users) && userNextId == old(userNextId)
    {
      if !RegisterFieldsPresent(body) {
        return Response(400, Failure(RegisterFieldsRequired));
      }
      if !body.username.Str? || !body.email.Str? {
        return Response(500, LibraryError);
      }
      if LoginTaken(users, body.email.s, body.username.s) {
        return Response(400, Failure(UserExists));
      }
      if !body.password.Str? {
        return Response(500, LibraryError);
      }
      var hashed := HashPassword(h, body.password.s, salt);
      var row := Row(userNextId, UserFields(body.username.s, body.email.s, hashed, None, nowMs / 1000, None));
      AppendKeepsLogins(users, row);
      users, userNextId := Insert(users, userNextId, row.fields);
      res := Response(201, Success(Some(UserRegistered), None, NoData));
    }

    /**
     * `login`: 400 without an email or username and a password, 500 when Prisma rejects a key,
     * 401 when no row matches either key; otherwise some matching row is picked and
     * `LoginEffect` describes the rest. With a sound jsonwebtoken, a login that gets past the
     * password check answers 200 with the matched row's identity.
     */
    method Login(body: LoginBody, h: Hasher, j: Jwt, nowMs: nat) returns (res: Response)
      requires Valid()
      modifies this
      ensures Valid()
      ensures products == old(products) && userNextId == old(userNextId) && productNextId == old(productNextId)
      ensures !LoginFieldsPresent(body) ==> res == Response(400, Failure(LoginFieldsRequired)) && users == old(users)
      ensures LoginFieldsPresent(body) && (LoginKey(body.email).None? || LoginKey(body.username).None?) ==>
        res == Response(500, LibraryError) && users == old(users)
      ensures LoginFieldsPresent(body) && LoginKey(body.email).Some? && LoginKey(body.username).Some? ==>
        var ek, uk := LoginKey(body.email).value, LoginKey(body.username).value;
        if exists i :: 0 <= i < |old(users)| && MatchesLogin(old(users)[i], ek, uk) then
          exists i :: 0 <= i < |old(users)| && MatchesLogin(old(users)[i], ek, uk) &&
            LoginEffect(old(users), i, body, h, j, nowMs, users, res) &&
            (JwtSound(j) && res.status == 200 ==>
              res.body.data == Identity(DecodedBase64(Payload(old(users)[i].fields.email, old(users)[i].fields.username))))
        else
          res == Response(401, Failure(NotFoundMessage(body))) && users == old(users)
    {
      if !LoginFieldsPresent(body) {
        return Response(400, Failure(LoginFieldsRequired));
      }
      var emailKey, usernameKey := LoginKey(body.email), LoginKey(body.username);
      if emailKey.None? || usernameKey.None? {
        return Response(500, LibraryError);
      }
      if !exists i :: 0 <= i < |users| && MatchesLogin(users[i], emailKey.value, usernameKey.value) {
        return Response(401, Failure(NotFoundMessage(body)));
      }
      var i :| 0 <= i < |users| && MatchesLogin(users[i], emailKey.value, usernameKey.value);
      var u := users[i];
      if !body.password.Str? {
        res := Response(500, LibraryError);
      } else if !ComparePassword(h, body.password.s, u.fields.password) {
        res := Response(401, Failure(InvalidCredentials));
      } else {
        var token := CreateToken(j, u.fields.email, u.fields.username, nowMs);
        TokenKeepsValid(users, userNextId, i, token);
        users := users[i := WithToken(u, token)];
        var verified := VerifyToken(j, token, nowMs);
        if verified.Failed? {
          res := Response(500, LibraryError);
        } else {
          res := Response(200, Success(Some(LoginSucceeded), Some(token), Identity(DecodedBase64(verified.claims.data))));
          if JwtSound(j) {
            TokenLifetime(j, u.fields.email, u.fields.username, nowMs, nowMs);
          }
        }
      }
      assert LoginEffect(old(users), i, body, h, j, nowMs, users, res);
    }
  }
}
