/**
 * The expression-level logic of controllers/authControllers.js: the required-field guards
 * of `register` and `login`, the lookup keys of `login`, and its not-found message.
 */
module AuthRules {
  import opened Basics
  import opened JsValues
  import opened JsNumbers
  import opened Tables
  import opened Schema

  /** The fields of `req.body` that `register` reads. */
  datatype RegisterBody = RegisterBody(username: JsVal, email: JsVal, password: JsVal)

  /** The guard of `register`: username, email and password must all be truthy. */
  predicate RegisterFieldsPresent(b: RegisterBody) {
    Truthy(b.username) && Truthy(b.email) && Truthy(b.password)
  }

  /** The fields of `req.body` that `login` reads. */
  datatype LoginBody = LoginBody(email: JsVal, username: JsVal, password: JsVal)

  /** The guard of `login`: an email or a username, and a password, must be truthy. */
  predicate LoginFieldsPresent(b: LoginBody) {
    (Truthy(b.email) || Truthy(b.username)) && Truthy(b.password)
  }

  /**
   * A lookup key of `login`, `field || ''`; `None` when Prisma rejects it, i.e. when the field
   * is truthy but not a string.
   */
  function LoginKey(v: JsVal): (k: Option<string>)
    ensures k.Some? <==> !Truthy(v) || v.Str?
    ensures k.Some? ==> k.value == if Truthy(v) then v.s else ""
  {
    StringColumn(Or(v, Str("")))
  }

  /** The row after `update({ data: { token } })`: only the token column changes. */
  function WithToken(u: User, token: string): User {
    u.(fields := u.fields.(token := Some(token)))
  }

  /** Whether a row matches `OR: [{ email: emailKey }, { username: usernameKey }]`. */
  predicate MatchesLogin(u: User, emailKey: string, usernameKey: string) {
    u.fields.email == emailKey || u.fields.username == usernameKey
  }

  /** The message of the 401 sent when no row matches: "user with ${email || username} not found". */
  function NotFoundMessage(b: LoginBody): (m: string)
    ensures Truthy(b.email) ==> m == "user with " + ToJsString(b.email) + " not found"
    ensures !Truthy(b.email) ==> m == "user with " + ToJsString(b.username) + " not found"
  {
    "user with " + ToJsString(Or(b.email, b.username)) + " not found"
  }

  /**
   * A falsy field becomes the lookup key '', which no stored row has, so a login by username
   * alone matches by username only, and one by email alone matches by email only.
   */
  lemma EmptyKeyMatchesNothing(users: seq<User>, i: nat, emailKey: string, usernameKey: string)
    requires LoginsPresent(users) && i < |users|
    ensures emailKey == "" ==> (MatchesLogin(users[i], emailKey, usernameKey) <==> users[i].fields.username == usernameKey)
    ensures usernameKey == "" ==> (MatchesLogin(users[i], emailKey, usernameKey) <==> users[i].fields.email == emailKey)
  {
    assert users[i].fields.username != "" && users[i].fields.email != "";
  }

  /**
   * Registration keeps logins unique: a row whose email and username no row uses yet can be
   * appended without breaking either unique constraint.
   */
  lemma AppendKeepsLogins(users: seq<User>, u: User)
    requires UniqueLogins(users) && LoginsPresent(users)
    requires u.fields.username != "" && u.fields.email != ""
    requires !LoginTaken(users, u.fields.email, u.fields.username)
    ensures UniqueLogins(users + [u]) && LoginsPresent(users + [u])
  {
    var r := users + [u];
    forall a, b | 0 <= a < b < |r|
      ensures r[a].fields.username != r[b].fields.username && r[a].fields.email != r[b].fields.email
    {
      if b == |users| {
        assert r[a] == users[a];
        assert !(users[a].fields.email == u.fields.email || users[a].fields.username == u.fields.username);
      }
    }
  }

  /** Storing a token changes neither keys, usernames nor emails, so the `user` table stays valid. */
  lemma TokenKeepsValid(users: seq<User>, next: int, i: nat, token: string)
    requires UsersValid(users, next) && i < |users|
    ensures UsersValid(users[i := WithToken(users[i], token)], next)
  {
    var r := users[i := WithToken(users[i], token)];
    assert forall a :: 0 <= a < |r| ==> r[a].id == users[a].id && r[a].fields.username == users[a].fields.username && r[a].fields.email == users[a].fields.email;
  }
}
