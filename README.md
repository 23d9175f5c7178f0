# tugas-du product and user API, modelled in Dafny

This project models the request handlers of the tugas-du backend, an Express and Prisma
service over a MySQL database with two tables, `user` and `product`. It also models the
helpers those handlers call:

- **Handlers** (`handlers.dfy`). A `Store` class holds both tables, each a sequence of rows
  in primary-key order, and one AUTO_INCREMENT counter per table. Every controller handler
  is a method of `Store`. It takes the parsed path id and body fields, the current time in
  milliseconds, and the bcrypt and jsonwebtoken libraries. It returns the status code and
  JSON body the handler sends, and it rewrites the tables the way the handler's queries do.
  `Valid()` is the invariant every handler keeps: rows in key order, keys below the counter,
  usernames and emails unique and non-empty.
- **Tables** (`tables.dfy`). The effect of each query on a table: lookup by key, delete by key,
  the raw `UPDATE ... SET id = id - 1 WHERE id > k`, and the maximum-key query.
  `ShiftKeys` runs the raw update the way MySQL does: row by row in ascending key order,
  checking the primary key as it goes, and rolling the whole statement back on a duplicate key.
- **JavaScript semantics** (`js_values.dfy`, `js_numbers.dfy`). Request values are a `JsVal`
  (undefined, null, string, number, boolean). `Truthy` drives the guards and the `||` merges.
  `parseInt` and the decimal form of a number are modelled on that type.
- **Rules** (`product_rules.dfy`, `user_rules.dfy`, `auth_rules.dfy`). The pure parts of each
  controller: the required-field guards, the product row `addProducts` creates, the
  field-by-field merge of `updateProduct`, the user listing's projection and the login lookup keys.
- **Tokens** (`tokens.dfy`, `text.dfy`, `utf8.dfy`, `base64.dfy`). The token payload is the
  Base64 encoding (section 4 of RFC 4648) of the UTF-8 bytes of `email:username`. Decoding
  splits the payload on ':'. bcrypt and jsonwebtoken are values whose fields are the
  library functions; what the libraries promise is a predicate (`HasherSound`, `JwtSound`)
  that the properties take as a hypothesis.
- **Bearer gate** (`auth_middleware.dfy`). The middleware's decision as a function of the
  Authorization header, the verifier and the clock.
- **Scenarios** (`scenarios.dfy`). A registration followed by a login, and concrete tables
  showing what `deleteProduct` does to the `user` table.

## Model

| member | source | states |
|---|---|---|
| Handlers.Store.GetAllProducts | controllers/productControllers.js:3-38 | with an id: 404 'Product not found' when no row has that key, else 200 with a stored row whose key is that id; without an id: 404 'No products found' for an empty table, else 200 with every row |
| Handlers.Store.AddProducts | controllers/productControllers.js:40-62 | 400 and no change when productName, category or price is falsy; 500 and no change when Prisma rejects a value; otherwise exactly one row is appended, under the counter's key, the counter advances, and 201 returns that row; the user table never changes; the invariant is kept |
| Handlers.AddProductsTo | controllers/productControllers.js:40-62 | on the product table and its counter alone: 400 and no change when productName, category or price is falsy; 500 and no change when Prisma rejects a value; otherwise the row is appended under the counter's key, which no row held, the counter advances and 201 returns the row; the table stays valid |
| Handlers.Store.UpdateProduct | controllers/productControllers.js:64-98 | 400 'Product id is required' without an id, 404 for an unknown id, 500 when Prisma rejects a value, each with no change; otherwise only the row with that key is replaced, by the merge of its old columns with the body, and 200 returns it; keys, counters and the user table are unchanged |
| Handlers.Store.DeleteProduct | controllers/productControllers.js:100-136 | as written: 404 and no change for an unknown id; otherwise that product row is removed; if user keys id and id+1 both exist, the user shift fails, the answer is 500 and the users and user counter are unchanged; otherwise every user key above id drops by one, the user counter becomes the largest user key + 1, and the answer is 200; the product counter never changes |
| Handlers.Store.DeleteProductRenumbered | controllers/productControllers.js:100-136 | corrected: the product row is removed, product keys above it drop by one, the product counter becomes the largest product key + 1, and the user table is untouched |
| Handlers.Store.GetAllUsers | controllers/usersControllers.js:4-22 | 404 'No users found' for an empty table; otherwise 200 under the key `sucess`, with one page holding the projection of every row, in key order |
| Handlers.Store.UpdateUsers | controllers/usersControllers.js:24-57 | checks, in order: missing id (400 'Id is required'), falsy username (400 'Username is required'), unknown id (404 'User with id … not found'); then 500 when the username is not a string or belongs to another row; otherwise only that row changes, in username and updatedAt (email rewritten with itself), and the answer is 200 |
| Handlers.Store.DeleteUsers | controllers/usersControllers.js:59-100 | 400 without an id, 404 for an unknown id, each with no change; otherwise the table becomes the delete-and-renumber of the old one, the counter becomes its largest key + 1, the answer is 200 'User with id k has been deleted.', and the invariant is kept |
| Handlers.Store.Register | controllers/authControllers.js:4-35 | 400 when a field is falsy; 500 when username or email is not a string; 400 when any row has that email or that username; 500 when the password is not a string; otherwise exactly one row is appended under the counter's key, with the bcrypt hash of the password (which, for a sound bcrypt, compares equal to the password), no token and createdAt the current second, and 201; usernames and emails stay unique |
| Handlers.Store.Login | controllers/authControllers.js:37-79 | 400 without an email or username and a password; 500 when a lookup key is not a string; 401 'user with … not found' when no row matches `email \|\| ''` or `username \|\| ''`; otherwise some matching row is picked: wrong password gives 401 'Invalid credentials' with no change, else only that row's token is overwritten with a new token, and the answer is 200 with that token and its decoded payload (500 if the fresh token does not verify) |
| Handlers.LoginIdentity | controllers/authControllers.js:58-74 | with a sound jsonwebtoken the token login just issued verifies, and the decoded data is exactly the row's email and username when neither contains ':' |
| Scenarios.RegisterThenLogin | controllers/authControllers.js:4-79 | a new user who registers and then logs in by email gets 201, then 200 with the token now stored in their row and with their own email and username as data |
| Scenarios.DeleteProductLeavesProductGap | controllers/productControllers.js:111-121 | deleting product 2 of 1, 2, 3 as written leaves product keys 1 and 3, while renumbering the product table leaves 1 and 2 |
| Scenarios.DeleteProductRenumbersUsers | controllers/productControllers.js:116-121 | deleting product 1 as written with users 1 and 3 turns user 3 into user 2 |
| Scenarios.DeleteProductUserClash | controllers/productControllers.js:116-121 | deleting product 1 as written with users 1 and 2 makes the user shift hit the primary key |
| ProductRules.NewProduct | controllers/productControllers.js:46-56 | Prisma accepts the row exactly when productName and category are strings, parseInt reads price, and every truthy optional field has its column's type; the row is active, has createdAt floor(now/1000) and no updatedAt, and falsy description/image become '' and falsy stock 0 |
| ProductRules.NewProductNumericPrice | controllers/productControllers.js:50 | a numeric price is stored unchanged: parseInt of a number's decimal text is the number |
| ProductRules.MergeProduct | controllers/productControllers.js:84-91 | Prisma accepts the merge exactly when every truthy field has its column's type and status is undefined or a boolean; each of the six fields is taken from the body when truthy and kept otherwise, status is taken whenever it is a boolean, createdAt is kept and updatedAt is the current second |
| ProductRules.MergeSeesOnlyTruthy | controllers/productControllers.js:84-89 | two bodies that agree on every truthy field give the same row, so 0, '', null and false mean the same as an absent field |
| ProductRules.ZeroPriceKeepsPrice | controllers/productControllers.js:85 | a price of 0 gives the same result as no price and keeps the stored price |
| ProductRules.FalseStatusIsWritten | controllers/productControllers.js:90 | a status of false is written |
| ProductRules.MergeIdempotent | controllers/productControllers.js:84-91 | applying the same update twice in the same second gives the same row as once |
| ProductRules.EmptyMergeTouchesOnlyUpdatedAt | controllers/productControllers.js:84-91 | an empty body changes nothing but updatedAt |
| UserRules.Listing | controllers/usersControllers.js:5-12 | one view per row, in order, each holding only username, email, createdAt and updatedAt |
| UserRules.ListingHidesSecrets | controllers/usersControllers.js:6-11 | tables that agree on the four selected columns list identically, whatever their keys, password hashes and tokens |
| UserRules.RenameKeepsLogins | controllers/usersControllers.js:43-52 | renaming a row to a username no other row has keeps usernames and emails unique and non-empty |
| AuthRules.LoginKey | controllers/authControllers.js:46-47 | the lookup key is the field when truthy and '' otherwise; Prisma rejects it exactly when the field is truthy and not a string |
| AuthRules.NotFoundMessage | controllers/authControllers.js:52 | the 401 message names the email when it is truthy and the username otherwise |
| AuthRules.EmptyKeyMatchesNothing | controllers/authControllers.js:43-50 | since no stored username or email is '', a login with only an email matches by email, and one with only a username matches by username |
| AuthRules.AppendKeepsLogins | controllers/authControllers.js:10-29 | appending a row whose email and username are unused keeps both unique |
| AuthRules.TokenKeepsValid | controllers/authControllers.js:59-66 | storing a token keeps the user table valid |
| Tables.Find | controllers/usersControllers.js:66-68 | the position of the row with that key, and none exactly when no row has it |
| Tables.ShiftAbove | controllers/usersControllers.js:77-82 | a successful shift keeps every row's columns and position, and lowers exactly the keys above k by one |
| Tables.ShiftStepClash | controllers/usersControllers.js:77-82 | during the ascending row-by-row shift, the key a row asks for is taken exactly when that row has key k+1 and key k is in use |
| Tables.ShiftKeys | controllers/usersControllers.js:77-82 | the raw update succeeds exactly when keys k and k+1 are not both in use; on success the table is shifted, otherwise it is rolled back unchanged |
| Tables.MaxId | controllers/usersControllers.js:83-88 | the largest key, 0 for an empty table, held by some row and at least every key |
| Tables.LargestKey | controllers/usersControllers.js:83-88 | the first key in descending order (0 when empty) is the largest key |
| Tables.ShiftKeepsOrder | controllers/usersControllers.js:77-82 | a shift that does not clash keeps the keys positive and strictly increasing |
| Tables.DeleteRenumberRows | controllers/usersControllers.js:72-82 | after deleting key k, the row is gone, rows below keep their keys and rows above move down one place with their key lowered by exactly one, all other columns unchanged |
| Tables.DeleteRenumberValid | controllers/usersControllers.js:72-92 | after the delete, the shift and the counter reset, the table is in key order with the counter above every key |
| Tables.DeleteRenumberContiguous | controllers/usersControllers.js:72-92 | if the keys were exactly 1..n and 1 ≤ k ≤ n, they are exactly 1..n-1 afterwards and the counter is n |
| Tables.Insert | controllers/authControllers.js:22-29 | the new row goes in under the counter's key, which no row holds yet, after all existing rows; the counter moves up by one and the table stays in key order below its counter |
| Tables.DeleteKey | controllers/productControllers.js:111-115 | the row with that key is removed, and the rest stays in key order below the unchanged counter |
| Schema.DeleteRenumberUsersValid | controllers/usersControllers.js:72-92 | deleting and renumbering users keeps usernames and emails unique and present |
| Schema.ShiftUsers | controllers/productControllers.js:116-131 | the user half of the product delete: when keys k and k+1 are not both taken, the user keys above k drop by one and the counter becomes the largest key + 1; otherwise the table and counter are left as they were; either way usernames and emails stay unique and the table valid |
| AuthMiddleware.BearerToken | middlewares/authMiddleware.js:7-10 | a token exists exactly when the header starts with the case-sensitive "Bearer " |
| AuthMiddleware.BearerTokenIsSecondField | middlewares/authMiddleware.js:10 | the token is the text after "Bearer " up to the next space; later fields are ignored |
| AuthMiddleware.BearerTokenOfHeader | middlewares/authMiddleware.js:10 | "Bearer " followed by a space-free token yields that token |
| AuthMiddleware.Gate | middlewares/authMiddleware.js:4-29 | every rejection is 401; 'Credentials is required' exactly when the header is missing, lacks the prefix or has an empty token; next is called exactly when the token verifies; 'Token expired' exactly for TokenExpiredError and 'Invalid token' exactly for every other failure |
| AuthMiddleware.GateAndTokenAge | middlewares/authMiddleware.js:14-20 | with a sound jsonwebtoken, a freshly made token passes the gate for one day from its issue second and is 'Token expired' afterwards |
| Tokens.DecodedBase64 | functions/encodedDecoded.js:14-18 | the email holds no ':' and is the whole text or its part before the first ':'; the username is undefined exactly when the text has no ':', and otherwise holds no ':' |
| Tokens.PayloadTextRoundTrip | functions/encodedDecoded.js:5-15 | the base64 payload of createToken decodes back to the text `email:username` it was built from |
| Tokens.DecodePayload | functions/encodedDecoded.js:5-18 | decoding the payload of email and username gives them back when neither contains ':' |
| Tokens.DecodePayloadShifted | functions/encodedDecoded.js:16 | an email "a:b" shifts the fields: email a, username b |
| Tokens.TokenLifetime | functions/encodedDecoded.js:7-11 | with a sound jsonwebtoken, a token verifies with its claims until 86400 seconds after its issue second and fails with TokenExpiredError afterwards |
| Base64.Encode | functions/encodedDecoded.js:6 | the encoding has 4 characters per started 3-byte group |
| Base64.DecodeEncode | functions/encodedDecoded.js:6-15 | decoding the encoding of any byte string gives it back |
| Utf8.DecodeEncode | functions/encodedDecoded.js:6-15 | decoding the UTF-8 encoding of any string gives it back |
| Text.Split | middlewares/authMiddleware.js:10 | splitting always yields at least one piece |
| Text.JoinSplit | functions/encodedDecoded.js:16 | joining the pieces with the separator gives the text back |
| Text.SplitFirstPiece | functions/encodedDecoded.js:16 | the first piece holds no separator and is the whole text or its part before the first separator |
| Text.SplitOnePiece | functions/encodedDecoded.js:16 | there is exactly one piece exactly when the text holds no separator |
| JsNumbers.ParseIntDecimal | controllers/productControllers.js:50 | parseInt reads back the decimal form of any integer followed by non-digit text, unless the number is 0 and the text starts with x or X |
| JsNumbers.ParseIntNumber | controllers/productControllers.js:50 | parseInt of a number is that number |
| JsNumbers.ParseIntNonNumeric | controllers/productControllers.js:50 | parseInt of true, false, null or undefined is NaN |

## Left out

- Numbers are integers. JavaScript fractions, NaN, -0 and parseInt of numbers whose text uses an exponent (at least 1e21) are not modelled. MySQL's INT width is not modelled either: keys, prices and stock are unbounded.
- Path ids arrive already parsed by parseInt, and absent or empty ids are `None`. A non-numeric id gives NaN and a Prisma error (500); that path is not modelled.
- Handlers.Store.UpdateUsers: the messages echo the raw path text, but the model writes the decimal form of the parsed id. The two differ for texts such as "007" or "5abc".
- Errors thrown by Prisma, bcrypt or jsonwebtoken are one abstract body, `LibraryError`. Their message text, and the `{ error }` key used by the read handlers, are not modelled.
- Prisma's type checks are assumed to reject a value whose JavaScript type does not fit the column, including a null status. The Prisma schema file is not part of this model. The unique constraints on username and email, and the nullable updatedAt and token, follow the data model the handlers use.
- Handlers.Store.Login: bcrypt's `compare` is assumed to throw for a non-string password. The same clock reading signs and verifies the token. `findFirst` picks any matching row, because its order is unspecified.
- Handlers.Store.DeleteProduct and Handlers.Store.DeleteUsers run alone and to completion. Concurrent requests, and a crash between the delete, the shift and the counter reset, are not modelled.
- AuthMiddleware.Gate: the outer catch that answers 'Unauthorized' cannot be reached in this model, because reading the header cannot throw. The jsonwebtoken secret is folded into the `Jwt` value.
- bcrypt hashing and JWT signing are not modelled. The random bcrypt salt is a parameter, and `Date.now()` is the `nowMs` parameter.
- Utf8.DecodeFirst: a malformed byte becomes one U+FFFD per byte, not one per maximal subpart as in the WHATWG decoder. Only tokens not made by createToken reach this path. Lone surrogates cannot occur in Dafny strings.
- Base64.Decode follows Node's lenient decoder: it skips characters outside the alphabet, accepts '-' and '_', and stops at '='.
- Handlers.Store.Register, Handlers.Store.Login and Handlers.Store.UpdateUsers compare usernames and emails by exact character equality. The database collation is not modelled. MySQL's default case-insensitive, trailing-space-padding collation would treat "bob", "Bob" and "bob " as the same value. With that collation, registering "Bob" next to a stored "bob" is a duplicate (400), logging in as "BOB" finds "bob", and renaming onto "Bob " clashes. The model instead answers 201, 401 and 200.
- Body fields are modelled only as undefined, null, strings, integers and booleans. JSON objects and arrays are not modelled. They are truthy and pass every guard, and Prisma would read them as query filters or update operations. For example, `{"contains": "@"}` as a login email, or `{"set": "x"}` as a new username.
- Logging (`console.error`), the route tables, index.js and swaggerConfig.js are not modelled. This includes which routes sit behind the bearer gate.

## Findings

| source | as written | input that shows it | evidently intended | confidence | as-written member | corrected member |
|---|---|---|---|---|---|---|
| controllers/productControllers.js:116-131 | after deleting a product, the handler lowers the keys of the `user` table above the product's id and resets the user counter; the product table keeps its gap and its counter | products 1, 2, 3, delete 2: product keys stay 1, 3. Users 1 and 3, delete product 1: user 3 becomes user 2. Users 1 and 2, delete product 1: duplicate user key, 500, product already gone | the renumbering `deleteUsers` applies to its own table, applied to the product table and its counter | not executed | Handlers.Store.DeleteProduct, Scenarios.DeleteProductUserClash | Handlers.Store.DeleteProductRenumbered, Tables.DeleteRenumberContiguous |
