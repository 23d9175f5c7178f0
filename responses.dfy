/** The HTTP responses the handlers send: a status code and a JSON body. */
module Responses {
  import opened Basics
  import opened Schema
  import opened Tokens

  /** The projection of a `user` row that the listing exposes. */
  datatype UserView = UserView(username: string, email: string, createdAt: int, updatedAt: Option<int>)

  /** The `data` member of a body. */
  datatype Data =
    | NoData
    | ProductData(product: Product)
    | ProductList(products: seq<Product>)
    | UserListing(pages: seq<seq<UserView>>)
    | Identity(decoded: Decoded)

  /**
   * The JSON bodies:
   * `{ success: false, message }`;
   * `{ success: true, message?, token?, data? }`;
   * `{ sucess: true, data }` (the user listing, with the key spelled this way);
   * `{ success: false, message: err.message }` for an error thrown by Prisma, bcrypt or
   * jsonwebtoken, whose text is not modelled.
   */
  datatype Body =
    | Failure(message: string)
    | Success(successMessage: Option<string>, token: Option<string>, data: Data)
    | MisspelledSuccess(data: Data)
    | LibraryError

  datatype Response = Response(status: int, body: Body)
}
