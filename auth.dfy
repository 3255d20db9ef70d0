/**
 * The values the authorization store works with: the Authorization record, the
 * filter and update specifications, and the errors the store reports.
 */
module Auth {
  import opened Wrappers
  import Ids

  type ID = Ids.ID

  /** A status is free text in the record; only these two values are legal. */
  const Active: string := "active"
  const Inactive: string := "inactive"

  /** A permission entry; its inner structure plays no part in the store. */
  datatype Permission = Permission(action: string, resource: string)

  const NoPermission: Permission := Permission("", "")

  /** Timestamps are abstract instants. */
  type Time = int

  datatype Authorization = Authorization(
    id: ID,
    token: string,
    status: string,
    description: string,
    orgID: ID,
    userID: ID,
    permissions: seq<Permission>,
    createdAt: Time,
    updatedAt: Time)

  /** The zero value of the record, what `&Authorization{}` allocates. */
  const Empty: Authorization := Authorization(0, "", "", "", 0, 0, [], 0, 0)

  datatype AuthorizationFilter = AuthorizationFilter(
    id: Option<ID>,
    token: Option<string>,
    orgID: Option<ID>,
    userID: Option<ID>)

  datatype AuthorizationUpdate = AuthorizationUpdate(
    status: Option<string>,
    description: Option<string>)

  datatype Code = EInvalid | EInternal | ENotFound

  datatype Op = OpBucket | OpGet | OpPut | OpDelete | OpCursor

  datatype BucketName = AuthBucket | AuthIndexBucket

  datatype Error =
    // the key-value layer
    | KeyNotFound
    | StorageFault(op: Op, bucket: BucketName)
    | NotUnique
    | UnexpectedIndex(cause: Error)
    // identifiers
    | IDFailure(reason: Ids.IDError)
    // the JSON codec
    | JsonSyntax
    | JsonValue
    | JsonNilTarget
    | JsonMarshalID
    | JsonPathNotFound
    // the authorization store
    | UnknownStatus
    | UnexpectedAuthIndex(cause: Error)
    | InvalidAuthID
    | InternalService(cause: Error)
    | AuthNotFound
    | UnableToCreateToken
    // a coded platform error wrapping a cause, or carrying a message
    | Wrapped(code: Option<Code>, cause: Error)
    | Coded(kind: Code, msg: string)

  /** kv.IsNotFound: the error reports a missing key. */
  predicate IsNotFound(e: Error)
  {
    e.KeyNotFound?
  }
}
