/**
 * The JSON form of a stored authorization, abstracted from its bytes.
 *
 * A stored value is either text that is not a JSON object (`Unparsable`) or an object
 * described field by field: a field is absent, present with a value of the wrong JSON type
 * (`Mistyped`, keeping its raw text), or present with a value of the right type. ID fields
 * hold the number their hexadecimal text denotes (zero is the invalid ID); the token keeps
 * both its raw text as written between the quotes and the string that text denotes.
 *
 * This module gives the three readers of such a value: the encoder (`Marshal`, as
 * encoding/json writes a record), the decoder into an existing target (`Unmarshal`), and the
 * field extractors the cursor hint uses, which read one field without decoding the rest.
 */
module Json {
  import opened Wrappers
  import opened Auth
  import Ids

  datatype Field<T> = Absent | Mistyped(raw: string) | Present(value: T)

  datatype Text = Text(raw: string, value: string)

  datatype Doc =
    | Unparsable
    | Object(
        id: Field<ID>,
        token: Field<Text>,
        status: Field<string>,
        description: Field<string>,
        orgID: Field<ID>,
        userID: Field<ID>,
        permissions: Field<seq<Permission>>,
        createdAt: Field<Time>,
        updatedAt: Field<Time>)

  /** Characters encoding/json writes as an escape sequence inside a string. */
  predicate NeedsEscape(c: char)
  {
    c < ' ' || c == '"' || c == '\\' || c == '<' || c == '>' || c == '&'
    || c == '\U{2028}' || c == '\U{2029}'
  }

  function HexDigit(n: nat): char
    requires n < 16
  {
    "0123456789abcdef"[n]
  }

  function EscapeChar(c: char): (r: string)
    ensures NeedsEscape(c) ==> |r| > 1
    ensures !NeedsEscape(c) ==> r == [c]
  {
    if c == '"' then "\\\""
    else if c == '\\' then "\\\\"
    else if c == '\n' then "\\n"
    else if c == '\r' then "\\r"
    else if c == '\t' then "\\t"
    else if c == '\U{2028}' then "\\u2028"
    else if c == '\U{2029}' then "\\u2029"
    else if NeedsEscape(c) then
      var n := c as int;
      "\\u00" + [HexDigit(n / 16), HexDigit(n % 16)]
    else [c]
  }

  /** The raw text encoding/json writes between the quotes for the string `s`. */
  function Escape(s: string): string
  {
    if s == [] then [] else EscapeChar(s[0]) + Escape(s[1..])
  }

  predicate NoEscapes(s: string)
  {
    forall i | 0 <= i < |s| :: !NeedsEscape(s[i])
  }

  lemma {:induction false} EscapeLength(s: string)
    ensures |Escape(s)| >= |s|
    ensures !NoEscapes(s) ==> |Escape(s)| > |s|
  {
    if s != [] {
      EscapeLength(s[1..]);
      if !NeedsEscape(s[0]) && !NoEscapes(s) {
        var i :| 0 <= i < |s| && NeedsEscape(s[i]);
        assert NeedsEscape(s[1..][i - 1]);
      }
    }
  }

  /** A string is written unchanged exactly when none of its characters needs escaping. */
  lemma {:induction false} EscapeIdentity(s: string)
    ensures Escape(s) == s <==> NoEscapes(s)
  {
    if s == [] {
    } else if NoEscapes(s) {
      assert NoEscapes(s[1..]) by {
        forall i | 0 <= i < |s| - 1 ensures !NeedsEscape(s[1..][i]) { assert s[1..][i] == s[i + 1]; }
      }
      EscapeIdentity(s[1..]);
      assert Escape(s) == [s[0]] + s[1..];
    } else {
      EscapeLength(s);
    }
  }

  /** The field encoding of an ID: MarshalText fails on the invalid ID. */
  predicate Encodable(a: Authorization)
  {
    Ids.Valid(a.id) && Ids.Valid(a.orgID)
  }

  /**
   * json.Marshal of a record. Every field is written; userID is left out when zero
   * (`omitempty`). An invalid ID or organization ID cannot be written.
   */
  function Marshal(a: Authorization): (r: Result<Doc, Error>)
    ensures r.Success? <==> Encodable(a)
    ensures r.Success? ==> r.value.Object? && WellTyped(r.value)
    ensures r.Success? ==> r.value.token == Present(Text(Escape(a.token), a.token))
    ensures r.Success? ==> (r.value.userID.Absent? <==> a.userID == 0)
  {
    if !Encodable(a) then Failure(JsonMarshalID)
    else Success(Object(
      Present(a.id),
      Present(Text(Escape(a.token), a.token)),
      Present(a.status),
      Present(a.description),
      Present(a.orgID),
      if a.userID == 0 then Absent else Present(a.userID),
      Present(a.permissions),
      Present(a.createdAt),
      Present(a.updatedAt)))
  }

  predicate IDFieldOk(f: Field<ID>)
  {
    match f
    case Absent => true
    case Mistyped(_) => false
    case Present(n) => Ids.Valid(n)
  }

  /** Every present field has a value of its declared type, and every present ID is valid. */
  predicate WellTyped(d: Doc)
    requires d.Object?
  {
    && IDFieldOk(d.id) && !d.token.Mistyped? && !d.status.Mistyped? && !d.description.Mistyped?
    && IDFieldOk(d.orgID) && IDFieldOk(d.userID) && !d.permissions.Mistyped?
    && !d.createdAt.Mistyped? && !d.updatedAt.Mistyped?
  }

  function Pick<T>(f: Field<T>, keep: T): T
  {
    if f.Present? then f.value else keep
  }

  /**
   * json.Unmarshal into the record `into` points at (`None` is the nil pointer). The text is
   * checked first; then a nil target is refused; then every field present overwrites the
   * target's, and every absent field keeps the target's value.
   */
  function Unmarshal(d: Doc, into: Option<Authorization>): (r: Result<Authorization, Error>)
    ensures d.Unparsable? ==> r == Failure(JsonSyntax)
    ensures d.Object? && into.None? ==> r == Failure(JsonNilTarget)
    ensures r.Success? <==> d.Object? && into.Some? && WellTyped(d)
  {
    match d
    case Unparsable => Failure(JsonSyntax)
    case Object(id, token, status, description, orgID, userID, permissions, createdAt, updatedAt) =>
      if into.None? then Failure(JsonNilTarget)
      else if !WellTyped(d) then Failure(JsonValue)
      else
        var t := into.value;
        Success(Authorization(
          Pick(id, t.id),
          if token.Present? then token.value.value else t.token,
          Pick(status, t.status),
          Pick(description, t.description),
          Pick(orgID, t.orgID),
          Pick(userID, t.userID),
          Pick(permissions, t.permissions),
          Pick(createdAt, t.createdAt),
          Pick(updatedAt, t.updatedAt)))
  }

  /** Decoding into a nil target fails whatever the stored value is. */
  lemma UnmarshalNilTargetFails(d: Doc)
    ensures Unmarshal(d, None).Failure?
  {
  }

  /**
   * Decoding what Marshal wrote gives the record back, into any target whose userID
   * cannot show through the field Marshal leaves out.
   */
  lemma UnmarshalMarshal(a: Authorization, into: Authorization)
    requires Encodable(a)
    requires a.userID != 0 || into.userID == 0
    ensures Unmarshal(Marshal(a).value, Some(into)) == Success(a)
  {
  }

  datatype IdKey = IdKey | OrgIDKey | UserIDKey

  function IdField(d: Doc, k: IdKey): Field<ID>
    requires d.Object?
  {
    match k
    case IdKey => d.id
    case OrgIDKey => d.orgID
    case UserIDKey => d.userID
  }

  /** jsonp.GetID: the field must be present and hold the text of a valid ID. */
  function GetID(d: Doc, k: IdKey): (r: Result<ID, Error>)
    ensures r.Success? <==> d.Object? && IdField(d, k).Present? && Ids.Valid(IdField(d, k).value)
    ensures r.Success? ==> r.value == IdField(d, k).value
  {
    if d.Unparsable? then Failure(JsonSyntax)
    else match IdField(d, k)
      case Absent => Failure(JsonPathNotFound)
      case Mistyped(_) => Failure(JsonValue)
      case Present(n) => if Ids.Valid(n) then Success(n) else Failure(IDFailure(Ids.InvalidID))
  }

  datatype OptionalID = OptionalID(got: ID, present: bool, err: Option<Error>)

  /** jsonp.GetOptionalID: an absent field is no error, it just does not exist. */
  function GetOptionalID(d: Doc, k: IdKey): (r: OptionalID)
    ensures r.present <==> d.Object? && IdField(d, k).Present? && Ids.Valid(IdField(d, k).value)
    ensures r.present ==> r.err.None? && r.got == IdField(d, k).value
    ensures r.err.None? && !r.present <==> d.Object? && IdField(d, k).Absent?
  {
    if d.Unparsable? then OptionalID(0, false, Some(JsonSyntax))
    else match IdField(d, k)
      case Absent => OptionalID(0, false, None)
      case Mistyped(_) => OptionalID(0, false, Some(JsonValue))
      case Present(n) =>
        if Ids.Valid(n) then OptionalID(n, true, None)
        else OptionalID(0, false, Some(IDFailure(Ids.InvalidID)))
  }

  /**
   * jsonparser.Get of the token: the raw text of the value, of whatever JSON type,
   * without unescaping.
   */
  function GetRawToken(d: Doc): (r: Result<string, Error>)
    ensures r.Success? <==> d.Object? && !d.token.Absent?
    ensures d.Object? && d.token.Present? ==> r == Success(d.token.value.raw)
    ensures d.Object? && d.token.Mistyped? ==> r == Success(d.token.raw)
  {
    if d.Unparsable? then Failure(JsonSyntax)
    else match d.token
      case Absent => Failure(JsonPathNotFound)
      case Mistyped(raw) => Success(raw)
      case Present(t) => Success(t.raw)
  }
}
