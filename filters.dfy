/**
 * The two filters built from one AuthorizationFilter.
 *
 * The hint predicate reads single fields from the stored JSON without decoding it, so that
 * the cursor can skip entries cheaply; whenever a field cannot be read it lets the entry
 * through. The selector is applied to every decoded record and alone decides what is
 * returned. Both pick one clause by the same precedence: ID, then token, then organization
 * and user, then organization, then user, then everything.
 */
module Filters {
  import opened Wrappers
  import opened Auth
  import opened Json
  import Ids
  import Kv
  import Codec

  datatype HintPredicate =
    | IdHint(exp: ID)
    | TokenHint(token: string)
    | OrgHint(exp: ID)
    | UserHint(prev: Option<HintPredicate>, exp: ID)

  /** authorizationsPredicateFn: `None` is the nil predicate, for a filter with no field set. */
  function AuthorizationsPredicate(f: AuthorizationFilter): (r: Option<HintPredicate>)
    ensures r.None? <==> f.id.None? && f.token.None? && f.orgID.None? && f.userID.None?
  {
    if f.id.Some? then Some(IdHint(f.id.value))
    else if f.token.Some? then Some(TokenHint(f.token.value))
    else
      var pred := if f.orgID.Some? then Some(OrgHint(f.orgID.value)) else None;
      if f.userID.Some? then Some(UserHint(pred, f.userID.value)) else pred
  }

  /**
   * The predicate's verdict on a stored value; the cursor key plays no part. A field the
   * hint cannot read lets the value through; the user check is ANDed onto the verdict of
   * the organization check it wraps, if any.
   */
  function HintAccepts(h: HintPredicate, value: Doc): (r: bool)
    ensures value.Unparsable? ==> r
    ensures h.IdHint? && GetID(value, IdKey).Failure? ==> r
    ensures h.TokenHint? && GetRawToken(value).Failure? ==> r
    ensures h.OrgHint? && GetID(value, OrgIDKey).Failure? ==> r
    ensures h.UserHint? && GetOptionalID(value, UserIDKey).err.Some? ==>
      (r <==> h.prev.None? || HintAccepts(h.prev.value, value))
  {
    match h
    case IdHint(exp) =>
      var got := GetID(value, IdKey);
      got.Failure? || got.value == exp
    case TokenHint(exp) =>
      var got := GetRawToken(value);
      got.Failure? || got.value == exp
    case OrgHint(exp) =>
      var got := GetID(value, OrgIDKey);
      got.Failure? || got.value == exp
    case UserHint(prevFn, exp) =>
      var prev := prevFn.None? || HintAccepts(prevFn.value, value);
      var o := GetOptionalID(value, UserIDKey);
      prev && ((exp == o.got && o.present) || o.err.Some?)
  }

  /** The predicate as the cursor receives it. */
  function AsCursorHint(h: HintPredicate): Kv.Hint
  {
    (key: Ids.Bytes, value: Doc) => HintAccepts(h, value)
  }

  datatype Selector =
    | ById(id: ID)
    | ByToken(token: string)
    | ByOrgAndUser(org: ID, user: ID)
    | ByOrg(org: ID)
    | ByUser(user: ID)
    | Everything

  /** filterAuthorizationsFn */
  function FilterAuthorizations(f: AuthorizationFilter): (r: Selector)
    ensures r.Everything? <==> AuthorizationsPredicate(f).None?
  {
    if f.id.Some? then ById(f.id.value)
    else if f.token.Some? then ByToken(f.token.value)
    else if f.orgID.Some? && f.userID.Some? then ByOrgAndUser(f.orgID.value, f.userID.value)
    else if f.orgID.Some? then ByOrg(f.orgID.value)
    else if f.userID.Some? then ByUser(f.userID.value)
    else Everything
  }

  predicate Selects(s: Selector, a: Authorization)
  {
    match s
    case ById(id) => a.id == id
    case ByToken(t) => a.token == t
    case ByOrgAndUser(o, u) => a.orgID == o && a.userID == u
    case ByOrg(o) => a.orgID == o
    case ByUser(u) => a.userID == u
    case Everything => true
  }

  /**
   * What the filter keeps: the ID alone when it is set, else the token alone, else every
   * record matching each of organization and user that is set.
   */
  lemma FilterPrecedence(f: AuthorizationFilter, a: Authorization)
    ensures Selects(FilterAuthorizations(f), a) ==
      if f.id.Some? then a.id == f.id.value
      else if f.token.Some? then a.token == f.token.value
      else (f.orgID.None? || a.orgID == f.orgID.value) && (f.userID.None? || a.userID == f.userID.value)
  {
  }

  /** Once a field of higher precedence is set, the fields after it change neither filter. */
  lemma LaterFieldsIgnored(f: AuthorizationFilter, g: AuthorizationFilter)
    requires f.id == g.id
    requires f.id.None? ==> f.token == g.token && f.token.Some?
    ensures FilterAuthorizations(f) == FilterAuthorizations(g)
    ensures AuthorizationsPredicate(f) == AuthorizationsPredicate(g)
  {
  }

  /**
   * The hint never rejects a value that decodes to a record the filter keeps, provided the
   * token, if stored, was written without escapes, the decode target has no user, and the
   * filter's user, if set, is a valid ID.
   */
  lemma HintOverApproximates(f: AuthorizationFilter, d: Doc, into: Authorization)
    requires Unmarshal(d, Some(into)).Success?
    requires d.token.Present? ==> d.token.value.raw == d.token.value.value
    requires into.userID == 0
    requires f.userID.Some? ==> Ids.Valid(f.userID.value)
    requires Selects(FilterAuthorizations(f), Codec.DecodeAuthorization(d, Some(into)).value)
    ensures AuthorizationsPredicate(f).None? || HintAccepts(AuthorizationsPredicate(f).value, d)
  {
    var a := Codec.DecodeAuthorization(d, Some(into)).value;
    if f.id.None? && f.token.None? && f.userID.Some? {
      var o := GetOptionalID(d, UserIDKey);
      assert o.present || o.err.Some? || a.userID == 0;
    }
  }

  /**
   * The case the hint was written for: no record that encodeAuthorization wrote, with an
   * unescaped token, is skipped when the filter keeps it once decoded.
   */
  lemma HintKeepsWrittenRecords(f: AuthorizationFilter, a: Authorization, into: Authorization)
    requires Encodable(a) && NoEscapes(a.token)
    requires into.userID == 0
    requires f.userID.Some? ==> Ids.Valid(f.userID.value)
    requires Selects(FilterAuthorizations(f), Codec.DecodeAuthorization(Marshal(a).value, Some(into)).value)
    ensures AuthorizationsPredicate(f).None? || HintAccepts(AuthorizationsPredicate(f).value, Marshal(a).value)
  {
    EscapeIdentity(a.token);
    HintOverApproximates(f, Marshal(a).value, into);
  }

  /**
   * Without the valid-user condition the hint can miss: a record without a user is kept by
   * a filter on user 0 but rejected by its hint, because an absent userID never matches.
   */
  lemma HintMissesAbsentUser()
    ensures var a := Empty.(id := 1, orgID := 1, status := Active);
      var f := AuthorizationFilter(None, None, None, Some(0));
      && Selects(FilterAuthorizations(f), Codec.DecodeAuthorization(Marshal(a).value, Some(Empty)).value)
      && !HintAccepts(AuthorizationsPredicate(f).value, Marshal(a).value)
  {
  }

  /**
   * Without the unescaped-token condition the hint can miss: the raw text it compares is
   * the escaped form of the token.
   */
  lemma HintMissesEscapedToken()
    ensures var a := Empty.(id := 1, orgID := 1, token := "a<b", status := Active);
      var f := AuthorizationFilter(None, Some("a<b"), None, None);
      && Selects(FilterAuthorizations(f), Codec.DecodeAuthorization(Marshal(a).value, Some(Empty)).value)
      && !HintAccepts(AuthorizationsPredicate(f).value, Marshal(a).value)
  {
    assert !NeedsEscape("a<b"[1]) ==> false;
    EscapeIdentity("a<b");
  }
}
