/**
 * The authorization store: create, look up, list, update and delete authorizations in
 * the primary bucket (encoded ID -> JSON record) and the index bucket (token -> encoded ID),
 * inside one transaction.
 */
module Storage {
  import opened Wrappers
  import opened Auth
  import opened Json
  import opened Codec
  import opened Filters
  import opened Kv
  import Ids

  // ---------------------------------------------------------------- buckets

  /** authIndexBucket: opening the index bucket, its failure wrapped. */
  function AuthIndexBucketError(tx: Tx): (r: Option<Error>)
    ensures r.None? <==> tx.Bucket(AuthIndexBucket).None?
    ensures r.Some? ==> r.value == UnexpectedAuthIndex(StorageFault(OpBucket, AuthIndexBucket))
  {
    match tx.Bucket(AuthIndexBucket)
    case None => None
    case Some(e) => Some(UnexpectedAuthIndex(e))
  }

  /**
   * initializeAuths: both buckets must open; the primary bucket's failure is reported as
   * the engine gave it, the index bucket's wrapped, and the primary bucket is tried first.
   */
  function InitializeAuths(tx: Tx): (r: Option<Error>)
    ensures r.None? <==> (OpBucket, AuthBucket) !in tx.faults.failing && (OpBucket, AuthIndexBucket) !in tx.faults.failing
    ensures (OpBucket, AuthBucket) in tx.faults.failing ==> r == Some(StorageFault(OpBucket, AuthBucket))
    ensures ((OpBucket, AuthBucket) !in tx.faults.failing && (OpBucket, AuthIndexBucket) in tx.faults.failing)
              ==> r == Some(UnexpectedAuthIndex(StorageFault(OpBucket, AuthIndexBucket)))
  {
    if tx.Bucket(AuthBucket).Some? then tx.Bucket(AuthBucket)
    else AuthIndexBucketError(tx)
  }

  // ---------------------------------------------------------------- uniqueness

  /**
   * unique: a token is unique exactly when the index lookup reports it missing. A lookup that
   * finds it is NotUnique; any other failure, including failing to open the index bucket, is
   * wrapped as an unexpected index error.
   */
  function Unique(tx: Tx, token: string): (r: Option<Error>)
    reads tx
    ensures r.None? <==> tx.Bucket(AuthIndexBucket).None? && tx.GetIndex(token).Failure? && IsNotFound(tx.GetIndex(token).error)
    ensures tx.Bucket(AuthIndexBucket).None? && tx.GetIndex(token).Success? ==> r == Some(NotUnique)
    ensures r.Some? && r != Some(NotUnique) ==> r.value.UnexpectedIndex?
    ensures tx.Bucket(AuthIndexBucket).Some? ==> r == Some(UnexpectedIndex(tx.Bucket(AuthIndexBucket).value))
  {
    match tx.Bucket(AuthIndexBucket)
    case Some(e) => Some(UnexpectedIndex(e))
    case None =>
      match tx.GetIndex(token)
      case Failure(e) => if IsNotFound(e) then None else Some(UnexpectedIndex(e))
      case Success(_) => Some(NotUnique)
  }

  /**
   * uniqueAuthToken: a duplicate token is reported only as the generic "unable to create
   * token" error, so that a caller cannot probe which tokens exist; every other outcome of
   * unique passes through.
   */
  function UniqueAuthToken(tx: Tx, a: Authorization): (r: Option<Error>)
    reads tx
    ensures Unique(tx, a.token) == Some(NotUnique) <==> r == Some(UnableToCreateToken)
    ensures Unique(tx, a.token) != Some(NotUnique) ==> r == Unique(tx, a.token)
    ensures r != Some(NotUnique)
  {
    var err := Unique(tx, a.token);
    if err == Some(NotUnique) then Some(UnableToCreateToken) else err
  }

  /** With a healthy index, the generic error means exactly that the token is already indexed. */
  lemma UniqueAuthTokenHidesDuplicates(tx: Tx, a: Authorization)
    requires (OpBucket, AuthIndexBucket) !in tx.faults.failing && (OpGet, AuthIndexBucket) !in tx.faults.failing
    ensures UniqueAuthToken(tx, a) == (if a.token in tx.authIndex then Some(UnableToCreateToken) else None)
  {
  }

  // ---------------------------------------------------------------- consistency of the buckets

  /** The record a stored value holds, as a lookup by ID decodes it. */
  function Stored(d: Doc): Result<Authorization, Error>
  {
    DecodeAuthorization(d, Some(Empty))
  }

  /** The value at `k` decodes, belongs under `k`, and its token is indexed back to `k`. */
  ghost predicate RecordAt(auths: map<Ids.Bytes, Doc>, index: map<string, Ids.Bytes>, k: Ids.Bytes)
    requires k in auths
  {
    var r := Stored(auths[k]);
    && r.Success?
    && Ids.Encode(r.value.id) == Success(k)
    && r.value.token in index && index[r.value.token] == k
  }

  /** The index entry for `t` leads to a stored record whose token is `t`. */
  ghost predicate IndexedAt(auths: map<Ids.Bytes, Doc>, index: map<string, Ids.Bytes>, t: string)
    requires t in index
  {
    index[t] in auths && Stored(auths[index[t]]).Success? && Stored(auths[index[t]]).value.token == t
  }

  /** The two buckets describe each other: every record is indexed by its token, and back. */
  ghost predicate Consistent(auths: map<Ids.Bytes, Doc>, index: map<string, Ids.Bytes>)
  {
    && (forall k | k in auths :: RecordAt(auths, index, k))
    && (forall t | t in index :: IndexedAt(auths, index, t))
  }

  /** In consistent buckets no two records share a token. */
  lemma ConsistentTokensUnique(auths: map<Ids.Bytes, Doc>, index: map<string, Ids.Bytes>, k1: Ids.Bytes, k2: Ids.Bytes)
    requires Consistent(auths, index)
    requires k1 in auths && k2 in auths && k1 != k2
    ensures Stored(auths[k1]).value.token != Stored(auths[k2]).value.token
  {
    assert RecordAt(auths, index, k1) && RecordAt(auths, index, k2);
  }

  /** Adding a record under a fresh key and a fresh token keeps the buckets consistent. */
  lemma InsertKeepsConsistent(auths: map<Ids.Bytes, Doc>, index: map<string, Ids.Bytes>, k: Ids.Bytes, d: Doc)
    requires Consistent(auths, index)
    requires k !in auths
    requires Stored(d).Success? && Ids.Encode(Stored(d).value.id) == Success(k)
    requires Stored(d).value.token !in index
    ensures Consistent(auths[k := d], index[Stored(d).value.token := k])
  {
    var t := Stored(d).value.token;
    var auths', index' := auths[k := d], index[t := k];
    forall k' | k' in auths' ensures RecordAt(auths', index', k') {
      if k' != k {
        assert RecordAt(auths, index, k');
      }
    }
    forall t' | t' in index' ensures IndexedAt(auths', index', t') {
      if t' != t {
        assert IndexedAt(auths, index, t');
      }
    }
  }

  /** Removing a record and its own index entry keeps the buckets consistent. */
  lemma RemoveKeepsConsistent(auths: map<Ids.Bytes, Doc>, index: map<string, Ids.Bytes>, k: Ids.Bytes)
    requires Consistent(auths, index)
    requires k in auths
    ensures Consistent(auths - {k}, index - {Stored(auths[k]).value.token})
  {
    assert RecordAt(auths, index, k);
    var t := Stored(auths[k]).value.token;
    var auths', index' := auths - {k}, index - {t};
    forall k' | k' in auths' ensures RecordAt(auths', index', k') {
      assert RecordAt(auths, index, k');
    }
    forall t' | t' in index' ensures IndexedAt(auths', index', t') {
      assert IndexedAt(auths, index, t');
    }
  }

  /**
   * Rewriting a record in place, with the same ID and token, and rewriting its index
   * entry to the same key keeps the buckets consistent.
   */
  lemma RewriteKeepsConsistent(auths: map<Ids.Bytes, Doc>, index: map<string, Ids.Bytes>, k: Ids.Bytes, d: Doc)
    requires Consistent(auths, index)
    requires k in auths
    requires Stored(d).Success? && Ids.Encode(Stored(d).value.id) == Success(k)
    requires Stored(d).value.token == Stored(auths[k]).value.token
    ensures Consistent(auths[k := d], index[Stored(d).value.token := k])
  {
    assert RecordAt(auths, index, k);
    var t := Stored(d).value.token;
    assert index[t] == k;
    assert index[t := k] == index;
    var auths' := auths[k := d];
    forall k' | k' in auths' ensures RecordAt(auths', index, k') {
      if k' != k {
        assert RecordAt(auths, index, k');
      }
    }
    forall t' | t' in index ensures IndexedAt(auths', index, t') {
      assert IndexedAt(auths, index, t');
      if index[t'] == k {
        assert t' == t;
      }
    }
  }

  // ---------------------------------------------------------------- lookups

  /**
   * The body of GetAuthorizationByID with its decode target made explicit: `None` is the
   * nil pointer the source names as its result, `Some(r)` a record allocated beforehand.
   */
  function LookupByID(tx: Tx, id: ID, into: Option<Authorization>): (r: Result<Authorization, Error>)
    reads tx
    ensures !Ids.Valid(id) ==> r == Failure(InvalidAuthID)
    ensures Ids.Valid(id) && tx.Bucket(AuthBucket).Some? ==> r == Failure(InternalService(tx.Bucket(AuthBucket).value))
    ensures Ids.Valid(id) && tx.Bucket(AuthBucket).None? ==>
      var got := tx.GetAuth(Ids.Encode(id).value);
      r == if got.Failure? && IsNotFound(got.error) then Failure(AuthNotFound)
           else if got.Failure? then Failure(InternalService(got.error))
           else if DecodeAuthorization(got.value, into).Failure?
             then Failure(Wrapped(Some(EInvalid), DecodeAuthorization(got.value, into).error))
           else DecodeAuthorization(got.value, into)
  {
    match Ids.Encode(id)
    case Failure(_) => Failure(InvalidAuthID)
    case Success(encodedID) =>
      match tx.Bucket(AuthBucket)
      case Some(e) => Failure(InternalService(e))
      case None =>
        match tx.GetAuth(encodedID)
        case Failure(e) => if IsNotFound(e) then Failure(AuthNotFound) else Failure(InternalService(e))
        case Success(v) =>
          match DecodeAuthorization(v, into)
          case Failure(e) => Failure(Wrapped(Some(EInvalid), e))
          case Success(a) => Success(a)
  }

  /** GetAuthorizationByID as written: the record is decoded into the nil named result. */
  function GetAuthorizationByIDAsWritten(tx: Tx, id: ID): (r: Result<Authorization, Error>)
    reads tx
    ensures r.Failure?
  {
    LookupByID(tx, id, None)
  }

  /**
   * As written, the lookup of a record that is present and well formed still fails, with
   * the invalid-encoding error that wraps json's refusal of a nil target.
   */
  lemma LookupByIDAsWrittenRejectsStoredRecords(tx: Tx, id: ID)
    requires Ids.Valid(id) && tx.faults.failing == {}
    requires Ids.Encode(id).value in tx.auths && tx.auths[Ids.Encode(id).value].Object?
    ensures GetAuthorizationByIDAsWritten(tx, id) == Failure(Wrapped(Some(EInvalid), JsonNilTarget))
  {
  }

  /** GetAuthorizationByID, decoding into a freshly allocated record. */
  function GetAuthorizationByID(tx: Tx, id: ID): (r: Result<Authorization, Error>)
    reads tx
    ensures !Ids.Valid(id) ==> r == Failure(InvalidAuthID)
    ensures Ids.Valid(id) && tx.faults.failing == {} ==>
      var k := Ids.Encode(id).value;
      && (k !in tx.auths ==> r == Failure(AuthNotFound))
      && (k in tx.auths && Stored(tx.auths[k]).Failure? ==> r == Failure(Wrapped(Some(EInvalid), Stored(tx.auths[k]).error)))
      && (k in tx.auths && Stored(tx.auths[k]).Success? ==> r == Stored(tx.auths[k]))
    ensures r.Success? ==> r.value.status != ""
  {
    LookupByID(tx, id, Some(Empty))
  }

  /** Lookup by ID returns the stored record, and in consistent buckets it is the record with that ID. */
  lemma GetByIDReturnsStoredRecord(tx: Tx, id: ID)
    requires tx.faults.failing == {} && Consistent(tx.auths, tx.authIndex)
    requires Ids.Valid(id) && Ids.Encode(id).value in tx.auths
    ensures GetAuthorizationByID(tx, id).Success?
    ensures GetAuthorizationByID(tx, id).value.id == id
  {
    var k := Ids.Encode(id).value;
    assert RecordAt(tx.auths, tx.authIndex, k);
    Ids.EncodeInjective(Stored(tx.auths[k]).value.id, id);
  }

  /**
   * GetAuthorizationByToken: a missing index entry is "authorization not found"; any other
   * failure of the index lookup is not checked, so the ID is decoded from the empty value
   * the lookup gave back and the call goes on to lookup by ID, here GetAuthorizationByID,
   * which decodes into a fresh record.
   */
  function GetAuthorizationByToken(tx: Tx, token: string): (r: Result<Authorization, Error>)
    reads tx
    ensures tx.Bucket(AuthIndexBucket).Some? ==> r == Failure(UnexpectedAuthIndex(tx.Bucket(AuthIndexBucket).value))
    ensures (tx.Bucket(AuthIndexBucket).None? && tx.GetIndex(token) == Failure(KeyNotFound))
              ==> r == Failure(Coded(ENotFound, "authorization not found"))
    ensures tx.Bucket(AuthIndexBucket).None? && tx.GetIndex(token).Success? ==>
      r == match Ids.Decode(tx.GetIndex(token).value)
           case Failure(e) => Failure(Wrapped(Some(EInvalid), IDFailure(e)))
           case Success(id) => GetAuthorizationByID(tx, id)
  {
    match AuthIndexBucketError(tx)
    case Some(e) => Failure(e)
    case None =>
      var got := tx.GetIndex(token);
      if got.Failure? && IsNotFound(got.error) then Failure(Coded(ENotFound, "authorization not found"))
      else
        var idKey := if got.Success? then got.value else [];
        match Ids.Decode(idKey)
        case Failure(e) => Failure(Wrapped(Some(EInvalid), IDFailure(e)))
        case Success(id) => GetAuthorizationByID(tx, id)
  }

  /** A failing index lookup surfaces as an invalid ID of the wrong length, not as a storage error. */
  lemma GetByTokenIgnoresIndexFault(tx: Tx, token: string)
    requires (OpBucket, AuthIndexBucket) !in tx.faults.failing && (OpGet, AuthIndexBucket) in tx.faults.failing
    ensures GetAuthorizationByToken(tx, token) == Failure(Wrapped(Some(EInvalid), IDFailure(Ids.InvalidIDLength)))
  {
  }

  /** In consistent buckets, lookup by token finds exactly the record that carries the token. */
  lemma GetByTokenFindsIndexedRecord(tx: Tx, token: string)
    requires tx.faults.failing == {} && Consistent(tx.auths, tx.authIndex)
    ensures token !in tx.authIndex ==> GetAuthorizationByToken(tx, token) == Failure(Coded(ENotFound, "authorization not found"))
    ensures token in tx.authIndex ==>
      && GetAuthorizationByToken(tx, token).Success?
      && GetAuthorizationByToken(tx, token).value.token == token
      && GetAuthorizationByToken(tx, token) == Stored(tx.auths[tx.authIndex[token]])
  {
    if token in tx.authIndex {
      var k := tx.authIndex[token];
      assert IndexedAt(tx.auths, tx.authIndex, token);
      assert RecordAt(tx.auths, tx.authIndex, k);
      var id := Stored(tx.auths[k]).value.id;
      Ids.DecodeEncode(id);
    }
  }

  // ---------------------------------------------------------------- iteration and listing

  /** The record forEachAuthorization decodes into: empty, with 64 permissions preallocated. */
  const ListTarget: Authorization := Authorization(0, "", "", "", 0, 0, Blank(64), 0, 0)

  /** `n` zero-valued permissions. */
  function Blank(n: nat): (r: seq<Permission>)
    ensures |r| == n
  {
    if n == 0 then [] else [NoPermission] + Blank(n - 1)
  }

  function CursorHint(pred: Option<HintPredicate>): Option<Kv.Hint>
  {
    if pred.Some? then Some(AsCursorHint(pred.value)) else None
  }

  /** Decoding every visited entry, stopping at the first failure. */
  function DecodeAll(es: seq<Entry>): (r: Result<seq<Authorization>, Error>)
    ensures r.Success? ==> |r.value| == |es|
    ensures r.Success? ==> forall i | 0 <= i < |es| :: DecodeAuthorization(es[i].value, Some(ListTarget)) == Success(r.value[i])
    ensures r.Failure? ==> exists i :: 0 <= i < |es| && DecodeAuthorization(es[i].value, Some(ListTarget)) == Failure(r.error)
  {
    if es == [] then Success([])
    else match DecodeAuthorization(es[0].value, Some(ListTarget))
      case Failure(e) => Failure(e)
      case Success(a) =>
        match DecodeAll(es[1..])
        case Failure(e) => Failure(e)
        case Success(rest) => Success([a] + rest)
  }

  /** The outcome of a walk: the records handed to the callback and the error it ended with. */
  datatype Walked = Walked(visited: seq<Authorization>, err: Option<Error>)

  /**
   * What forEachAuthorization does with the entries the cursor visits: decode each one, hand
   * it to `fn`, stop after the first record `fn` refuses, and abort at the first decode error.
   */
  function Walk(es: seq<Entry>, fn: Authorization -> bool): (r: Walked)
    ensures |r.visited| <= |es|
    ensures r.err.Some? ==> |r.visited| < |es|
  {
    if es == [] then Walked([], None)
    else match DecodeAuthorization(es[0].value, Some(ListTarget))
      case Failure(e) => Walked([], Some(e))
      case Success(a) =>
        if !fn(a) then Walked([a], None)
        else var rest := Walk(es[1..], fn); Walked([a] + rest.visited, rest.err)
  }

  /**
   * A walk hands over the decoded entries in cursor order; every record but the last was
   * accepted; an error is the decode error of the entry after the last one handed over; and
   * a walk without error either saw every entry or stopped at a refused record.
   */
  lemma {:induction false} WalkProperties(es: seq<Entry>, fn: Authorization -> bool)
    ensures var r := Walk(es, fn);
      && (forall j | 0 <= j < |r.visited| :: DecodeAuthorization(es[j].value, Some(ListTarget)) == Success(r.visited[j]))
      && (forall j | 0 <= j < |r.visited| - 1 :: fn(r.visited[j]))
      && (r.err.Some? ==>
            && |r.visited| < |es|
            && DecodeAuthorization(es[|r.visited|].value, Some(ListTarget)) == Failure(r.err.value)
            && forall j | 0 <= j < |r.visited| :: fn(r.visited[j]))
      && (r.err.None? ==>
            || (|r.visited| == |es| && forall j | 0 <= j < |r.visited| :: fn(r.visited[j]))
            || (0 < |r.visited| && !fn(r.visited[|r.visited| - 1])))
  {
    if es != [] && DecodeAuthorization(es[0].value, Some(ListTarget)).Success? {
      var a := DecodeAuthorization(es[0].value, Some(ListTarget)).value;
      if fn(a) {
        WalkProperties(es[1..], fn);
        var rest := Walk(es[1..], fn);
        assert Walk(es, fn).visited == [a] + rest.visited;
        forall j | 0 <= j < |rest.visited| + 1
          ensures j > 0 ==> DecodeAuthorization(es[j].value, Some(ListTarget)) == Success(([a] + rest.visited)[j])
        {
          if j > 0 {
            assert es[j] == es[1..][j - 1];
          }
        }
        if rest.err.Some? {
          assert es[1 + |rest.visited|] == es[1..][|rest.visited|];
        }
      }
    }
  }

  /** A walk whose callback accepts everything decodes every entry, or ends with DecodeAll's error. */
  lemma {:induction false} WalkAcceptingAll(es: seq<Entry>, fn: Authorization -> bool)
    requires forall a :: fn(a)
    ensures DecodeAll(es).Success? ==> Walk(es, fn) == Walked(DecodeAll(es).value, None)
    ensures DecodeAll(es).Failure? ==> Walk(es, fn).err == Some(DecodeAll(es).error)
  {
    if es != [] {
      WalkAcceptingAll(es[1..], fn);
    }
  }

  /** forEachAuthorization. */
  method ForEachAuthorization(tx: Tx, pred: Option<HintPredicate>, fn: Authorization -> bool)
    returns (visited: seq<Authorization>, err: Option<Error>)
    ensures tx.Bucket(AuthBucket).Some? ==> visited == [] && err == tx.Bucket(AuthBucket)
    ensures tx.Bucket(AuthBucket).None? && tx.Cursor(CursorHint(pred)).Failure? ==>
      visited == [] && err == Some(tx.Cursor(CursorHint(pred)).error)
    ensures tx.Bucket(AuthBucket).None? && tx.Cursor(CursorHint(pred)).Success? ==>
      Walked(visited, err) == Walk(tx.Cursor(CursorHint(pred)).value, fn)
  {
    var b := tx.Bucket(AuthBucket);
    if b.Some? {
      return [], b;
    }
    var cur := tx.Cursor(CursorHint(pred));
    if cur.Failure? {
      return [], Some(cur.error);
    }
    visited, err := Visit(cur.value, fn);
  }

  /** The loop of forEachAuthorization over the entries the cursor visits. */
  method Visit(es: seq<Entry>, fn: Authorization -> bool) returns (visited: seq<Authorization>, err: Option<Error>)
    ensures Walked(visited, err) == Walk(es, fn)
  {
    visited := [];
    var i := 0;
    while i < |es|
      invariant 0 <= i <= |es|
      invariant Walk(es, fn) == Walked(visited + Walk(es[i..], fn).visited, Walk(es[i..], fn).err)
    {
      var a := DecodeAuthorization(es[i].value, Some(ListTarget));
      assert es[i..][0] == es[i] && es[i..][1..] == es[i + 1..];
      if a.Failure? {
        return visited, Some(a.error);
      }
      visited := visited + [a.value];
      if !fn(a.value) {
        break;
      }
      i := i + 1;
    }
    return visited, None;
  }

  /** The records a selector keeps, in their original order. */
  function SelectAll(s: Selector, recs: seq<Authorization>): (r: seq<Authorization>)
    ensures forall a | a in r :: a in recs && Selects(s, a)
    ensures forall a | a in recs && Selects(s, a) :: a in r
    ensures multiset(r) <= multiset(recs) && |r| <= |recs|
    ensures |recs| == 1 ==> r == if Selects(s, recs[0]) then recs else []
  {
    if recs == [] then []
    else
      assert recs == [recs[0]] + recs[1..];
      if Selects(s, recs[0]) then [recs[0]] + SelectAll(s, recs[1..])
      else SelectAll(s, recs[1..])
  }

  /**
   * The selection keeps order: it distributes over concatenation, so together with its
   * verdict on a single record it is the order-preserving filter of the records.
   */
  lemma {:induction false} SelectAllAppend(s: Selector, xs: seq<Authorization>, ys: seq<Authorization>)
    ensures SelectAll(s, xs + ys) == SelectAll(s, xs) + SelectAll(s, ys)
  {
    if xs == [] {
      assert xs + ys == ys;
    } else {
      var zs := xs + ys;
      assert zs[0] == xs[0];
      assert zs[1..] == xs[1..] + ys;
      SelectAllAppend(s, xs[1..], ys);
      if Selects(s, xs[0]) {
        assert SelectAll(s, zs) == [xs[0]] + SelectAll(s, zs[1..]);
        assert SelectAll(s, xs) == [xs[0]] + SelectAll(s, xs[1..]);
      } else {
        assert SelectAll(s, zs) == SelectAll(s, zs[1..]);
        assert SelectAll(s, xs) == SelectAll(s, xs[1..]);
      }
    }
  }

  /** What ListAuthorizations returns for the entries its cursor visits. */
  function Listing(es: seq<Entry>, f: AuthorizationFilter): (r: Result<seq<Authorization>, Error>)
    ensures r.Failure? <==> DecodeAll(es).Failure?
    ensures r.Success? ==> |r.value| <= |es| && forall a | a in r.value :: Selects(FilterAuthorizations(f), a)
  {
    match DecodeAll(es)
    case Failure(e) => Failure(e)
    case Success(recs) => Success(SelectAll(FilterAuthorizations(f), recs))
  }

  /**
   * ListAuthorizations: walks the primary bucket with the hint, keeps the decoded records the
   * filter selects, in cursor order, and fails with the first decode error.
   */
  method ListAuthorizations(tx: Tx, f: AuthorizationFilter) returns (r: Result<seq<Authorization>, Error>)
    ensures tx.Bucket(AuthBucket).Some? ==> r == Failure(tx.Bucket(AuthBucket).value)
    ensures tx.Bucket(AuthBucket).None? ==>
      var cur := tx.Cursor(CursorHint(AuthorizationsPredicate(f)));
      r == if cur.Failure? then Failure(cur.error) else Listing(cur.value, f)
  {
    var b := tx.Bucket(AuthBucket);
    if b.Some? {
      return Failure(b.value);
    }
    var pred := AuthorizationsPredicate(f);
    var visited, err := ForEachAuthorization(tx, pred, (a: Authorization) => true);
    var cur := tx.Cursor(CursorHint(pred));
    if cur.Success? {
      WalkAcceptingAll(cur.value, (a: Authorization) => true);
    }
    if err.Some? {
      return Failure(err.value);
    }
    r := Success(SelectAll(FilterAuthorizations(f), visited));
  }

  /** A stored value the hint reads as decoding does: an object whose token is written unescaped. */
  predicate WellFormed(d: Doc)
  {
    d.Object? && WellTyped(d) && (d.token.Present? ==> d.token.value.raw == d.token.value.value)
  }

  /**
   * The hint never changes what is listed: over well-formed values, listing the entries the
   * hint lets through gives the same records as listing every entry, for any filter whose
   * user, if set, is a valid ID. So an engine may honour the hint or ignore it.
   */
  lemma {:induction false} ListingIgnoresHint(es: seq<Entry>, f: AuthorizationFilter)
    requires AuthorizationsPredicate(f).Some?
    requires forall i | 0 <= i < |es| :: WellFormed(es[i].value)
    requires f.userID.Some? ==> Ids.Valid(f.userID.value)
    ensures Listing(Keep(es, AsCursorHint(AuthorizationsPredicate(f).value)), f) == Listing(es, f)
  {
    if es != [] {
      var h := AsCursorHint(AuthorizationsPredicate(f).value);
      var d := es[0].value;
      assert Unmarshal(d, Some(ListTarget)).Success?;
      assert DecodeAuthorization(d, Some(ListTarget)).Success?;
      ListingIgnoresHint(es[1..], f);
      if !h(es[0].key, d) {
        if Selects(FilterAuthorizations(f), DecodeAuthorization(d, Some(ListTarget)).value) {
          HintOverApproximates(f, d, ListTarget);
          assert false;
        }
      }
    }
  }

  // ---------------------------------------------------------------- writes

  /** The error a write ends with and the two buckets it leaves behind. */
  datatype Outcome = Outcome(err: Option<Error>, auths: map<Ids.Bytes, Doc>, index: map<string, Ids.Bytes>)

  /** No change to either bucket. */
  function Untouched(tx: Tx, err: Option<Error>): Outcome
    reads tx
  {
    Outcome(err, tx.auths, tx.authIndex)
  }

  /**
   * The part of CreateAuthorization after the ID is settled: encode the record, check the
   * index bucket and the token's uniqueness, open the primary bucket, then write the index
   * entry and the record, in that order.
   */
  function SaveOutcome(tx: Tx, a: Authorization): (r: Outcome)
    requires Ids.Valid(a.id)
    reads tx
    ensures r.err.None? ==> EncodeAuthorization(a).bytes.Success? && EncodeAuthorization(a).record.token !in tx.authIndex
    ensures r.auths != tx.auths ==> r.err.None?
  {
    var enc := EncodeAuthorization(a);
    if enc.bytes.Failure? then Untouched(tx, Some(Wrapped(Some(EInvalid), enc.bytes.error)))
    else
      var k := Ids.Encode(a.id).value;
      var t := enc.record.token;
      if AuthIndexBucketError(tx).Some? then Untouched(tx, AuthIndexBucketError(tx))
      else if UniqueAuthToken(tx, enc.record).Some? then Untouched(tx, UniqueAuthToken(tx, enc.record))
      else if tx.Bucket(AuthBucket).Some? then Untouched(tx, tx.Bucket(AuthBucket))
      else if tx.Fault(OpPut, AuthIndexBucket).Some? then Untouched(tx, Some(Wrapped(Some(EInternal), tx.Fault(OpPut, AuthIndexBucket).value)))
      else if tx.Fault(OpPut, AuthBucket).Some? then Outcome(Some(Wrapped(None, tx.Fault(OpPut, AuthBucket).value)), tx.auths, tx.authIndex[t := k])
      else Outcome(None, tx.auths[k := enc.bytes.value], tx.authIndex[t := k])
  }

  /** Saving a record under a fresh key into consistent buckets leaves them consistent when it succeeds. */
  lemma SaveKeepsConsistent(tx: Tx, a: Authorization)
    requires Ids.Valid(a.id) && Ids.Encode(a.id).value !in tx.auths
    requires Consistent(tx.auths, tx.authIndex)
    ensures SaveOutcome(tx, a).err.None? ==> Consistent(SaveOutcome(tx, a).auths, SaveOutcome(tx, a).index)
  {
    var enc := EncodeAuthorization(a);
    if SaveOutcome(tx, a).err.None? {
      var k := Ids.Encode(a.id).value;
      DecodeEncode(a);
      assert enc.record.token !in tx.authIndex;
      InsertKeepsConsistent(tx.auths, tx.authIndex, k, enc.bytes.value);
    }
  }

  /**
   * Nothing checks that a valid ID the caller supplies is free: saving a record with a new
   * token under an ID that is already stored overwrites that record, and the old record's
   * index entry is left pointing at a record that no longer carries its token.
   */
  lemma SaveOverwritesStoredID(tx: Tx, a: Authorization)
    requires Ids.Valid(a.id) && tx.faults.failing == {} && Consistent(tx.auths, tx.authIndex)
    requires EncodeAuthorization(a).bytes.Success? && EncodeAuthorization(a).record.token !in tx.authIndex
    requires Ids.Encode(a.id).value in tx.auths
    ensures SaveOutcome(tx, a).err.None?
    ensures !Consistent(SaveOutcome(tx, a).auths, SaveOutcome(tx, a).index)
  {
    var k := Ids.Encode(a.id).value;
    assert RecordAt(tx.auths, tx.authIndex, k);
    var t := Stored(tx.auths[k]).value.token;
    DecodeEncode(a);
    var o := SaveOutcome(tx, a);
    assert t in o.index && o.index[t] == k;
    assert !IndexedAt(o.auths, o.index, t);
  }

  /**
   * A save changes nothing unless it succeeds, except when only the write of the record
   * itself fails: the index entry written just before it stays behind.
   */
  lemma SaveIsAllOrNothingButLast(tx: Tx, a: Authorization)
    requires Ids.Valid(a.id)
    ensures var o := SaveOutcome(tx, a);
      && (o.err.Some? ==> o.auths == tx.auths)
      && (o.err.Some? && o.index != tx.authIndex ==> o.err == Some(Wrapped(None, StorageFault(OpPut, AuthBucket))))
      && (o.err == Some(Wrapped(None, StorageFault(OpPut, AuthBucket))) ==>
            o.index == tx.authIndex[EncodeAuthorization(a).record.token := Ids.Encode(a.id).value])
  {
  }

  /** With a healthy index, a token that is already indexed is refused with the generic error, and nothing is written. */
  lemma SaveRefusesDuplicateToken(tx: Tx, a: Authorization)
    requires Ids.Valid(a.id) && EncodeAuthorization(a).bytes.Success?
    requires (OpBucket, AuthIndexBucket) !in tx.faults.failing && (OpGet, AuthIndexBucket) !in tx.faults.failing
    requires EncodeAuthorization(a).record.token in tx.authIndex
    ensures SaveOutcome(tx, a) == Outcome(Some(UnableToCreateToken), tx.auths, tx.authIndex)
  {
  }

  /** After a successful save the record is stored under its encoded ID and its token leads there. */
  lemma SaveStoresRecord(tx: Tx, a: Authorization)
    requires Ids.Valid(a.id) && SaveOutcome(tx, a).err.None?
    ensures var o := SaveOutcome(tx, a);
      var k := Ids.Encode(a.id).value;
      && k in o.auths && Stored(o.auths[k]) == Success(EncodeAuthorization(a).record)
      && o.index[EncodeAuthorization(a).record.token] == k
      && o.auths == tx.auths[k := EncodeAuthorization(a).bytes.value]
      && o.index == tx.authIndex[EncodeAuthorization(a).record.token := k]
  {
    DecodeEncode(a);
  }

  /** The record CreateAuthorization goes on to save: its own ID when valid, else the generated one. */
  function WithID(a: Authorization, gen: Result<ID, Error>): (r: Authorization)
    requires Ids.Valid(a.id) || gen.Success?
    ensures Ids.Valid(a.id) ==> r == a
    ensures !Ids.Valid(a.id) ==> r == a.(id := gen.value)
  {
    if Ids.Valid(a.id) then a else a.(id := gen.value)
  }

  /** The steps SaveOutcome specifies, carried out on the transaction. */
  method Save(tx: Tx, a: Authorization) returns (a': Authorization, err: Option<Error>)
    requires Ids.Valid(a.id)
    modifies tx
    ensures a' == EncodeAuthorization(a).record
    ensures Outcome(err, tx.auths, tx.authIndex) == old(SaveOutcome(tx, a))
  {
    var enc := EncodeAuthorization(a);
    a' := enc.record;
    if enc.bytes.Failure? {
      return a', Some(Wrapped(Some(EInvalid), enc.bytes.error));
    }
    var encodedID := Ids.Encode(a'.id).value;
    err := AuthIndexBucketError(tx);
    if err.Some? {
      return;
    }
    err := UniqueAuthToken(tx, a');
    if err.Some? {
      return;
    }
    err := tx.Bucket(AuthBucket);
    if err.Some? {
      return;
    }
    var e := tx.PutIndex(a'.token, encodedID);
    if e.Some? {
      return a', Some(Wrapped(Some(EInternal), e.value));
    }
    e := tx.PutAuth(encodedID, enc.bytes.value);
    if e.Some? {
      return a', Some(Wrapped(None, e.value));
    }
    return a', None;
  }

  /**
   * CreateAuthorization as written: when the record has no valid ID and generating one
   * fails, it reports success without saving anything. `gen` is the outcome of
   * generateSafeID, which yields only valid IDs.
   */
  method CreateAuthorization(tx: Tx, a: Authorization, gen: Result<ID, Error>) returns (a': Authorization, err: Option<Error>)
    requires gen.Success? ==> Ids.Valid(gen.value)
    modifies tx
    ensures !Ids.Valid(a.id) && gen.Failure? ==>
      a' == a && err.None? && tx.auths == old(tx.auths) && tx.authIndex == old(tx.authIndex)
    ensures Ids.Valid(a.id) || gen.Success? ==>
      && a' == EncodeAuthorization(WithID(a, gen)).record
      && Outcome(err, tx.auths, tx.authIndex) == old(SaveOutcome(tx, WithID(a, gen)))
  {
    a' := a;
    if !Ids.Valid(a'.id) {
      if gen.Failure? {
        return a', None;
      }
      a' := a'.(id := gen.value);
    }
    a', err := Save(tx, a');
  }

  /** CreateAuthorization with the failure to generate an ID reported. */
  method CreateAuthorizationChecked(tx: Tx, a: Authorization, gen: Result<ID, Error>) returns (a': Authorization, err: Option<Error>)
    requires gen.Success? ==> Ids.Valid(gen.value)
    modifies tx
    ensures !Ids.Valid(a.id) && gen.Failure? ==>
      a' == a && err == Some(gen.error) && tx.auths == old(tx.auths) && tx.authIndex == old(tx.authIndex)
    ensures Ids.Valid(a.id) || gen.Success? ==>
      && a' == EncodeAuthorization(WithID(a, gen)).record
      && Outcome(err, tx.auths, tx.authIndex) == old(SaveOutcome(tx, WithID(a, gen)))
  {
    a' := a;
    if !Ids.Valid(a'.id) {
      if gen.Failure? {
        return a', Some(gen.error);
      }
      a' := a'.(id := gen.value);
    }
    a', err := Save(tx, a');
  }

  /** The fields an update sets: status and description when given, and the update time. */
  function ApplyUpdate(a: Authorization, upd: AuthorizationUpdate, now: Time): (r: Authorization)
    ensures r.status == (if upd.status.Some? then upd.status.value else a.status)
    ensures r.description == (if upd.description.Some? then upd.description.value else a.description)
    ensures r.updatedAt == now
    ensures r.(status := a.status, description := a.description, updatedAt := a.updatedAt) == a
  {
    var a1 := if upd.status.Some? then a.(status := upd.status.value) else a;
    var a2 := if upd.description.Some? then a1.(description := upd.description.value) else a1;
    a2.(updatedAt := now)
  }

  /** The result of an update and the two buckets it leaves behind. */
  datatype UpdateResult = UpdateResult(result: Result<Authorization, Error>, auths: map<Ids.Bytes, Doc>, index: map<string, Ids.Bytes>)

  /**
   * UpdateAuthorization, over the lookup that decodes into a fresh record
   * (GetAuthorizationByID). The record is encoded before the edits are applied, and that
   * encoding is what is written back, under the key of the ID the loaded record carries;
   * the edited record is only returned.
   */
  function UpdateOutcome(tx: Tx, id: ID, upd: AuthorizationUpdate, now: Time): (r: UpdateResult)
    reads tx
    ensures r.result.Failure? ==> r.auths == tx.auths
  {
    var loaded := GetAuthorizationByID(tx, id);
    if loaded.Failure? then UpdateResult(Failure(Wrapped(Some(ENotFound), loaded.error)), tx.auths, tx.authIndex)
    else
      var enc := EncodeAuthorization(loaded.value);
      if enc.bytes.Failure? then UpdateResult(Failure(Wrapped(Some(EInvalid), enc.bytes.error)), tx.auths, tx.authIndex)
      else match Ids.Encode(enc.record.id)
      case Failure(e) => UpdateResult(Failure(Wrapped(Some(ENotFound), IDFailure(e))), tx.auths, tx.authIndex)
      case Success(k) =>
        var a := ApplyUpdate(enc.record, upd, now);
        if AuthIndexBucketError(tx).Some? then UpdateResult(Failure(AuthIndexBucketError(tx).value), tx.auths, tx.authIndex)
        else if tx.Fault(OpPut, AuthIndexBucket).Some? then
          UpdateResult(Failure(Wrapped(Some(EInternal), tx.Fault(OpPut, AuthIndexBucket).value)), tx.auths, tx.authIndex)
        else if tx.Fault(OpPut, AuthBucket).Some? then
          UpdateResult(Failure(Wrapped(None, tx.Fault(OpPut, AuthBucket).value)), tx.auths, tx.authIndex[a.token := k])
        else UpdateResult(Success(a), tx.auths[k := enc.bytes.value], tx.authIndex[a.token := k])
  }

  /**
   * Everything an update that writes back the pre-edit encoding does. A failed lookup is reported as not found and
   * changes nothing. A successful update returns the loaded record with the edits applied;
   * it stores the loaded record's own encoding under the key of the ID that record carries,
   * points the record's token at that key, and changes no other entry.
   */
  lemma UpdateEffects(tx: Tx, id: ID, upd: AuthorizationUpdate, now: Time)
    ensures var o := UpdateOutcome(tx, id, upd, now);
      var loaded := GetAuthorizationByID(tx, id);
      && (loaded.Failure? ==> o == UpdateResult(Failure(Wrapped(Some(ENotFound), loaded.error)), tx.auths, tx.authIndex))
      && (o.result.Success? ==>
            && loaded.Success? && Ids.Valid(loaded.value.id)
            && o.result == Success(ApplyUpdate(loaded.value, upd, now))
            && o.auths == tx.auths[Ids.Encode(loaded.value.id).value := Marshal(loaded.value).value]
            && o.index == tx.authIndex[loaded.value.token := Ids.Encode(loaded.value.id).value])
  {
  }

  /** In consistent buckets a lookup that succeeds loads the record stored under the ID's key, and it carries that ID. */
  lemma LoadedRecordCarriesID(tx: Tx, id: ID)
    requires Consistent(tx.auths, tx.authIndex) && GetAuthorizationByID(tx, id).Success?
    ensures Ids.Valid(id) && Ids.Encode(id).value in tx.auths
    ensures GetAuthorizationByID(tx, id) == Stored(tx.auths[Ids.Encode(id).value])
    ensures GetAuthorizationByID(tx, id).value.id == id
  {
    var k := Ids.Encode(id).value;
    assert RecordAt(tx.auths, tx.authIndex, k);
    Ids.EncodeInjective(Stored(tx.auths[k]).value.id, id);
  }

  /**
   * Updating consistent buckets rewrites the record in place: the key it writes is the
   * looked-up ID's, no key is added or removed, and the index is left as it was.
   */
  lemma UpdateInPlace(tx: Tx, id: ID, upd: AuthorizationUpdate, now: Time)
    requires Consistent(tx.auths, tx.authIndex)
    ensures var o := UpdateOutcome(tx, id, upd, now);
      o.result.Success? ==>
        && o.result.value.id == id
        && o.auths == tx.auths[Ids.Encode(id).value := Marshal(GetAuthorizationByID(tx, id).value).value]
        && o.auths.Keys == tx.auths.Keys
        && o.index == tx.authIndex
  {
    var o := UpdateOutcome(tx, id, upd, now);
    if o.result.Success? {
      UpdateEffects(tx, id, upd, now);
      LoadedRecordCarriesID(tx, id);
      var loaded := GetAuthorizationByID(tx, id).value;
      var k := Ids.Encode(id).value;
      assert Ids.Encode(loaded.id).value == k;
      assert RecordAt(tx.auths, tx.authIndex, k);
      assert tx.authIndex[loaded.token] == k;
    }
  }

  /** Updating consistent buckets leaves them consistent. */
  lemma UpdateKeepsConsistent(tx: Tx, id: ID, upd: AuthorizationUpdate, now: Time)
    requires Consistent(tx.auths, tx.authIndex)
    ensures var o := UpdateOutcome(tx, id, upd, now);
      o.result.Success? ==> Consistent(o.auths, o.index)
  {
    var o := UpdateOutcome(tx, id, upd, now);
    if o.result.Success? {
      UpdateInPlace(tx, id, upd, now);
      LoadedRecordCarriesID(tx, id);
      var loaded := GetAuthorizationByID(tx, id).value;
      var k := Ids.Encode(id).value;
      var d := Marshal(loaded).value;
      assert Stored(d) == Success(loaded) by {
        DecodeEncode(loaded);
        assert EncodeAuthorization(loaded).record == loaded;
      }
      assert Stored(tx.auths[k]) == Success(loaded);
      assert tx.authIndex[loaded.token := k] == tx.authIndex by {
        assert RecordAt(tx.auths, tx.authIndex, k);
      }
      RewriteKeepsConsistent(tx.auths, tx.authIndex, k, d);
    }
  }

  /**
   * Writing back the pre-edit encoding, a successful update stores the record as it was before: looking the ID up
   * afterwards gives the old record, while the caller is handed the edited one; so an
   * update that changes the description is lost.
   */
  lemma UpdateLosesEdits(tx: Tx, id: ID, upd: AuthorizationUpdate, now: Time)
    requires tx.faults.failing == {}
    ensures var o := UpdateOutcome(tx, id, upd, now);
      var before := GetAuthorizationByID(tx, id);
      o.result.Success? ==>
        && Ids.Valid(o.result.value.id)
        && var k := Ids.Encode(o.result.value.id).value;
        && k in o.auths
        && Stored(o.auths[k]) == before
        && (upd.description.Some? && upd.description.value != before.value.description ==>
              Stored(o.auths[k]) != o.result)
  {
    var o := UpdateOutcome(tx, id, upd, now);
    if o.result.Success? {
      UpdateEffects(tx, id, upd, now);
      DecodeEncode(GetAuthorizationByID(tx, id).value);
    }
  }

  /** UpdateAuthorization with the edited record encoded and stored. */
  function UpdatePersistingOutcome(tx: Tx, id: ID, upd: AuthorizationUpdate, now: Time): (r: UpdateResult)
    reads tx
    ensures r.result.Failure? ==> r.auths == tx.auths
  {
    var loaded := GetAuthorizationByID(tx, id);
    if loaded.Failure? then UpdateResult(Failure(Wrapped(Some(ENotFound), loaded.error)), tx.auths, tx.authIndex)
    else
      var enc := EncodeAuthorization(ApplyUpdate(loaded.value, upd, now));
      if enc.bytes.Failure? then UpdateResult(Failure(Wrapped(Some(EInvalid), enc.bytes.error)), tx.auths, tx.authIndex)
      else match Ids.Encode(enc.record.id)
      case Failure(e) => UpdateResult(Failure(Wrapped(Some(ENotFound), IDFailure(e))), tx.auths, tx.authIndex)
      case Success(k) =>
        var a := enc.record;
        if AuthIndexBucketError(tx).Some? then UpdateResult(Failure(AuthIndexBucketError(tx).value), tx.auths, tx.authIndex)
        else if tx.Fault(OpPut, AuthIndexBucket).Some? then
          UpdateResult(Failure(Wrapped(Some(EInternal), tx.Fault(OpPut, AuthIndexBucket).value)), tx.auths, tx.authIndex)
        else if tx.Fault(OpPut, AuthBucket).Some? then
          UpdateResult(Failure(Wrapped(None, tx.Fault(OpPut, AuthBucket).value)), tx.auths, tx.authIndex[a.token := k])
        else UpdateResult(Success(a), tx.auths[k := enc.bytes.value], tx.authIndex[a.token := k])
  }

  /**
   * The corrected update stores what it returns: looking the ID up afterwards gives the
   * edited record; a status other than active or inactive is refused; and consistent
   * buckets stay consistent.
   */
  lemma UpdatePersistingStoresEdits(tx: Tx, id: ID, upd: AuthorizationUpdate, now: Time)
    requires tx.faults.failing == {}
    ensures var o := UpdatePersistingOutcome(tx, id, upd, now);
      && (o.result.Success? ==>
            && Ids.Valid(o.result.value.id)
            && GetAuthorizationByID(tx, id).value.id == o.result.value.id
            && Ids.Encode(o.result.value.id).value in o.auths
            && Stored(o.auths[Ids.Encode(o.result.value.id).value]) == o.result)
      && ((GetAuthorizationByID(tx, id).Success? && upd.status.Some? && !LegalStatus(upd.status.value) && upd.status.value != "")
            ==> o.result == Failure(Wrapped(Some(EInvalid), UnknownStatus)))
      && (o.result.Success? && Consistent(tx.auths, tx.authIndex) ==> Consistent(o.auths, o.index))
  {
    var o := UpdatePersistingOutcome(tx, id, upd, now);
    if o.result.Success? {
      var loaded := GetAuthorizationByID(tx, id).value;
      var edited := ApplyUpdate(loaded, upd, now);
      DecodeEncode(edited);
      if Consistent(tx.auths, tx.authIndex) {
        LoadedRecordCarriesID(tx, id);
        var k := Ids.Encode(id).value;
        assert RecordAt(tx.auths, tx.authIndex, k);
        RewriteKeepsConsistent(tx.auths, tx.authIndex, k, EncodeAuthorization(edited).bytes.value);
      }
    }
  }

  /** UpdateAuthorization over GetAuthorizationByID, writing back the pre-edit encoding. */
  method UpdateAuthorization(tx: Tx, id: ID, upd: AuthorizationUpdate, now: Time) returns (r: Result<Authorization, Error>)
    modifies tx
    ensures UpdateResult(r, tx.auths, tx.authIndex) == old(UpdateOutcome(tx, id, upd, now))
  {
    var loaded := GetAuthorizationByID(tx, id);
    if loaded.Failure? {
      return Failure(Wrapped(Some(ENotFound), loaded.error));
    }
    var enc := EncodeAuthorization(loaded.value);
    if enc.bytes.Failure? {
      return Failure(Wrapped(Some(EInvalid), enc.bytes.error));
    }
    var a := enc.record;
    var encodedID: Ids.Bytes;
    match Ids.Encode(a.id) {
      case Failure(e) => return Failure(Wrapped(Some(ENotFound), IDFailure(e)));
      case Success(k) => encodedID := k;
    }
    a := ApplyUpdate(a, upd, now);
    var err := AuthIndexBucketError(tx);
    if err.Some? {
      return Failure(err.value);
    }
    err := tx.PutIndex(a.token, encodedID);
    if err.Some? {
      return Failure(Wrapped(Some(EInternal), err.value));
    }
    err := tx.PutAuth(encodedID, enc.bytes.value);
    if err.Some? {
      return Failure(Wrapped(None, err.value));
    }
    return Success(a);
  }

  /** UpdateAuthorization storing the edited record. */
  method UpdateAuthorizationPersisting(tx: Tx, id: ID, upd: AuthorizationUpdate, now: Time) returns (r: Result<Authorization, Error>)
    modifies tx
    ensures UpdateResult(r, tx.auths, tx.authIndex) == old(UpdatePersistingOutcome(tx, id, upd, now))
  {
    var loaded := GetAuthorizationByID(tx, id);
    if loaded.Failure? {
      return Failure(Wrapped(Some(ENotFound), loaded.error));
    }
    var enc := EncodeAuthorization(ApplyUpdate(loaded.value, upd, now));
    if enc.bytes.Failure? {
      return Failure(Wrapped(Some(EInvalid), enc.bytes.error));
    }
    var a := enc.record;
    var encodedID: Ids.Bytes;
    match Ids.Encode(a.id) {
      case Failure(e) => return Failure(Wrapped(Some(ENotFound), IDFailure(e)));
      case Success(k) => encodedID := k;
    }
    var err := AuthIndexBucketError(tx);
    if err.Some? {
      return Failure(err.value);
    }
    err := tx.PutIndex(a.token, encodedID);
    if err.Some? {
      return Failure(Wrapped(Some(EInternal), err.value));
    }
    err := tx.PutAuth(encodedID, enc.bytes.value);
    if err.Some? {
      return Failure(Wrapped(None, err.value));
    }
    return Success(a);
  }

  /**
   * DeleteAuthorization, over the lookup that decodes into a fresh record
   * (GetAuthorizationByID): a record that cannot be looked up is not an error and nothing
   * is removed; otherwise the index entry and then the record are deleted.
   */
  function DeleteOutcome(tx: Tx, id: ID): (r: Outcome)
    reads tx
    ensures r.auths.Keys <= tx.auths.Keys && r.index.Keys <= tx.authIndex.Keys
    ensures r.auths != tx.auths ==> r.err.None?
  {
    var loaded := GetAuthorizationByID(tx, id);
    if loaded.Failure? then Untouched(tx, None)
    else
      var k := Ids.Encode(id).value;
      var t := loaded.value.token;
      if AuthIndexBucketError(tx).Some? then Untouched(tx, AuthIndexBucketError(tx))
      else if tx.Fault(OpDelete, AuthIndexBucket).Some? then Untouched(tx, Some(InternalService(tx.Fault(OpDelete, AuthIndexBucket).value)))
      else if tx.Fault(OpDelete, AuthBucket).Some? then
        Outcome(Some(InternalService(tx.Fault(OpDelete, AuthBucket).value)), tx.auths, tx.authIndex - {t})
      else Outcome(None, tx.auths - {k}, tx.authIndex - {t})
  }

  /**
   * Everything a delete does: a failed lookup is no error and changes nothing; with a healthy
   * engine a successful lookup removes exactly the ID's key and the loaded record's token.
   */
  lemma DeleteEffects(tx: Tx, id: ID)
    ensures var o := DeleteOutcome(tx, id);
      var loaded := GetAuthorizationByID(tx, id);
      && (loaded.Failure? ==> o == Outcome(None, tx.auths, tx.authIndex))
      && (loaded.Success? && tx.faults.failing == {} ==>
            o == Outcome(None, tx.auths - {Ids.Encode(id).value}, tx.authIndex - {loaded.value.token}))
  {
  }

  /**
   * Deleting from consistent buckets removes the record and its token, keeps the buckets
   * consistent, and afterwards neither the ID nor the token can be looked up.
   */
  lemma DeleteRemovesRecord(tx: Tx, id: ID)
    requires Consistent(tx.auths, tx.authIndex) && tx.faults.failing == {}
    ensures var o := DeleteOutcome(tx, id);
      && o.err.None?
      && Consistent(o.auths, o.index)
      && (Ids.Valid(id) ==> Ids.Encode(id).value !in o.auths)
      && (GetAuthorizationByID(tx, id).Success? ==> GetAuthorizationByID(tx, id).value.token !in o.index)
  {
    var o := DeleteOutcome(tx, id);
    if GetAuthorizationByID(tx, id).Success? {
      var k := Ids.Encode(id).value;
      RemoveKeepsConsistent(tx.auths, tx.authIndex, k);
    } else if Ids.Valid(id) {
      var k := Ids.Encode(id).value;
      assert k in tx.auths ==> RecordAt(tx.auths, tx.authIndex, k);
    }
  }

  /** DeleteAuthorization. */
  method DeleteAuthorization(tx: Tx, id: ID) returns (err: Option<Error>)
    modifies tx
    ensures Outcome(err, tx.auths, tx.authIndex) == old(DeleteOutcome(tx, id))
  {
    var loaded := GetAuthorizationByID(tx, id);
    if loaded.Failure? {
      return None;
    }
    var encodedID := Ids.Encode(id).value;
    err := AuthIndexBucketError(tx);
    if err.Some? {
      return;
    }
    var e := tx.DeleteIndex(loaded.value.token);
    if e.Some? {
      return Some(InternalService(e.value));
    }
    e := tx.DeleteAuth(encodedID);
    if e.Some? {
      return Some(InternalService(e.value));
    }
    return None;
  }
}
