# Authorization store and feature-flag overrides, modelled in Dafny

This project models two parts of the InfluxDB 2 code base.

**The authorization store** (`token/storage_auth.go`). Authorizations are API tokens. Each
belongs to an organization and a user, has a status ("active" or "inactive"), and carries a
list of permissions. The store keeps them in two buckets of a key-value transaction:

- the primary bucket maps each encoded ID (a fixed-width, order-preserving key) to the record's JSON;
- the index bucket maps each token to the encoded ID.

The model covers:

- encoding and decoding a record, including the status rule;
- bucket setup;
- the uniqueness check on tokens;
- lookup by ID and by token;
- the cursor walk, and listing with a filter. A listing uses two tests built from the filter:
  - a cheap "hint" the storage engine may apply to the raw JSON;
  - an exact test on the decoded record.
- create, update and delete.

**The flag-override parser** (`kit/feature/override/override.go`). This reads a
configuration string `k1:v1,k2:v2,...` into a map of overrides. It then resolves the
requested feature flags: each gets its override, coerced to the flag's type, or else its
default.

Modules:

| file | module | what it holds |
|---|---|---|
| `wrappers.dfy` | `Wrappers` | `Option`, `Result` |
| `ids.dfy` | `Ids` | 64-bit IDs, their fixed-width encoding, decoding and round trips |
| `auth.dfy` | `Auth` | authorizations, filters, updates, the error values |
| `json.dfy` | `Json` | an abstract JSON document per record, `Marshal`/`Unmarshal`, field extraction for the hint |
| `codec.dfy` | `Codec` | `encodeAuthorization` / `decodeAuthorization` |
| `kv.dfy` | `Kv` | the transaction `Tx`: a class holding the two buckets as maps, engine faults, and the cursor in key order |
| `filters.dfy` | `Filters` | the hint predicate and the exact filter, and how they relate |
| `storage.dfy` | `Storage` | the store operations, the bucket-consistency invariant, the specification functions the write methods are proved against |
| `strconv.dfy` | `Strconv` | `strconv.ParseBool` and `strconv.Atoi` |
| `override.dfy` | `Override` | `strings.Split`, `parse`, `Make`, `coerce`, `Flags` |

Modelling choices:

- The transaction is a class `Kv.Tx`. Its fields `auths` and `authIndex` are the two buckets.
  The write methods (`PutAuth`, `PutIndex`, `DeleteAuth`, `DeleteIndex`) update those fields.
- Each store write is a method that performs the same steps as the source on a `Tx`. Its
  `ensures` ties the error and the new buckets to a pure specification function of the old
  state: `SaveOutcome`, `UpdateOutcome` or `DeleteOutcome`. The properties are lemmas about
  those functions.
- A read-only operation is a function that reads `tx`.
- `forEachAuthorization` is a method with the source's loop and `break`. It is proved
  against the recursive function `Walk`.
- `parse` and `Flags` are methods with the source's `for` loops. They are proved against the
  recursive functions `ParseSpec` and `Resolution`.
- Engine failures are a constant set `faults` of (operation, bucket) pairs per transaction.
  An operation listed there fails with `StorageFault(op, bucket)`.
- The ID generator is a parameter `gen`, the outcome of `generateSafeID`.
- The clock is a parameter `now`, the value of `time.Now()`.
- `strconv.ParseFloat` is a parameter `parseFloat`.
- The registry `feature.Flags()` is a parameter `registry`.
- JSON is abstracted: a record's bytes are a `Json.Doc`. A `Doc` is either unparsable, or it
  gives each field as absent, present with a value, or present with text of the wrong type.
  The token field keeps both its raw text and its unescaped value, because the hint reads the
  raw text (`jsonparser.Get`) while decoding unescapes it.
- Assumptions about collaborators that are not part of this model:
  - `ID.Encode` / `ID.Decode` are a fixed-width, order-preserving encoding that rejects the
    zero ID. The platform writes the 16 lowercase hexadecimal characters of the ID; the model
    uses the 8 bytes, most significant first, that those characters spell;
  - `json.Marshal` fails on a zero ID or organization ID, because `ID.MarshalText` encodes
    them;
  - `json.Marshal` omits a zero user ID;
  - `json.Unmarshal` keeps the target's value for absent fields, and refuses a nil target;
  - `jsonp.GetOptionalID` reports an error, not absence, on text it cannot read, so the
    user hint lets an unreadable value through like the other hints do.

Where the code does less than its surroundings suggest, the model follows the code:

- The doc comment on `Flags` says it never returns an error. The code returns the first
  coercion error, and the model does so too.
- `GetAuthorizationByToken` does not check a failing index lookup other than "not found".
  It goes on to decode an ID from the empty value that lookup returns, so the failure
  surfaces as an invalid ID of the wrong length (`Storage.GetByTokenIgnoresIndexFault`).
- The hint is meant to over-approximate the filter, but it can reject a record the filter
  keeps in two cases. A user filter on the zero ID selects records without a user, and the
  hint rejects them (`Filters.HintMissesAbsentUser`). A token with a character JSON escapes
  is compared in its escaped form (`Filters.HintMissesEscapedToken`; line 378 states that
  tokens are assumed unescaped). `Filters.HintOverApproximates` proves the hint sound
  outside these two cases.
- `CreateAuthorization` does not check that a valid ID the caller supplies is free. Saving
  under a stored ID overwrites that record and leaves its old token's index entry dangling
  (`Storage.SaveOverwritesStoredID`).

Re-checks that cannot fail at their position are not modelled as separate branches:

- `tx.Bucket(authBucket)` in `UpdateAuthorization` (line 279) and `DeleteAuthorization`
  (line 311): the lookup that precedes them has already opened that bucket.
- `a.ID.Encode()` in `CreateAuthorization` (lines 81-84) and `id.Encode()` in
  `DeleteAuthorization` (301-304): the ID is already known to be valid at that point, because
  `SaveOutcome` is only reached with a valid ID, and because the lookup by the same `id`
  succeeded.

Two other checks are modelled as written:

- `a.ID.Encode()` in `UpdateAuthorization` (lines 250-256) is a branch of its own. The key
  it yields, from the loaded record's ID, is the key both writes use.
- The `len(pairs) < 1` branch of `parse` (lines 43-45) is kept in `Override.Parse`. It is
  dead because `Override.Split` always returns at least one piece.

## Model

| member | source | states |
|---|---|---|
| Ids.Encode | token/storage_auth.go:119-122 | encoding succeeds exactly for valid (non-zero) IDs and yields a key of the fixed width |
| Ids.Decode | token/storage_auth.go:163-169 | a decoded ID is valid; a key not of the fixed width is rejected with the invalid-length error |
| Ids.DecodeEncode | token/storage_auth.go:119-122 | decoding an encoded valid ID gives the ID back |
| Ids.EncodeDecode | token/storage_auth.go:163-169 | encoding a decoded ID gives the bytes back |
| Ids.EncodeInjective | token/storage_auth.go:81-84 | distinct valid IDs have distinct keys |
| Json.EscapeLength | token/storage_auth.go:376-378 | escaping never shortens a token, and lengthens every token that has a character needing an escape |
| Json.EscapeIdentity | token/storage_auth.go:376-378 | a token's JSON text equals the token exactly when no character needs escaping |
| Json.Marshal | token/storage_auth.go:49 | marshalling succeeds exactly when ID and org ID are valid; the result is well typed, carries the escaped token and omits a zero user ID |
| Json.Unmarshal | token/storage_auth.go:53-55 | unparsable text is a syntax error, a nil target is refused, and decoding succeeds exactly for a well-typed object and a target |
| Json.UnmarshalNilTargetFails | token/storage_auth.go:118-146 | decoding into a nil target fails whatever the stored value is, which is why the lookup as written never returns a record |
| Json.UnmarshalMarshal | token/storage_auth.go:49-55 | unmarshalling what was marshalled, into a target with no user ID or a record with one, gives the record back |
| Json.GetID | token/storage_auth.go:366-370 | the id field extraction succeeds exactly when the field is present and a valid ID, yielding it |
| Json.GetOptionalID | token/storage_auth.go:403-406 | the optional extraction reports presence exactly for a present valid ID, and neither presence nor error exactly for an absent field |
| Json.GetRawToken | token/storage_auth.go:378-379 | the raw token is found exactly when the document is an object with a token field, and it is that field's text as written, of whatever JSON type, with no unescaping |
| Codec.EncodeAuthorization | token/storage_auth.go:37-50 | an empty status becomes active; any status other than active, inactive or empty is refused; otherwise the record is marshalled |
| Codec.DecodeAuthorization | token/storage_auth.go:52-60 | decoding fails exactly when unmarshalling does, with its error; on success the unmarshalled record is returned with an empty status made active |
| Codec.DecodedStatus | token/storage_auth.go:52-60 | a decoded record whose stored status was active, inactive or empty has status active or inactive |
| Codec.DecodeEncode | token/storage_auth.go:37-60 | decoding an encoded record into a fresh record gives the record with its status normalised |
| Codec.EncodeSucceeds | token/storage_auth.go:37-50 | encoding succeeds exactly for a legal or empty status and valid ID and org ID |
| Kv.LessAsymmetric | token/storage_auth.go:216 | byte-wise key order is asymmetric |
| Kv.LessTotal | token/storage_auth.go:216 | byte-wise key order relates any two distinct keys |
| Kv.LessTransitive | token/storage_auth.go:216 | byte-wise key order is transitive |
| Kv.SortedEntries | token/storage_auth.go:216 | the cursor visits each stored entry exactly once, with its value, in ascending key order |
| Kv.Keep | token/storage_auth.go:206-207 | a hinted cursor visits exactly the entries the hint accepts, each at most as often as before |
| Kv.KeepSorted | token/storage_auth.go:206-207 | dropping the entries a hint rejects keeps the rest in strictly ascending key order |
| Kv.Tx.GetAuth | token/storage_auth.go:129-136 | a primary-bucket get returns the stored value, not-found for a missing key, or the engine's failure |
| Kv.Tx.GetIndex | token/storage_auth.go:155 | an index get returns the stored ID, not-found for a missing token, or the engine's failure |
| Kv.Tx.PutAuth | token/storage_auth.go:107 | a put on the primary bucket stores the value under the key unless the engine fails, and leaves the index alone |
| Kv.Tx.PutIndex | token/storage_auth.go:100 | a put on the index stores the entry unless the engine fails, and leaves the primary bucket alone |
| Kv.Tx.DeleteAuth | token/storage_auth.go:320 | a delete on the primary bucket removes the key unless the engine fails |
| Kv.Tx.DeleteIndex | token/storage_auth.go:316 | a delete on the index removes the token unless the engine fails |
| Kv.Tx.Cursor | token/storage_auth.go:205-213 | a cursor fails only on an engine fault; otherwise it visits the entries in key order, filtered by the hint when one is given and the engine honours it |
| Kv.CursorInKeyOrder | token/storage_auth.go:205-215 | every cursor, hinted or not, visits its entries in strictly ascending key order |
| Filters.AuthorizationsPredicate | token/storage_auth.go:360-411 | there is no hint exactly when no filter field is set |
| Filters.FilterAuthorizations | token/storage_auth.go:413-446 | the exact filter accepts everything exactly when no hint is built, that is, when no filter field is set |
| Filters.FilterPrecedence | token/storage_auth.go:413-446 | the exact filter tests ID if given, else token, else org and user together, else org, else user, else accepts all |
| Filters.LaterFieldsIgnored | token/storage_auth.go:364-386 | once an ID (or, failing that, a token) is given, the remaining filter fields change neither the hint nor the exact filter |
| Filters.HintAccepts | token/storage_auth.go:361-408 | a hint lets a value through when it cannot read the text, or the ID, token or organization field it compares; when the user field cannot be read, the user check gives the verdict of the organization check it is chained onto |
| Filters.HintOverApproximates | token/storage_auth.go:360-446 | for a value that decodes into a target without a user ID, whose token is written unescaped, and a filter whose user, if any, names a valid ID, the hint accepts every record the exact filter selects |
| Filters.HintKeepsWrittenRecords | token/storage_auth.go:37-50 | for records the store itself wrote with a token that needs no escaping, decoded into a target without a user ID, and a filter whose user, if any, names a valid ID, the hint never rejects a selected record |
| Filters.HintMissesAbsentUser | token/storage_auth.go:400-407 | a user filter on the zero ID selects a record with no user ID, yet the hint rejects it |
| Filters.HintMissesEscapedToken | token/storage_auth.go:376-383 | a token containing `<` is selected by the token filter, yet the hint, reading the escaped text, rejects it |
| Storage.AuthIndexBucketError | token/storage_auth.go:18-25 | opening the index bucket fails exactly on an engine fault, wrapped as an unexpected-index error |
| Storage.InitializeAuths | token/storage_auth.go:27-35 | setup succeeds exactly when both buckets open; the primary bucket's failure comes first and unwrapped |
| Storage.Unique | token/storage_auth.go:339-358 | a token is unique exactly when the index opens and reports it missing; a found token is not-unique; any other failure is an unexpected-index error |
| Storage.UniqueAuthToken | token/storage_auth.go:327-337 | not-unique becomes the generic unable-to-create-token error and nothing else does; other outcomes pass through |
| Storage.UniqueAuthTokenHidesDuplicates | token/storage_auth.go:327-358 | with a healthy index, the generic error is returned exactly for an already indexed token, and otherwise nothing |
| Storage.ConsistentTokensUnique | token/storage_auth.go:91-93 | in consistent buckets no two records share a token |
| Storage.InsertKeepsConsistent | token/storage_auth.go:100-111 | adding a record under a fresh key and fresh token keeps the buckets consistent |
| Storage.RemoveKeepsConsistent | token/storage_auth.go:316-323 | removing a record and its index entry keeps the buckets consistent |
| Storage.RewriteKeepsConsistent | token/storage_auth.go:272-289 | rewriting a record in place with the same ID and token keeps the buckets consistent |
| Storage.LookupByID | token/storage_auth.go:118-146 | lookup by ID: invalid ID, then bucket failure (internal), then not found, then get failure (internal), then a decode failure wrapped as invalid, each before the next |
| Storage.GetAuthorizationByIDAsWritten | token/storage_auth.go:118-146 | decoding into the nil named result, the lookup fails on every input |
| Storage.LookupByIDAsWrittenRejectsStoredRecords | token/storage_auth.go:129-143 | as written, a well-formed record present under the ID is refused with the invalid-encoding error wrapping the nil-target refusal |
| Storage.GetAuthorizationByID | token/storage_auth.go:118-146 | with a healthy store: not found for a missing key, the wrapped decode error for an undecodable value, otherwise the stored record, whose status is never empty |
| Storage.GetByIDReturnsStoredRecord | token/storage_auth.go:118-146 | with a healthy engine and consistent buckets, lookup by a stored ID succeeds and returns the record with that ID |
| Storage.GetAuthorizationByToken | token/storage_auth.go:148-172 | an index bucket failure is returned; a missing token is "authorization not found"; a found ID is decoded and looked up by ID |
| Storage.GetByTokenIgnoresIndexFault | token/storage_auth.go:154-169 | a failing index get is reported as an invalid ID of the wrong length |
| Storage.GetByTokenFindsIndexedRecord | token/storage_auth.go:148-172 | in consistent buckets lookup by token fails as not found exactly for unindexed tokens and otherwise returns the record that carries the token |
| Storage.DecodeAll | token/storage_auth.go:215-222 | decoding all entries yields one record per entry, each the entry's decoding, or an error that some entry's decoding gives |
| Storage.Walk | token/storage_auth.go:215-227 | a walk never hands over more records than the cursor visits, and one ending in an error leaves the failing entry unhanded |
| Storage.WalkProperties | token/storage_auth.go:215-227 | the walk hands over decoded entries in cursor order; all but the last were accepted; an error is the decode error of the next entry; without error the walk saw everything or stopped at a refused record |
| Storage.WalkAcceptingAll | token/storage_auth.go:184-190 | with a callback that always continues, the walk decodes every entry or ends with the first decode error |
| Storage.ForEachAuthorization | token/storage_auth.go:199-230 | a bucket or cursor failure is returned unchanged with nothing visited; otherwise the loop does exactly what `Walk` specifies on the cursor's entries |
| Storage.Visit | token/storage_auth.go:215-227 | the decode-and-callback loop, with its `break`, returns exactly what `Walk` gives for the entries |
| Storage.SelectAll | token/storage_auth.go:185-187 | the records kept are exactly the visited records the filter selects, none more often than visited; a single record is kept exactly when selected |
| Storage.SelectAllAppend | token/storage_auth.go:185-189 | the selection distributes over concatenation, so the kept records stay in visiting order |
| Storage.Listing | token/storage_auth.go:176-196 | a listing fails exactly when decoding some visited entry fails; otherwise it holds no more records than entries, each selected by the filter |
| Storage.ListAuthorizations | token/storage_auth.go:176-196 | a bucket or cursor failure is returned; otherwise the selected decoded records in cursor order, or the first decode error |
| Storage.ListingIgnoresHint | token/storage_auth.go:176-196 | over well-formed values (readable, well-typed, token written unescaped), and for a filter with some field set whose user, if any, names a valid ID, listing gives the same records whether or not the engine applies the hint |
| Storage.SaveOutcome | token/storage_auth.go:73-113 | a save succeeds only for an encodable record whose token is not yet indexed, and the primary bucket changes only on success |
| Storage.SaveKeepsConsistent | token/storage_auth.go:73-113 | a successful save of a record under a fresh key keeps the buckets consistent |
| Storage.SaveOverwritesStoredID | token/storage_auth.go:64-113 | a save under a valid ID that is already stored succeeds, overwrites the record, and leaves the buckets inconsistent |
| Storage.SaveIsAllOrNothingButLast | token/storage_auth.go:86-111 | a failed save leaves the primary bucket unchanged, and the index changed only when the final put of the record fails, then holding the new entry |
| Storage.SaveRefusesDuplicateToken | token/storage_auth.go:91-93 | with a healthy index, an already indexed token is refused with the generic error and nothing is written |
| Storage.SaveStoresRecord | token/storage_auth.go:100-111 | after a successful save the record decodes back from its encoded ID, its token indexes that key, and no other key of either bucket changes |
| Storage.WithID | token/storage_auth.go:65-71 | a record keeps a valid ID and otherwise takes the generated one |
| Storage.CreateAuthorization | token/storage_auth.go:64-114 | with no valid ID and a failed generator, no error and nothing written; otherwise the status-normalised record of `WithID`, and the buckets and error `SaveOutcome` gives |
| Storage.CreateAuthorizationChecked | token/storage_auth.go:64-114 | as above, but a failed generator's error is returned |
| Storage.Save | token/storage_auth.go:73-113 | the save steps on the transaction produce exactly the error and buckets `SaveOutcome` gives |
| Storage.ApplyUpdate | token/storage_auth.go:258-265 | an update sets status and description when given and the update time, and changes no other field |
| Storage.UpdateOutcome | token/storage_auth.go:233-291 | a failed update never changes the primary bucket |
| Storage.UpdateEffects | token/storage_auth.go:233-291 | a failed lookup is not found and changes nothing; a successful update returns the loaded record with the edits, writes the pre-edit encoding under the key of the loaded record's own ID and points its token there, and changes nothing else |
| Storage.LoadedRecordCarriesID | token/storage_auth.go:118-146 | in consistent buckets a successful lookup by ID loads the record stored under that ID's key, and it carries that ID |
| Storage.UpdateInPlace | token/storage_auth.go:233-291 | in consistent buckets a successful update returns a record with the looked-up ID, rewrites only the entry under that ID's key, adds or removes no key and leaves the index as it was |
| Storage.UpdateKeepsConsistent | token/storage_auth.go:233-291 | a successful update of consistent buckets keeps them consistent |
| Storage.UpdateLosesEdits | token/storage_auth.go:242-289 | writing back the pre-edit encoding, a successful update stores the record as it was before under the key of its ID, so a changed description is not what a later lookup returns |
| Storage.UpdatePersistingOutcome | token/storage_auth.go:233-291 | a failed corrected update never changes the primary bucket |
| Storage.UpdatePersistingStoresEdits | token/storage_auth.go:233-291 | the corrected update stores the record it returns under the key of the loaded record's ID, refuses an unknown status, and keeps consistent buckets consistent |
| Storage.UpdateAuthorization | token/storage_auth.go:233-291 | the update steps, including the encoding of the loaded record's own ID, produce exactly the result and buckets `UpdateOutcome` gives |
| Storage.UpdateAuthorizationPersisting | token/storage_auth.go:233-291 | the corrected update steps, including the encoding of the loaded record's own ID, produce exactly the result and buckets `UpdatePersistingOutcome` gives |
| Storage.DeleteOutcome | token/storage_auth.go:295-325 | a delete never adds a key to either bucket, and the primary bucket changes only when it succeeds |
| Storage.DeleteEffects | token/storage_auth.go:295-325 | a failed lookup returns no error and changes nothing; with a healthy engine a successful lookup removes exactly the ID's key and the loaded record's token |
| Storage.DeleteRemovesRecord | token/storage_auth.go:295-325 | deleting from consistent healthy buckets succeeds, keeps them consistent, and removes the ID's record and the token's index entry |
| Storage.DeleteAuthorization | token/storage_auth.go:295-325 | the delete steps produce exactly the error and buckets `DeleteOutcome` gives: nothing for a failed lookup, otherwise the index entry then the record removed |
| Strconv.ParseBool | kit/feature/override/override.go:85-86 | exactly six spellings parse as true and six as false; anything else is a syntax error |
| Strconv.ScanDigits | kit/feature/override/override.go:87-88 | over digits, the scan fails only when the number leaves the 64-bit range, and otherwise yields that number |
| Strconv.Atoi | kit/feature/override/override.go:87-88 | a parsed integer lies in the int64 range; an error names Atoi and the input |
| Strconv.AtoiCharacterized | kit/feature/override/override.go:87-88 | Atoi accepts exactly a sign and digits denoting an int64, yields that value, and fails with a range error for a well-formed integer outside the range |
| Strconv.AtoiItoa | kit/feature/override/override.go:87-88 | reading an int64's decimal text gives the number back |
| Override.Split | kit/feature/override/override.go:40 | splitting on a separator yields at least one piece, none containing the separator |
| Override.JoinSplit | kit/feature/override/override.go:40 | joining the pieces with the separator gives back the string |
| Override.SplitCount | kit/feature/override/override.go:40-45 | there is one more piece than separators, so the `len(pairs) < 1` branch is dead |
| Override.SplitJoin | kit/feature/override/override.go:47 | splitting a join of separator-free pieces gives the pieces |
| Override.ParsePairs | kit/feature/override/override.go:46-52 | the map built from the pairs has at most one entry per pair |
| Override.ParseSpec | kit/feature/override/override.go:38-55 | the only error parsing gives is the malformed-string error naming the whole input |
| Override.Parse | kit/feature/override/override.go:38-55 | the parse loop returns exactly what `ParseSpec` gives |
| Override.ParsePairsKeys | kit/feature/override/override.go:46-52 | the parsed map's keys are exactly the pairs' left sides |
| Override.ParsePairsValues | kit/feature/override/override.go:46-52 | each key holds the right side of the last pair naming it |
| Override.ParseRejectsMalformedPairs | kit/feature/override/override.go:43-50 | parsing fails, with the malformed-string error for the whole input, exactly when some pair does not split into two parts |
| Override.ParseContents | kit/feature/override/override.go:46-54 | a parsed configuration maps each left side to the right side of its last pair and has no other keys |
| Override.ParseRejectsTwoColons | kit/feature/override/override.go:47-50 | "a:b:c" is malformed |
| Override.ParseRejectsBareKey | kit/feature/override/override.go:47-50 | "a" is malformed |
| Override.ParseRejectsEmpty | kit/feature/override/override.go:40-50 | the empty string is one empty pair and is malformed |
| Override.ParseTwoPairs | kit/feature/override/override.go:46-54 | "a:1,b:2" parses to a:1 and b:2 |
| Override.ParseRepeatedKey | kit/feature/override/override.go:51 | "a:1,a:2" parses to a:2 |
| Override.Make | kit/feature/override/override.go:27-36 | a parse failure gives an empty Flagger and the error; otherwise the Flagger holds exactly the parsed map |
| Override.Default | kit/feature/override/override.go:76 | a flag's default has the flag's type |
| Override.Coerce | kit/feature/override/override.go:83-99 | a coerced value has the flag's type; string flags take the text unchanged; bool and int flags succeed exactly on ParseBool's and Atoi's languages with their values; an error names the input and the flag |
| Override.Resolve | kit/feature/override/override.go:67-78 | a flag resolves to a value of its type; a flag without an override gets its default; a failure is the coercion error for that flag's override |
| Override.ResolutionError | kit/feature/override/override.go:68-73 | a failed resolution is the coercion error for the override of one of the resolved flags |
| Override.Flags | kit/feature/override/override.go:62-81 | the loop over the requested flags, or the registry when none are requested, returns exactly what `Resolution` gives |
| Override.ResolutionPrefixFails | kit/feature/override/override.go:69-73 | once a flag fails to coerce, the whole resolution fails with that error |
| Override.ResolutionFails | kit/feature/override/override.go:68-73 | resolution fails exactly when some overridden flag does not coerce, and then with the first such flag's error |
| Override.ResolutionKeys | kit/feature/override/override.go:67-78 | the resolved map has exactly the requested keys; overrides for other keys are ignored |
| Override.ResolutionValues | kit/feature/override/override.go:68-78 | each key holds the coerced override of its last flag when overridden, else that flag's default |
| Override.ResolutionTyped | kit/feature/override/override.go:68-78 | each resolved value has the type its flag declares |

## Left out

- Context arguments, transaction isolation and atomicity, and concurrency are not modelled.
  A transaction is a plain object, and nothing is rolled back when a write fails halfway.
- The byte format of `encoding/json`, `jsonparser` and `jsonp` is not modelled. A record's
  bytes are the abstract `Json.Doc`. `Marshal` is partial on zero IDs, and its escaping of
  the token follows Go's HTML-safe rules. Both are stated assumptions about code that is not
  part of this model.
- `generateSafeID` is not modelled. Its outcome is the parameter `gen`, which yields only
  valid IDs. Whether a generated ID is fresh in the bucket is an assumption of
  `Storage.SaveKeepsConsistent`, not a property of the generator.
- Storage.SaveKeepsConsistent: its freshness assumption also covers a valid ID the caller
  supplies, which `CreateAuthorization` never checks. `Storage.SaveOverwritesStoredID`
  shows what happens without it.
- `time.Now()` is the parameter `now`.
- The storage engine's cursor and its handling of hints are not modelled. The cursor visits
  the whole bucket in key order. A flag `honoursHints` says whether the engine applies the
  hint.
- Engine failures are constant for a transaction: an (operation, bucket) pair either always
  fails or never does. An engine whose failures vary between calls is not modelled.
- `strconv.ParseFloat` is the parameter `parseFloat`. Floating-point parsing is not modelled.
- `feature.Flags()` is the parameter `registry`. The flags are the four kinds bool, int,
  float and string. The source's default branch covers every other flag type; here it is
  `StringFlag`.
- The error texts built with `fmt.Errorf` are not modelled. Errors are values that carry
  the input and the flag.
- Strconv.Atoi: models Go's `int` as 64 bits wide.
- Storage.ListAuthorizations: models the callback's append as `SelectAll` over the records
  the walk hands over, not as a slice grown inside the callback. The callback always
  continues, so the two agree.
- Storage.GetAuthorizationByToken: the engine's `Get` on the index returns no value alongside
  an error other than not-found. The model uses the empty key for it, from which the ID
  decode fails.
- Storage.GetAuthorizationByToken: ends with the corrected lookup `GetAuthorizationByID`
  (fresh decode target), not with the nil-target lookup at line 171. Over the lookup as
  written (`GetAuthorizationByIDAsWritten`, which always fails), lookup by token never
  returns a record.
- Storage.UpdateAuthorization: starts from the corrected lookup, not from the nil-target
  lookup at line 234. Over the lookup as written, every update, even of a stored record,
  returns the not-found error that wraps the lookup's failure, and writes nothing. The same
  holds for `Storage.UpdateAuthorizationPersisting`.
- Storage.DeleteAuthorization: starts from the corrected lookup, not from the nil-target
  lookup at line 296. Over the lookup as written, every delete returns no error and removes
  nothing.
- `ID.Decode` reads its key with `strconv.ParseUint` in base 16, which also accepts
  upper-case hexadecimal digits. Keys that spell the same ID in another case are not
  modelled.

## Findings

| source | as written | input that shows it | evidently intended | confidence | as-written member | corrected member |
|---|---|---|---|---|---|---|
| token/storage_auth.go:118-146 | `GetAuthorizationByID` decodes into its named result `a`, which is still a nil pointer, so `json.Unmarshal` refuses it | a healthy store holding a well-formed record under the looked-up ID: the lookup returns an invalid-encoding error instead of the record | decode into a freshly allocated `Authorization` and return it | not executed; depends on `json.Unmarshal` refusing a nil pointer | Storage.GetAuthorizationByIDAsWritten | Storage.GetAuthorizationByID |
| token/storage_auth.go:64-71 | when the record has no valid ID and `generateSafeID` fails, `CreateAuthorization` returns `nil` | a record with ID 0 and a generator that fails: the caller sees success, and nothing is stored | return the generator's error | not executed | Storage.CreateAuthorization | Storage.CreateAuthorizationChecked |
| token/storage_auth.go:242-289 | `UpdateAuthorization` encodes the record before applying the edits and writes that encoding back | with the lookup decoding into a fresh record (with the nil-target lookup as written every update fails before this point), an update setting a new description: the returned record has it, but a later lookup returns the old description | encode the edited record and store that | not executed | Storage.UpdateLosesEdits | Storage.UpdatePersistingStoresEdits |
