/**
 * encodeAuthorization and decodeAuthorization: the status rule around the JSON codec.
 *
 * On the write path a missing status becomes Active in the caller's record and any status
 * other than Active, Inactive or missing is refused before anything is serialised. On the
 * read path a missing status is again read as Active, for records written before the
 * field existed. The record returned with the encoding is the caller's record after the
 * in-place rewrite.
 */
module Codec {
  import opened Wrappers
  import opened Auth
  import opened Json

  predicate LegalStatus(s: string)
  {
    s == Active || s == Inactive
  }

  datatype Encoded = Encoded(record: Authorization, bytes: Result<Doc, Error>)

  function EncodeAuthorization(a: Authorization): (r: Encoded)
    ensures r.record == (if a.status == "" then a.(status := Active) else a)
    ensures !LegalStatus(a.status) && a.status != "" <==> r.bytes == Failure(UnknownStatus)
    ensures r.bytes.Success? ==> LegalStatus(r.record.status) && r.bytes == Marshal(r.record)
  {
    if LegalStatus(a.status) then Encoded(a, Marshal(a))
    else if a.status == "" then
      var a' := a.(status := Active);
      Encoded(a', Marshal(a'))
    else Encoded(a, Failure(UnknownStatus))
  }

  function DecodeAuthorization(d: Doc, into: Option<Authorization>): (r: Result<Authorization, Error>)
    ensures r.Failure? <==> Unmarshal(d, into).Failure?
    ensures r.Failure? ==> r == Unmarshal(d, into)
    ensures r.Success? ==> r.value.status != ""
    ensures r.Success? ==> r.value == var u := Unmarshal(d, into).value;
                                      u.(status := if u.status == "" then Active else u.status)
  {
    match Unmarshal(d, into)
    case Failure(e) => Failure(e)
    case Success(a) => Success(if a.status == "" then a.(status := Active) else a)
  }

  /**
   * The read path's status rule: a stored Active or Inactive is kept and a stored empty
   * status, or one left out over an empty target, reads as Active. So every record decoded
   * from such a value has a legal status.
   */
  lemma DecodedStatus(d: Doc, into: Authorization)
    requires DecodeAuthorization(d, Some(into)).Success?
    requires d.status.Present? ==> LegalStatus(d.status.value) || d.status.value == ""
    requires d.status.Absent? ==> LegalStatus(into.status) || into.status == ""
    ensures var s := DecodeAuthorization(d, Some(into)).value.status;
      LegalStatus(s)
      && (d.status.Present? && d.status.value != "" ==> s == d.status.value)
      && (d.status == Present("") || (d.status.Absent? && into.status == "") ==> s == Active)
  {
  }

  /**
   * Round trip: decoding what encodeAuthorization wrote into an empty record gives back the
   * record as encodeAuthorization left it, with an empty status normalised to Active.
   */
  lemma DecodeEncode(a: Authorization)
    requires EncodeAuthorization(a).bytes.Success?
    ensures DecodeAuthorization(EncodeAuthorization(a).bytes.value, Some(Empty))
         == Success(EncodeAuthorization(a).record)
  {
    var e := EncodeAuthorization(a);
    UnmarshalMarshal(e.record, Empty);
  }

  /** encodeAuthorization succeeds exactly for a legal or empty status and valid IDs. */
  lemma EncodeSucceeds(a: Authorization)
    ensures EncodeAuthorization(a).bytes.Success?
        <==> (LegalStatus(a.status) || a.status == "") && Encodable(a)
  {
  }
}
