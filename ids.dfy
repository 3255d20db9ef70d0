/**
 * Platform identifiers. An ID is an unsigned 64-bit integer, valid when nonzero.
 * `Encode` turns a valid ID into a fixed-width, order-preserving key and `Decode` reads such
 * a key back, rejecting a wrong length and the zero ID. The platform's own encoding writes
 * the sixteen lowercase hexadecimal characters of the ID; the key here is the eight bytes,
 * most significant first, that those characters spell. Width, injectivity, key order and
 * the two errors are the same either way.
 */
module Ids {
  import opened Wrappers

  type Byte = b: nat | b < 256
  type Bytes = seq<Byte>

  const IDLength: nat := 8
  const IDLimit: nat := 0x1_0000_0000_0000_0000

  type ID = n: nat | n < IDLimit

  predicate Valid(id: ID) { id != 0 }

  datatype IDError = InvalidIDLength | InvalidID

  /** The value of a byte string read most significant byte first. */
  function Value(b: Bytes): nat
  {
    if b == [] then 0 else Value(b[..|b| - 1]) * 256 + b[|b| - 1]
  }

  function Pow256(w: nat): nat
  {
    if w == 0 then 1 else 256 * Pow256(w - 1)
  }

  /** The `w` low-order bytes of `n`, most significant first. */
  function Digits(n: nat, w: nat): (r: Bytes)
    ensures |r| == w
  {
    if w == 0 then [] else Digits(n / 256, w - 1) + [n % 256]
  }

  lemma {:induction false} ValueBound(b: Bytes)
    ensures Value(b) < Pow256(|b|)
  {
    if b != [] {
      ValueBound(b[..|b| - 1]);
    }
  }

  lemma {:induction false} ValueOfDigits(n: nat, w: nat)
    requires n < Pow256(w)
    ensures Value(Digits(n, w)) == n
  {
    if w > 0 {
      var d := Digits(n, w);
      assert d[..|d| - 1] == Digits(n / 256, w - 1);
      ValueOfDigits(n / 256, w - 1);
    }
  }

  lemma {:induction false} DigitsOfValue(b: Bytes)
    ensures Digits(Value(b), |b|) == b
  {
    if b != [] {
      var p := b[..|b| - 1];
      assert Value(b) / 256 == Value(p);
      assert Value(b) % 256 == b[|b| - 1];
      DigitsOfValue(p);
      assert b == p + [b[|b| - 1]];
    }
  }

  lemma IDLimitIsPow()
    ensures Pow256(IDLength) == IDLimit
  {
    assert Pow256(8) == 0x1_0000_0000_0000_0000 by {
      assert Pow256(1) == 256;
      assert Pow256(2) == 65536;
      assert Pow256(4) == 4294967296;
    }
  }

  /** ID.Encode: an invalid ID cannot be encoded. */
  function Encode(id: ID): (r: Result<Bytes, IDError>)
    ensures r.Success? <==> Valid(id)
    ensures r.Success? ==> |r.value| == IDLength
  {
    if !Valid(id) then Failure(InvalidID) else Success(Digits(id, IDLength))
  }

  /** ID.Decode: the key must have the fixed width and denote a nonzero ID. */
  function Decode(b: Bytes): (r: Result<ID, IDError>)
    ensures r.Success? ==> Valid(r.value)
    ensures |b| != IDLength ==> r == Failure(InvalidIDLength)
  {
    if |b| != IDLength then Failure(InvalidIDLength)
    else
      ValueBound(b);
      IDLimitIsPow();
      var n: ID := Value(b);
      if n == 0 then Failure(InvalidID) else Success(n)
  }

  /** Decoding an encoded ID gives the ID back. */
  lemma DecodeEncode(id: ID)
    requires Valid(id)
    ensures Decode(Encode(id).value) == Success(id)
  {
    IDLimitIsPow();
    ValueOfDigits(id, IDLength);
  }

  /** Encoding a decoded key gives the key back, so keys and valid IDs correspond one to one. */
  lemma EncodeDecode(b: Bytes)
    requires Decode(b).Success?
    ensures Encode(Decode(b).value) == Success(b)
  {
    DigitsOfValue(b);
  }

  /** Distinct valid IDs have distinct keys. */
  lemma EncodeInjective(a: ID, b: ID)
    requires Valid(a) && Valid(b) && Encode(a) == Encode(b)
    ensures a == b
  {
    DecodeEncode(a);
    DecodeEncode(b);
  }
}
