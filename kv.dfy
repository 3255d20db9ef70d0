/**
 * The transaction the store works in: the two buckets it owns, as maps, and the engine's
 * failures. The primary bucket maps an encoded ID to the JSON value of a record, the index
 * bucket maps a token (its bytes) to an encoded ID. Which engine calls fail is fixed for a
 * transaction (`faults`); a failing call reports `StorageFault(op, bucket)`.
 *
 * A cursor visits the primary bucket's entries in ascending lexicographic key order. Given a
 * hint predicate, an engine that honours hints skips the entries the hint rejects; one that
 * does not visits them all.
 */
module Kv {
  import opened Wrappers
  import opened Ids
  import opened Auth
  import opened Json

  datatype Faults = Faults(failing: set<(Op, BucketName)>)

  datatype Entry = Entry(key: Bytes, value: Doc)

  type Hint = (Bytes, Doc) -> bool

  /** Strict lexicographic order on byte strings. */
  predicate Less(a: Bytes, b: Bytes)
    decreases |a|
  {
    if a == [] then b != []
    else b != [] && (a[0] < b[0] || (a[0] == b[0] && Less(a[1..], b[1..])))
  }

  lemma {:induction false} LessIrreflexive(a: Bytes)
    ensures !Less(a, a)
    decreases |a|
  {
    if a != [] { LessIrreflexive(a[1..]); }
  }

  lemma {:induction false} LessAsymmetric(a: Bytes, b: Bytes)
    requires Less(a, b)
    ensures !Less(b, a)
    decreases |a|
  {
    if a != [] && a[0] == b[0] && Less(a[1..], b[1..]) { LessAsymmetric(a[1..], b[1..]); }
  }

  lemma {:induction false} LessTotal(a: Bytes, b: Bytes)
    requires a != b
    ensures Less(a, b) || Less(b, a)
    decreases |a|
  {
    if a != [] && b != [] && a[0] == b[0] {
      assert a[1..] != b[1..] by { assert a == [a[0]] + a[1..] && b == [b[0]] + b[1..]; }
      LessTotal(a[1..], b[1..]);
    }
  }

  predicate IsLeast(k: Bytes, s: set<Bytes>)
  {
    k in s && forall j | j in s && j != k :: Less(k, j)
  }

  lemma {:induction false} LeastExists(s: set<Bytes>)
    requires s != {}
    ensures exists k :: IsLeast(k, s)
    decreases |s|
  {
    assert (forall k :: k !in s) ==> s == {};
    var x :| x in s;
    var rest := s - {x};
    if rest == {} {
      assert s == {x};
      assert IsLeast(x, s);
    } else {
      LeastExists(rest);
      var m :| IsLeast(m, rest);
      assert forall j | j in s :: j == x || j in rest;
      LessTotal(x, m);
      if Less(x, m) {
        forall j | j in s && j != x ensures Less(x, j) {
          if j != m { LessTransitive(x, m, j); }
        }
        assert IsLeast(x, s);
      } else {
        assert IsLeast(m, s);
      }
    }
  }

  lemma {:induction false} LessTransitive(a: Bytes, b: Bytes, c: Bytes)
    requires Less(a, b) && Less(b, c)
    ensures Less(a, c)
    decreases |a|
  {
    if a != [] && a[0] == b[0] && b[0] == c[0] {
      LessTransitive(a[1..], b[1..], c[1..]);
    }
  }

  function Least(s: set<Bytes>): (k: Bytes)
    requires s != {}
    ensures IsLeast(k, s)
  {
    LeastExists(s);
    forall a, b | IsLeast(a, s) && IsLeast(b, s) ensures a == b {
      if a != b { LessAsymmetric(a, b); }
    }
    var k :| IsLeast(k, s); k
  }

  /** The keys of `s` in ascending order. */
  function SortedKeys(s: set<Bytes>): (r: seq<Bytes>)
    ensures |r| == |s|
    ensures forall i | 0 <= i < |r| :: r[i] in s
    ensures forall k | k in s :: k in r
    ensures forall i, j | 0 <= i < j < |r| :: Less(r[i], r[j])
    decreases |s|
  {
    if s == {} then []
    else
      var k := Least(s);
      var rest := SortedKeys(s - {k});
      assert forall j | j in s :: j == k || j in s - {k};
      [k] + rest
  }

  function EntriesAt(m: map<Bytes, Doc>, ks: seq<Bytes>): (r: seq<Entry>)
    requires forall i | 0 <= i < |ks| :: ks[i] in m
    ensures |r| == |ks|
    ensures forall i | 0 <= i < |r| :: r[i] == Entry(ks[i], m[ks[i]])
  {
    if ks == [] then [] else [Entry(ks[0], m[ks[0]])] + EntriesAt(m, ks[1..])
  }

  /** Every entry of the bucket, in ascending key order. */
  function SortedEntries(m: map<Bytes, Doc>): (r: seq<Entry>)
    ensures forall i | 0 <= i < |r| :: r[i].key in m && m[r[i].key] == r[i].value
    ensures forall k | k in m :: Entry(k, m[k]) in r
    ensures forall i, j | 0 <= i < j < |r| :: Less(r[i].key, r[j].key)
  {
    var ks := SortedKeys(m.Keys);
    var r := EntriesAt(m, ks);
    assert forall k | k in m :: Entry(k, m[k]) in r by {
      forall k | k in m ensures Entry(k, m[k]) in r {
        var i :| 0 <= i < |ks| && ks[i] == k;
        assert r[i] == Entry(k, m[k]);
      }
    }
    r
  }

  /** The entries a hint lets through, in their original order. */
  function Keep(es: seq<Entry>, h: Hint): (r: seq<Entry>)
    ensures |r| <= |es|
    ensures forall e | e in r :: e in es && h(e.key, e.value)
    ensures forall e | e in es && h(e.key, e.value) :: e in r
    ensures multiset(r) <= multiset(es)
  {
    if es == [] then []
    else
      assert es == [es[0]] + es[1..];
      if h(es[0].key, es[0].value) then [es[0]] + Keep(es[1..], h)
      else Keep(es[1..], h)
  }

  predicate StrictlySorted(es: seq<Entry>)
  {
    forall i, j | 0 <= i < j < |es| :: Less(es[i].key, es[j].key)
  }

  /** Every key is above `k`. */
  predicate Above(k: Bytes, es: seq<Entry>)
  {
    forall i | 0 <= i < |es| :: Less(k, es[i].key)
  }

  lemma {:induction false} KeepAbove(k: Bytes, es: seq<Entry>, h: Hint)
    requires Above(k, es)
    ensures Above(k, Keep(es, h))
  {
    if es != [] {
      assert Above(k, es[1..]) by {
        forall i | 0 <= i < |es| - 1 ensures Less(k, es[1..][i].key) { assert es[1..][i] == es[i + 1]; }
      }
      KeepAbove(k, es[1..], h);
    }
  }

  lemma SortedTail(es: seq<Entry>)
    requires es != [] && StrictlySorted(es)
    ensures StrictlySorted(es[1..]) && Above(es[0].key, es[1..])
  {
    var rest := es[1..];
    forall i, j | 0 <= i < j < |rest| ensures Less(rest[i].key, rest[j].key) {
      assert rest[i] == es[i + 1] && rest[j] == es[j + 1];
    }
    forall i | 0 <= i < |rest| ensures Less(es[0].key, rest[i].key) {
      assert rest[i] == es[i + 1];
    }
  }

  lemma SortedCons(e: Entry, es: seq<Entry>)
    requires StrictlySorted(es) && Above(e.key, es)
    ensures StrictlySorted([e] + es)
  {
    var r := [e] + es;
    forall i, j | 0 <= i < j < |r| ensures Less(r[i].key, r[j].key) {
      assert r[j] == es[j - 1];
      if i > 0 {
        assert r[i] == es[i - 1];
      }
    }
  }

  /** Keeping the entries a hint accepts leaves entries in ascending key order in that order. */
  lemma {:induction false} KeepSorted(es: seq<Entry>, h: Hint)
    requires StrictlySorted(es)
    ensures StrictlySorted(Keep(es, h))
  {
    if es != [] {
      SortedTail(es);
      KeepSorted(es[1..], h);
      if h(es[0].key, es[0].value) {
        KeepAbove(es[0].key, es[1..], h);
        SortedCons(es[0], Keep(es[1..], h));
      }
    }
  }

  class Tx {
    var auths: map<Bytes, Doc>
    var authIndex: map<string, Bytes>
    const faults: Faults
    const honoursHints: bool

    constructor (auths: map<Bytes, Doc>, authIndex: map<string, Bytes>, faults: Faults, honoursHints: bool)
      ensures this.auths == auths && this.authIndex == authIndex
      ensures this.faults == faults && this.honoursHints == honoursHints
    {
      this.auths := auths;
      this.authIndex := authIndex;
      this.faults := faults;
      this.honoursHints := honoursHints;
    }

    function Fault(op: Op, b: BucketName): (r: Option<Error>)
      ensures r.Some? <==> (op, b) in faults.failing
      ensures r.Some? ==> r.value == StorageFault(op, b)
    {
      if (op, b) in faults.failing then Some(StorageFault(op, b)) else None
    }

    /** tx.Bucket(b): the error opening the bucket, if any. */
    function Bucket(b: BucketName): Option<Error>
    {
      Fault(OpBucket, b)
    }

    /** Get on the primary bucket: the value, KeyNotFound, or the engine's failure. */
    function GetAuth(k: Bytes): (r: Result<Doc, Error>)
      reads this
      ensures (OpGet, AuthBucket) in faults.failing ==> r == Failure(StorageFault(OpGet, AuthBucket))
      ensures (OpGet, AuthBucket) !in faults.failing ==>
        r == if k in auths then Success(auths[k]) else Failure(KeyNotFound)
    {
      match Fault(OpGet, AuthBucket)
      case Some(e) => Failure(e)
      case None => if k in auths then Success(auths[k]) else Failure(KeyNotFound)
    }

    /** Get on the index bucket. */
    function GetIndex(t: string): (r: Result<Bytes, Error>)
      reads this
      ensures (OpGet, AuthIndexBucket) in faults.failing ==> r == Failure(StorageFault(OpGet, AuthIndexBucket))
      ensures (OpGet, AuthIndexBucket) !in faults.failing ==>
        r == if t in authIndex then Success(authIndex[t]) else Failure(KeyNotFound)
    {
      match Fault(OpGet, AuthIndexBucket)
      case Some(e) => Failure(e)
      case None => if t in authIndex then Success(authIndex[t]) else Failure(KeyNotFound)
    }

    method PutAuth(k: Bytes, v: Doc) returns (err: Option<Error>)
      modifies this
      ensures err == Fault(OpPut, AuthBucket)
      ensures auths == if err.None? then old(auths)[k := v] else old(auths)
      ensures authIndex == old(authIndex)
    {
      err := Fault(OpPut, AuthBucket);
      if err.None? {
        auths := auths[k := v];
      }
    }

    method PutIndex(t: string, k: Bytes) returns (err: Option<Error>)
      modifies this
      ensures err == Fault(OpPut, AuthIndexBucket)
      ensures authIndex == if err.None? then old(authIndex)[t := k] else old(authIndex)
      ensures auths == old(auths)
    {
      err := Fault(OpPut, AuthIndexBucket);
      if err.None? {
        authIndex := authIndex[t := k];
      }
    }

    method DeleteAuth(k: Bytes) returns (err: Option<Error>)
      modifies this
      ensures err == Fault(OpDelete, AuthBucket)
      ensures auths == if err.None? then old(auths) - {k} else old(auths)
      ensures authIndex == old(authIndex)
    {
      err := Fault(OpDelete, AuthBucket);
      if err.None? {
        auths := auths - {k};
      }
    }

    method DeleteIndex(t: string) returns (err: Option<Error>)
      modifies this
      ensures err == Fault(OpDelete, AuthIndexBucket)
      ensures authIndex == if err.None? then old(authIndex) - {t} else old(authIndex)
      ensures auths == old(auths)
    {
      err := Fault(OpDelete, AuthIndexBucket);
      if err.None? {
        authIndex := authIndex - {t};
      }
    }

    /**
     * b.Cursor(), or b.Cursor(WithCursorHintPredicate(h)): the entries a forward pass from
     * the first key visits.
     */
    function Cursor(hint: Option<Hint>): (r: Result<seq<Entry>, Error>)
      reads this
      ensures (OpCursor, AuthBucket) in faults.failing ==> r == Failure(StorageFault(OpCursor, AuthBucket))
      ensures (OpCursor, AuthBucket) !in faults.failing ==> r.Success?
      ensures r.Success? ==> r.value == if hint.Some? && honoursHints then Keep(SortedEntries(auths), hint.value)
                                         else SortedEntries(auths)
    {
      match Fault(OpCursor, AuthBucket)
      case Some(e) => Failure(e)
      case None =>
        var es := SortedEntries(auths);
        Success(if hint.Some? && honoursHints then Keep(es, hint.value) else es)
    }
  }

  /** A cursor, hinted or not, visits the entries in strictly ascending key order. */
  lemma CursorInKeyOrder(tx: Tx, hint: Option<Hint>)
    requires tx.Cursor(hint).Success?
    ensures StrictlySorted(tx.Cursor(hint).value)
  {
    if hint.Some? && tx.honoursHints {
      KeepSorted(SortedEntries(tx.auths), hint.value);
    }
  }
}
