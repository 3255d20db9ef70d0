/**
 * Feature-flag overrides given as one configuration string "k1:v1,k2:v2,...": parsing it
 * into a map, and resolving requested flags to their overridden or default values.
 */
module Override {
  import opened Wrappers
  import Strconv

  /** The delimiter between pairs. */
  const Comma: char := ','
  /** The assignment operator inside a pair. */
  const Colon: char := ':'

  // ---------------------------------------------------------------- strings.Split

  /** strings.Split with a one-character separator: the pieces between the separators, in order. */
  function Split(s: string, sep: char): (r: seq<string>)
    ensures |r| >= 1
    ensures forall i | 0 <= i < |r| :: sep !in r[i]
  {
    if s == [] then [[]]
    else
      var rest := Split(s[1..], sep);
      if s[0] == sep then [[]] + rest else [[s[0]] + rest[0]] + rest[1..]
  }

  /** strings.Join with a one-character separator. */
  function Join(ps: seq<string>, sep: char): string
    requires |ps| >= 1
  {
    if |ps| == 1 then ps[0] else ps[0] + [sep] + Join(ps[1..], sep)
  }

  /** How often `c` occurs in `s`. */
  function Count(s: string, c: char): nat
  {
    if s == [] then 0 else (if s[0] == c then 1 else 0) + Count(s[1..], c)
  }

  /** Joining the pieces with the separator gives back the string. */
  lemma {:induction false} JoinSplit(s: string, sep: char)
    ensures Join(Split(s, sep), sep) == s
  {
    if s != [] {
      JoinSplit(s[1..], sep);
      var rest := Split(s[1..], sep);
      if s[0] != sep && |rest| > 1 {
        assert ([[s[0]] + rest[0]] + rest[1..])[1..] == rest[1..];
        assert rest[1..] == rest[1..][..];
        assert Join(rest, sep) == rest[0] + [sep] + Join(rest[1..], sep);
      } else if s[0] == sep {
        assert ([[]] + rest)[1..] == rest;
      }
    }
  }

  /** There is one more piece than there are separators. */
  lemma {:induction false} SplitCount(s: string, sep: char)
    ensures |Split(s, sep)| == Count(s, sep) + 1
  {
    if s != [] {
      SplitCount(s[1..], sep);
    }
  }

  /** Splitting a join of separator-free pieces gives back the pieces. */
  lemma {:induction false} SplitJoin(ps: seq<string>, sep: char)
    requires |ps| >= 1
    requires forall i | 0 <= i < |ps| :: sep !in ps[i]
    ensures Split(Join(ps, sep), sep) == ps
  {
    if |ps| == 1 {
      SplitPiece(ps[0], sep, []);
      assert ps[0] + [] == ps[0];
    } else {
      SplitJoin(ps[1..], sep);
      var t := [sep] + Join(ps[1..], sep);
      SplitPiece(ps[0], sep, t);
      assert t[1..] == Join(ps[1..], sep);
      assert Join(ps, sep) == ps[0] + t;
      assert ps == [ps[0]] + ps[1..];
    }
  }

  /** A separator-free prefix is glued to the first piece of what follows it. */
  lemma {:induction false} SplitPiece(p: string, sep: char, t: string)
    requires sep !in p
    requires t == [] || t[0] == sep
    ensures Split(p + t, sep) == (if t == [] then [p] else [p] + Split(t[1..], sep))
  {
    if p != [] {
      assert (p + t)[1..] == p[1..] + t;
      SplitPiece(p[1..], sep, t);
      assert [p[0]] + p[1..] == p;
    } else {
      assert p + t == t;
    }
  }

  /** A separator-free string is one piece; one followed by the separator is the first of several. */
  lemma SplitAt(p: string, sep: char, q: string)
    requires sep !in p
    ensures Split(p, sep) == [p]
    ensures Split(p + [sep] + q, sep) == [p] + Split(q, sep)
  {
    SplitPiece(p, sep, []);
    assert p + [] == p;
    SplitPiece(p, sep, [sep] + q);
    assert p + [sep] + q == p + ([sep] + q);
    assert ([sep] + q)[1..] == q;
  }

  // ---------------------------------------------------------------- parse

  datatype Flag =
    | BoolFlag(key: string, boolDefault: bool)
    | IntFlag(key: string, intDefault: int)
    | FloatFlag(key: string, floatDefault: real)
    | StringFlag(key: string, stringDefault: string)

  datatype Error =
    | Malformed(config: string)
    | Coercing(input: string, flag: Flag, cause: Strconv.NumError)

  /** The left side of a pair. */
  function KeyOf(p: string): string
  {
    Split(p, Colon)[0]
  }

  /** A pair is well formed when it splits on the colon into exactly two parts. */
  predicate WellFormedPair(p: string)
  {
    |Split(p, Colon)| == 2
  }

  /** The right side of a well-formed pair. */
  function ValueOf(p: string): string
    requires WellFormedPair(p)
  {
    Split(p, Colon)[1]
  }

  /** The map the pairs build, one pair after the other, or None at a malformed pair. */
  function ParsePairs(pairs: seq<string>): (r: Option<map<string, string>>)
    ensures r.Some? ==> |r.value| <= |pairs|
  {
    if pairs == [] then Some(map[])
    else
      var last := pairs[|pairs| - 1];
      match ParsePairs(pairs[..|pairs| - 1])
      case None => None
      case Some(m) => if WellFormedPair(last) then Some(m[KeyOf(last) := ValueOf(last)]) else None
  }

  /** What parse computes for the configuration string `s`. */
  function ParseSpec(s: string): (r: Result<map<string, string>, Error>)
    ensures r.Failure? ==> r.error == Malformed(s)
  {
    match ParsePairs(Split(s, Comma))
    case None => Failure(Malformed(s))
    case Some(m) => Success(m)
  }

  /** parse. */
  method Parse(s: string) returns (r: Result<map<string, string>, Error>)
    ensures r == ParseSpec(s)
  {
    var pairs := Split(s, Comma);
    var m: map<string, string> := map[];
    if |pairs| < 1 {
      return Failure(Malformed(s));
    }
    for i := 0 to |pairs|
      invariant ParsePairs(pairs[..i]) == Some(m)
    {
      assert pairs[..i + 1][..i] == pairs[..i];
      var split := Split(pairs[i], Colon);
      if |split| != 2 {
        PairsPrefixFails(pairs, i + 1);
        return Failure(Malformed(s));
      }
      m := m[split[0] := split[1]];
    }
    assert pairs[..|pairs|] == pairs;
    return Success(m);
  }

  /** Once a prefix of the pairs is malformed, so is the whole. */
  lemma {:induction false} PairsPrefixFails(pairs: seq<string>, n: nat)
    requires n <= |pairs| && ParsePairs(pairs[..n]).None?
    ensures ParsePairs(pairs).None?
    decreases |pairs| - n
  {
    if n < |pairs| {
      assert pairs[..n + 1][..n] == pairs[..n];
      PairsPrefixFails(pairs, n + 1);
    } else {
      assert pairs[..n] == pairs;
    }
  }

  /** The pairs parse exactly when every one of them is well formed. */
  lemma {:induction false} ParsePairsSucceeds(pairs: seq<string>)
    ensures ParsePairs(pairs).Some? <==> forall i | 0 <= i < |pairs| :: WellFormedPair(pairs[i])
  {
    if pairs != [] {
      var init := pairs[..|pairs| - 1];
      ParsePairsSucceeds(init);
      assert forall i | 0 <= i < |init| :: init[i] == pairs[i];
    }
  }

  /** Some pair has `k` as its left side. */
  predicate Names(pairs: seq<string>, k: string)
  {
    exists i :: 0 <= i < |pairs| && KeyOf(pairs[i]) == k
  }

  /** No later pair has the same left side as pair `i`. */
  predicate LastOfKey(pairs: seq<string>, i: int)
    requires 0 <= i < |pairs|
  {
    forall j | i < j < |pairs| :: KeyOf(pairs[j]) != KeyOf(pairs[i])
  }

  lemma NamesSnoc(pairs: seq<string>, k: string)
    requires pairs != []
    ensures Names(pairs, k) <==> Names(pairs[..|pairs| - 1], k) || KeyOf(pairs[|pairs| - 1]) == k
  {
    var init := pairs[..|pairs| - 1];
    if Names(pairs, k) && KeyOf(pairs[|pairs| - 1]) != k {
      var i :| 0 <= i < |pairs| && KeyOf(pairs[i]) == k;
      assert KeyOf(init[i]) == k;
    }
    if Names(init, k) {
      var i :| 0 <= i < |init| && KeyOf(init[i]) == k;
      assert KeyOf(pairs[i]) == k;
    }
  }

  /** A parsed map's keys are exactly the pairs' left sides. */
  lemma {:induction false} ParsePairsKeys(pairs: seq<string>)
    requires ParsePairs(pairs).Some?
    ensures forall k :: k in ParsePairs(pairs).value <==> Names(pairs, k)
  {
    if pairs != [] {
      var init := pairs[..|pairs| - 1];
      ParsePairsKeys(init);
      forall k ensures k in ParsePairs(pairs).value <==> Names(pairs, k) {
        NamesSnoc(pairs, k);
      }
    }
  }

  /** Each key of a parsed map holds the right side of the last pair naming it. */
  lemma {:induction false} ParsePairsValues(pairs: seq<string>)
    requires ParsePairs(pairs).Some?
    ensures forall i | 0 <= i < |pairs| && LastOfKey(pairs, i) ::
      WellFormedPair(pairs[i]) && KeyOf(pairs[i]) in ParsePairs(pairs).value
      && ParsePairs(pairs).value[KeyOf(pairs[i])] == ValueOf(pairs[i])
  {
    ParsePairsSucceeds(pairs);
    if pairs != [] {
      var init := pairs[..|pairs| - 1];
      var last := pairs[|pairs| - 1];
      ParsePairsValues(init);
      forall i | 0 <= i < |pairs| && LastOfKey(pairs, i)
        ensures KeyOf(pairs[i]) in ParsePairs(pairs).value && ParsePairs(pairs).value[KeyOf(pairs[i])] == ValueOf(pairs[i])
      {
        if i < |init| {
          assert init[i] == pairs[i];
          assert KeyOf(last) != KeyOf(pairs[i]);
          assert LastOfKey(init, i);
        }
      }
    }
  }

  /** Some pair is not of the form `key:value`. */
  predicate SomeMalformed(pairs: seq<string>)
  {
    exists i :: 0 <= i < |pairs| && !WellFormedPair(pairs[i])
  }

  /** parse fails, with the malformed-string error, exactly when some pair is not `key:value`. */
  lemma ParseRejectsMalformedPairs(s: string)
    ensures ParseSpec(s).Failure? <==> SomeMalformed(Split(s, Comma))
    ensures ParseSpec(s).Failure? ==> ParseSpec(s).error == Malformed(s)
  {
    ParsePairsSucceeds(Split(s, Comma));
  }

  /** The keys of a parsed configuration are the pairs' left sides; a repeated key takes its last value. */
  lemma ParseContents(s: string)
    requires ParseSpec(s).Success?
    ensures var pairs := Split(s, Comma);
      && (forall k :: k in ParseSpec(s).value <==> Names(pairs, k))
      && (forall i | 0 <= i < |pairs| && LastOfKey(pairs, i) ::
            WellFormedPair(pairs[i]) && KeyOf(pairs[i]) in ParseSpec(s).value
            && ParseSpec(s).value[KeyOf(pairs[i])] == ValueOf(pairs[i]))
  {
    ParsePairsKeys(Split(s, Comma));
    ParsePairsValues(Split(s, Comma));
  }

  /** A pair with two colons is malformed. */
  lemma ParseRejectsTwoColons()
    ensures ParseSpec("a:b:c") == Failure(Malformed("a:b:c"))
  {
    SplitAt("a", Colon, "b:c");
    SplitAt("b", Colon, "c");
    SplitAt("c", Colon, "");
    assert "a:b:c" == "a" + [Colon] + "b:c" && "b:c" == "b" + [Colon] + "c";
    SplitAt("a:b:c", Comma, "");
    assert ParsePairs(["a:b:c"]) == None;
  }

  /** A pair without a colon is malformed. */
  lemma ParseRejectsBareKey()
    ensures ParseSpec("a") == Failure(Malformed("a"))
  {
    SplitAt("a", Comma, "");
    SplitAt("a", Colon, "");
    assert ParsePairs(["a"]) == None;
  }

  /** The empty string is one empty pair, which is malformed. */
  lemma ParseRejectsEmpty()
    ensures ParseSpec("") == Failure(Malformed(""))
  {
    SplitAt("", Comma, "");
    SplitAt("", Colon, "");
    assert ParsePairs([""]) == None;
  }

  /** A well-formed pair splits into its key and value. */
  lemma PairParts(k: string, v: string)
    requires Colon !in k && Colon !in v
    ensures WellFormedPair(k + [Colon] + v) && KeyOf(k + [Colon] + v) == k && ValueOf(k + [Colon] + v) == v
  {
    SplitAt(k, Colon, v);
    SplitAt(v, Colon, "");
  }

  /** The pieces of "p,q" for comma-free p and q. */
  lemma TwoPieces(p: string, q: string)
    requires Comma !in p && Comma !in q
    ensures Split(p + [Comma] + q, Comma) == [p, q]
  {
    SplitAt(p, Comma, q);
    SplitAt(q, Comma, "");
  }

  /** Two pairs give two keys. */
  lemma ParseTwoPairs()
    ensures ParseSpec("a:1,b:2") == Success(map["a" := "1", "b" := "2"])
  {
    assert "a:1,b:2" == "a:1" + [Comma] + "b:2";
    TwoPieces("a:1", "b:2");
    assert "a:1" == "a" + [Colon] + "1" && "b:2" == "b" + [Colon] + "2";
    PairParts("a", "1");
    PairParts("b", "2");
    assert ["a:1", "b:2"][..1] == ["a:1"];
    assert ["a:1"][..0] == [];
    assert ParsePairs(["a:1"]) == Some(map["a" := "1"]);
    assert ParsePairs(["a:1", "b:2"]) == Some(map["a" := "1"]["b" := "2"]);
  }

  /** A repeated key keeps the later value. */
  lemma ParseRepeatedKey()
    ensures ParseSpec("a:1,a:2") == Success(map["a" := "2"])
  {
    assert "a:1,a:2" == "a:1" + [Comma] + "a:2";
    TwoPieces("a:1", "a:2");
    assert "a:1" == "a" + [Colon] + "1" && "a:2" == "a" + [Colon] + "2";
    PairParts("a", "1");
    PairParts("a", "2");
    assert ["a:1", "a:2"][..1] == ["a:1"];
    assert ["a:1"][..0] == [];
    assert ParsePairs(["a:1"]) == Some(map["a" := "1"]);
    assert ParsePairs(["a:1", "a:2"]) == Some(map["a" := "1"]["a" := "2"]);
    assert map["a" := "1"]["a" := "2"] == map["a" := "2"];
  }

  // ---------------------------------------------------------------- Make

  /** Flagger: the overrides parsed from the configuration string. */
  datatype Flagger = Flagger(flags: map<string, string>)

  /** Make: the parsed overrides, or an empty Flagger and the parse error. */
  method Make(s: string) returns (f: Flagger, err: Option<Error>)
    ensures ParseSpec(s).Failure? ==> f == Flagger(map[]) && err == Some(ParseSpec(s).error)
    ensures ParseSpec(s).Success? ==> f == Flagger(ParseSpec(s).value) && err.None?
  {
    var flags := Parse(s);
    if flags.Failure? {
      return Flagger(map[]), Some(flags.error);
    }
    return Flagger(flags.value), None;
  }

  // ---------------------------------------------------------------- coerce and Flags

  datatype Value = BoolValue(b: bool) | IntValue(i: int) | FloatValue(x: real) | StringValue(s: string)

  /** A value of the type the flag declares. */
  predicate Typed(v: Value, flag: Flag)
  {
    match flag
    case BoolFlag(_, _) => v.BoolValue?
    case IntFlag(_, _) => v.IntValue?
    case FloatFlag(_, _) => v.FloatValue?
    case StringFlag(_, _) => v.StringValue?
  }

  /** flag.Default(). */
  function Default(flag: Flag): (r: Value)
    ensures Typed(r, flag)
  {
    match flag
    case BoolFlag(_, d) => BoolValue(d)
    case IntFlag(_, d) => IntValue(d)
    case FloatFlag(_, d) => FloatValue(d)
    case StringFlag(_, d) => StringValue(d)
  }

  /** strconv.ParseFloat(s, 64), which is not part of this model, as a parameter. */
  type FloatParser = string -> Result<real, Strconv.NumError>

  /**
   * coerce: the override read as the flag's type; a flag that is not a bool, int or float
   * flag gets the string itself.
   */
  function Coerce(s: string, flag: Flag, parseFloat: FloatParser): (r: Result<Value, Error>)
    ensures r.Success? ==> Typed(r.value, flag)
    ensures flag.StringFlag? ==> r == Success(StringValue(s))
    ensures flag.BoolFlag? ==> (r.Success? <==> Strconv.TrueSpelling(s) || Strconv.FalseSpelling(s))
    ensures flag.BoolFlag? && r.Success? ==> (r.value.b <==> Strconv.TrueSpelling(s))
    ensures flag.IntFlag? ==> (r.Success? <==> Strconv.IntSyntax(s) && Strconv.MinInt64 <= Strconv.SignedValue(s) <= Strconv.MaxInt64)
    ensures flag.IntFlag? && r.Success? ==> r.value.i == Strconv.SignedValue(s)
    ensures flag.FloatFlag? ==> (r.Success? <==> parseFloat(s).Success?)
    ensures r.Failure? ==> r.error.Coercing? && r.error.input == s && r.error.flag == flag
  {
    Strconv.AtoiCharacterized(s);
    match flag
    case BoolFlag(_, _) =>
      (match Strconv.ParseBool(s)
       case Success(b) => Success(BoolValue(b))
       case Failure(e) => Failure(Coercing(s, flag, e)))
    case IntFlag(_, _) =>
      (match Strconv.Atoi(s)
       case Success(i) => Success(IntValue(i))
       case Failure(e) => Failure(Coercing(s, flag, e)))
    case FloatFlag(_, _) =>
      (match parseFloat(s)
       case Success(x) => Success(FloatValue(x))
       case Failure(e) => Failure(Coercing(s, flag, e)))
    case StringFlag(_, _) => Success(StringValue(s))
  }

  /** The value one flag resolves to: its coerced override when there is one, else its default. */
  function Resolve(f: Flagger, flag: Flag, parseFloat: FloatParser): (r: Result<Value, Error>)
    ensures r.Success? ==> Typed(r.value, flag)
    ensures flag.key !in f.flags ==> r == Success(Default(flag))
    ensures r.Failure? ==> flag.key in f.flags && r.error.Coercing? && r.error.input == f.flags[flag.key] && r.error.flag == flag
  {
    if flag.key in f.flags then Coerce(f.flags[flag.key], flag, parseFloat) else Success(Default(flag))
  }

  /** The map Flags builds over `fs`, one flag after the other, or the first coercion error. */
  function Resolution(f: Flagger, fs: seq<Flag>, parseFloat: FloatParser): Result<map<string, Value>, Error>
  {
    if fs == [] then Success(map[])
    else
      var last := fs[|fs| - 1];
      match Resolution(f, fs[..|fs| - 1], parseFloat)
      case Failure(e) => Failure(e)
      case Success(m) =>
        match Resolve(f, last, parseFloat)
        case Failure(e) => Failure(e)
        case Success(v) => Success(m[last.key := v])
  }

  /** The flags Flags resolves: those requested, or the whole registry when none are. */
  function Requested(requested: seq<Flag>, registry: seq<Flag>): seq<Flag>
  {
    if |requested| == 0 then registry else requested
  }

  /**
   * Flagger.Flags. `registry` stands for feature.Flags(), the registry of every flag, which
   * is not part of this model.
   */
  method Flags(f: Flagger, requested: seq<Flag>, registry: seq<Flag>, parseFloat: FloatParser)
    returns (r: Result<map<string, Value>, Error>)
    ensures r == Resolution(f, Requested(requested, registry), parseFloat)
  {
    var flags := requested;
    if |flags| == 0 {
      flags := registry;
    }
    var m: map<string, Value> := map[];
    for i := 0 to |flags|
      invariant Resolution(f, flags[..i], parseFloat) == Success(m)
    {
      assert flags[..i + 1][..i] == flags[..i];
      var flag := flags[i];
      if flag.key in f.flags {
        var v := Coerce(f.flags[flag.key], flag, parseFloat);
        if v.Failure? {
          ResolutionPrefixFails(f, flags, i + 1, parseFloat);
          return Failure(v.error);
        }
        m := m[flag.key := v.value];
      } else {
        m := m[flag.key := Default(flag)];
      }
    }
    assert flags[..|flags|] == flags;
    return Success(m);
  }

  /** Once a prefix of the flags fails, the whole resolution fails with the same error. */
  lemma {:induction false} ResolutionPrefixFails(f: Flagger, fs: seq<Flag>, n: nat, parseFloat: FloatParser)
    requires n <= |fs| && Resolution(f, fs[..n], parseFloat).Failure?
    ensures Resolution(f, fs, parseFloat) == Resolution(f, fs[..n], parseFloat)
    decreases |fs| - n
  {
    if n < |fs| {
      assert fs[..n + 1][..n] == fs[..n];
      ResolutionPrefixFails(f, fs, n + 1, parseFloat);
    } else {
      assert fs[..n] == fs;
    }
  }

  /** The flags whose override does not coerce. */
  predicate FailsAt(f: Flagger, fs: seq<Flag>, i: int, parseFloat: FloatParser)
    requires 0 <= i < |fs|
  {
    Resolve(f, fs[i], parseFloat).Failure?
  }

  /**
   * Flags fails exactly when some overridden flag's override does not coerce, and then with
   * the error of the first such flag.
   */
  lemma {:induction false} ResolutionFails(f: Flagger, fs: seq<Flag>, parseFloat: FloatParser)
    ensures Resolution(f, fs, parseFloat).Failure? <==> exists i :: 0 <= i < |fs| && FailsAt(f, fs, i, parseFloat)
    ensures forall i | 0 <= i < |fs| && FailsAt(f, fs, i, parseFloat) && (forall j | 0 <= j < i :: !FailsAt(f, fs, j, parseFloat)) ::
      Resolution(f, fs, parseFloat) == Failure(Resolve(f, fs[i], parseFloat).error)
  {
    if fs != [] {
      var init := fs[..|fs| - 1];
      var n := |fs| - 1;
      ResolutionFails(f, init, parseFloat);
      assert forall i | 0 <= i < |init| :: init[i] == fs[i];
      assert forall i | 0 <= i < |init| :: FailsAt(f, init, i, parseFloat) == FailsAt(f, fs, i, parseFloat);
      if Resolution(f, fs, parseFloat).Failure? {
        if Resolution(f, init, parseFloat).Failure? {
          var i :| 0 <= i < |init| && FailsAt(f, init, i, parseFloat);
          assert FailsAt(f, fs, i, parseFloat);
        } else {
          assert FailsAt(f, fs, n, parseFloat);
        }
      }
      if exists i :: 0 <= i < |fs| && FailsAt(f, fs, i, parseFloat) {
        var i :| 0 <= i < |fs| && FailsAt(f, fs, i, parseFloat);
        if i < n {
          assert FailsAt(f, init, i, parseFloat);
        }
      }
      forall i | 0 <= i < |fs| && FailsAt(f, fs, i, parseFloat) && (forall j | 0 <= j < i :: !FailsAt(f, fs, j, parseFloat))
        ensures Resolution(f, fs, parseFloat) == Failure(Resolve(f, fs[i], parseFloat).error)
      {
        if i < n {
          assert FailsAt(f, init, i, parseFloat);
          assert forall j | 0 <= j < i :: !FailsAt(f, init, j, parseFloat);
        } else {
          assert forall j | 0 <= j < |init| :: !FailsAt(f, init, j, parseFloat);
        }
      }
    }
  }

  /** A failed resolution is the coercion error for the override of one of the resolved flags. */
  lemma {:induction false} ResolutionError(f: Flagger, fs: seq<Flag>, parseFloat: FloatParser)
    ensures var r := Resolution(f, fs, parseFloat);
      r.Failure? ==>
        && r.error.Coercing? && r.error.flag in fs
        && r.error.flag.key in f.flags && r.error.input == f.flags[r.error.flag.key]
  {
    if fs != [] {
      ResolutionError(f, fs[..|fs| - 1], parseFloat);
    }
  }

  /** Some flag has key `k`. */
  predicate Requests(fs: seq<Flag>, k: string)
  {
    exists i :: 0 <= i < |fs| && fs[i].key == k
  }

  /** No later flag has the same key as flag `i`. */
  predicate LastFlagOfKey(fs: seq<Flag>, i: int)
    requires 0 <= i < |fs|
  {
    forall j | i < j < |fs| :: fs[j].key != fs[i].key
  }

  lemma RequestsSnoc(fs: seq<Flag>, k: string)
    requires fs != []
    ensures Requests(fs, k) <==> Requests(fs[..|fs| - 1], k) || fs[|fs| - 1].key == k
  {
    var init := fs[..|fs| - 1];
    if Requests(fs, k) && fs[|fs| - 1].key != k {
      var i :| 0 <= i < |fs| && fs[i].key == k;
      assert init[i].key == k;
    }
    if Requests(init, k) {
      var i :| 0 <= i < |init| && init[i].key == k;
      assert fs[i].key == k;
    }
  }

  /** A resolved map has exactly the requested keys; overrides of keys not requested leave no trace. */
  lemma {:induction false} ResolutionKeys(f: Flagger, fs: seq<Flag>, parseFloat: FloatParser)
    requires Resolution(f, fs, parseFloat).Success?
    ensures forall k :: k in Resolution(f, fs, parseFloat).value <==> Requests(fs, k)
  {
    if fs != [] {
      ResolutionKeys(f, fs[..|fs| - 1], parseFloat);
      forall k ensures k in Resolution(f, fs, parseFloat).value <==> Requests(fs, k) {
        RequestsSnoc(fs, k);
      }
    }
  }

  /**
   * Each key of a resolved map holds what the last flag of that key resolves to: the coerced
   * override when overridden, else the default.
   */
  lemma {:induction false} ResolutionValues(f: Flagger, fs: seq<Flag>, parseFloat: FloatParser)
    requires Resolution(f, fs, parseFloat).Success?
    ensures forall i | 0 <= i < |fs| && LastFlagOfKey(fs, i) ::
      && Resolve(f, fs[i], parseFloat).Success?
      && fs[i].key in Resolution(f, fs, parseFloat).value
      && Resolution(f, fs, parseFloat).value[fs[i].key] == Resolve(f, fs[i], parseFloat).value
  {
    if fs != [] {
      var init := fs[..|fs| - 1];
      var last := fs[|fs| - 1];
      ResolutionValues(f, init, parseFloat);
      forall i | 0 <= i < |fs| && LastFlagOfKey(fs, i)
        ensures && Resolve(f, fs[i], parseFloat).Success?
                && fs[i].key in Resolution(f, fs, parseFloat).value
                && Resolution(f, fs, parseFloat).value[fs[i].key] == Resolve(f, fs[i], parseFloat).value
      {
        if i < |init| {
          assert init[i] == fs[i];
          assert last.key != fs[i].key;
          assert LastFlagOfKey(init, i);
        }
      }
    }
  }

  /** Every resolved value has the type its flag declares. */
  lemma ResolutionTyped(f: Flagger, fs: seq<Flag>, parseFloat: FloatParser)
    requires Resolution(f, fs, parseFloat).Success?
    ensures forall i | 0 <= i < |fs| && LastFlagOfKey(fs, i) ::
      fs[i].key in Resolution(f, fs, parseFloat).value && Typed(Resolution(f, fs, parseFloat).value[fs[i].key], fs[i])
  {
    ResolutionValues(f, fs, parseFloat);
  }
}
