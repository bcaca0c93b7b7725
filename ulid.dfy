/** The ULID generator: a 10-symbol time prefix followed by a 16-symbol random
    suffix, both in Crockford's Base32. The clock and the random source are
    inputs: `now` is the millisecond timestamp that `Date.now()` would return,
    and `draws` holds, in call order, the values `Math.floor(Math.random() * 32)`
    would produce, one per suffix symbol. */
module Ulid {
  import opened Crockford
  import opened LexOrder

  /** Number of symbols in the alphabet, the radix of both parts. */
  const EncodingLen: nat := |Encoding|

  /** Largest timestamp that is accepted: 2^48 - 1 milliseconds. */
  const TimeMax: nat := 0xFFFF_FFFF_FFFF

  /** Symbols in the time prefix. */
  const TimeLen: nat := 10

  /** Symbols in the random suffix. */
  const RandomLen: nat := 16

  /** The one failure of the generator: the exception 'Time value is too large'. */
  datatype Error = TimeTooLarge

  datatype Result<T> = Ok(value: T) | Err(error: Error)

  /** Ten base-32 digits hold every accepted timestamp. */
  lemma TimeFits()
    ensures Pow(TimeLen) == 0x4_0000_0000_0000 && TimeMax < Pow(TimeLen)
  {
  }

  /** `encodeTime`: the `len`-symbol numeral of `now`, most significant symbol first,
      built by peeling off the last digit and prepending its symbol `len` times.
      Fails exactly when `now` exceeds `TimeMax`. */
  method EncodeTime(now: nat, len: nat) returns (r: Result<string>)
    ensures r.Err? <==> now > TimeMax
    ensures r.Err? ==> r.error == TimeTooLarge
    ensures r.Ok? ==> r.value == Digits(now, len)
    ensures r.Ok? ==> |r.value| == len && IsNumeral(r.value)
    ensures r.Ok? ==> Decode(r.value) == Some(now % Pow(len))
  {
    if now > TimeMax {
      return Err(TimeTooLarge);
    }
    AlphabetShape();
    var str := "";
    var n: nat := now;
    var i: nat := len;
    while i > 0
      invariant i <= len
      invariant Digits(n, i) + str == Digits(now, len)
    {
      var mod := n % EncodingLen;
      str := [Encoding[mod]] + str;
      n := (n - mod) / EncodingLen;
      i := i - 1;
    }
    DecodeDigits(now, len);
    return Ok(str);
  }

  /** The symbols for a sequence of digits, in order. */
  function Symbols(draws: seq<Index>): (s: string)
    ensures |s| == |draws| && IsNumeral(s)
    ensures forall i :: 0 <= i < |draws| ==> DigitOf(s[i]) == draws[i]
  {
    if draws == [] then ""
    else
      var last := draws[|draws| - 1];
      SymbolDigit(last, last);
      Symbols(draws[..|draws| - 1]) + [Symbol(last)]
  }

  /** `encodeRandom`: `len` symbols, the `i`-th being the alphabet entry at the `i`-th draw,
      appended one by one. */
  method EncodeRandom(len: nat, draws: seq<Index>) returns (str: string)
    requires |draws| == len
    ensures str == Symbols(draws)
    ensures forall i :: 0 <= i < len ==> str[i] == Encoding[draws[i]]
  {
    AlphabetShape();
    str := "";
    for i := 0 to len
      invariant str == Symbols(draws[..i])
    {
      var rand := draws[i];
      assert draws[..i + 1][..i] == draws[..i];
      str := str + [Encoding[rand]];
    }
    assert draws[..len] == draws;
  }

  /** What `generateULID` returns for the timestamp `now` and the random draws `draws`. */
  function Ulid(now: nat, draws: seq<Index>): (r: Result<string>)
    requires |draws| == RandomLen
    ensures r.Err? <==> now > TimeMax
    ensures r.Ok? ==> |r.value| == 26 && IsNumeral(r.value)
    ensures r.Ok? ==> Decode(r.value[..TimeLen]) == Some(now)
    ensures r.Ok? ==> forall i :: 0 <= i < RandomLen ==> DigitOf(r.value[TimeLen + i]) == draws[i]
  {
    if now > TimeMax then Err(TimeTooLarge)
    else
      TimeRoundTrip(now);
      var prefix, suffix := Digits(now, TimeLen), Symbols(draws);
      assert (prefix + suffix)[..TimeLen] == prefix;
      assert forall i :: 0 <= i < RandomLen ==> (prefix + suffix)[TimeLen + i] == suffix[i];
      assert IsNumeral(prefix + suffix) by {
        assert forall i :: 0 <= i < 26 ==>
          (prefix + suffix)[i] == if i < TimeLen then prefix[i] else suffix[i - TimeLen];
      }
      Ok(prefix + suffix)
  }

  /** `generateULID`: the time prefix followed by the random suffix; the time check
      comes first, so a rejected timestamp consumes no draws. */
  method GenerateUlid(now: nat, draws: seq<Index>) returns (r: Result<string>)
    requires |draws| == RandomLen
    ensures r == Ulid(now, draws)
    ensures r.Ok? ==> r.value[..TimeLen] == Digits(now, TimeLen)
  {
    var time := EncodeTime(now, TimeLen);
    if time.Err? {
      return Err(time.error);
    }
    var random := EncodeRandom(RandomLen, draws);
    r := Ok(time.value + random);
    assert r.value[..TimeLen] == time.value;
  }

  /** Round trip: the time prefix reads back as the timestamp itself. */
  lemma TimeRoundTrip(now: nat)
    requires now <= TimeMax
    ensures Decode(Digits(now, TimeLen)) == Some(now)
  {
    DecodeDigits(now, TimeLen);
    TimeFits();
    DivModUnique(now, Pow(TimeLen), 0, now);
  }

  /** Order preservation: for accepted timestamps, the time prefixes compare as strings
      exactly as the timestamps compare as numbers. */
  lemma TimeOrder(a: nat, b: nat)
    requires a <= TimeMax && b <= TimeMax
    ensures a < b <==> Less(Digits(a, TimeLen), Digits(b, TimeLen))
  {
    DigitsOrder(a, b, TimeLen);
    TimeFits();
    DivModUnique(a, Pow(TimeLen), 0, a);
    DivModUnique(b, Pow(TimeLen), 0, b);
  }

  /** Lexicographic sortability: a ULID made at an earlier millisecond sorts before
      one made later, whatever the random suffixes; and a ULID that sorts before
      another was not made later. */
  lemma UlidSortable(a: nat, b: nat, da: seq<Index>, db: seq<Index>)
    requires a <= TimeMax && b <= TimeMax
    requires |da| == RandomLen && |db| == RandomLen
    ensures a < b ==> Less(Ulid(a, da).value, Ulid(b, db).value)
    ensures Less(Ulid(a, da).value, Ulid(b, db).value) ==> a <= b
  {
    var pa, pb := Digits(a, TimeLen), Digits(b, TimeLen);
    var sa, sb := Symbols(da), Symbols(db);
    TimeOrder(a, b);
    TimeOrder(b, a);
    if a < b {
      LessPrefixDecides(pa, pb, sa, sb);
    } else if b < a {
      LessPrefixDecides(pb, pa, sb, sa);
      LessAsymmetric(pa + sa, pb + sb);
    }
  }

  /** ULIDs made in the same millisecond share their time prefix, are ordered by
      their random suffixes, and are equal exactly when the draws are. */
  lemma SameMillisecond(now: nat, da: seq<Index>, db: seq<Index>)
    requires now <= TimeMax
    requires |da| == RandomLen && |db| == RandomLen
    ensures Ulid(now, da).value[..TimeLen] == Ulid(now, db).value[..TimeLen]
    ensures Less(Ulid(now, da).value, Ulid(now, db).value) <==> Less(Symbols(da), Symbols(db))
    ensures Ulid(now, da) == Ulid(now, db) <==> da == db
  {
    var p := Digits(now, TimeLen);
    LessSharedPrefix(p, Symbols(da), Symbols(db));
    if Ulid(now, da) == Ulid(now, db) {
      assert forall i :: 0 <= i < RandomLen ==> da[i] == db[i];
    }
  }
}
