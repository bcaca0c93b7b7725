/** Crockford's Base32 as the ULID generator uses it: the 32-symbol alphabet, the
    fixed-width base-32 numeral of a number (most significant digit first), and
    reading such a numeral back. */
module Crockford {
  import opened LexOrder

  /** The alphabet: digits and upper-case letters without I, L, O and U. */
  const Encoding: string := "0123456789ABCDEFGHJKMNPQRSTVWXYZ"

  datatype Option<T> = None | Some(value: T)

  /** An index into the alphabet, i.e. one base-32 digit. */
  type Index = i: nat | i < 32

  /** The characters a ULID may contain: digits and upper-case letters except the
      ambiguous I, L, O and U. */
  predicate IsSymbol(c: char)
  {
    ('0' <= c <= '9' || 'A' <= c <= 'Z') && c != 'I' && c != 'L' && c != 'O' && c != 'U'
  }

  /** The symbol at position `d` of the alphabet (`ENCODING.charAt(d)`), read off its
      character ranges: 0-9, A-H, J-K, M-N, P-T, V-Z. */
  function Symbol(d: Index): (c: char)
    ensures IsSymbol(c)
  {
    if d < 10 then ('0' as int + d) as char
    else if d < 18 then ('A' as int + d - 10) as char
    else if d < 20 then ('J' as int + d - 18) as char
    else if d < 22 then ('M' as int + d - 20) as char
    else if d < 27 then ('P' as int + d - 22) as char
    else ('V' as int + d - 27) as char
  }

  /** The digit a symbol stands for: the inverse of `Symbol`. */
  function DigitOf(c: char): (d: Index)
    requires IsSymbol(c)
    ensures Symbol(d) == c
  {
    if c <= '9' then c as int - '0' as int
    else if c <= 'H' then c as int - 'A' as int + 10
    else if c <= 'K' then c as int - 'J' as int + 18
    else if c <= 'N' then c as int - 'M' as int + 20
    else if c <= 'T' then c as int - 'P' as int + 22
    else c as int - 'V' as int + 27
  }

  /** Digits and symbols are in one-to-one correspondence, and the correspondence keeps order. */
  lemma SymbolDigit(d: Index, e: Index)
    ensures DigitOf(Symbol(d)) == d
    ensures Symbol(d) < Symbol(e) <==> d < e
  {
  }

  /** The alphabet string has 32 symbols, `Symbol` reads it position by position, and
      its characters are in strictly ascending order. */
  lemma AlphabetShape()
    ensures |Encoding| == 32
    ensures forall d: Index :: Encoding[d] == Symbol(d)
    ensures forall i, j :: 0 <= i < j < |Encoding| ==> Encoding[i] < Encoding[j]
  {
  }

  /** The alphabet string holds exactly the symbols. */
  lemma AlphabetIsSymbols(c: char)
    ensures c in Encoding <==> IsSymbol(c)
  {
  }

  /** Position of the first `c` in `s`, or `|s|` when `c` does not occur (JavaScript's
      `indexOf`, with `|s|` in place of -1). */
  function Find(s: string, c: char): (i: nat)
    ensures i <= |s|
    ensures i < |s| ==> s[i] == c
    ensures forall j :: 0 <= j < i ==> s[j] != c
  {
    if s == [] then 0
    else if s[0] == c then 0
    else 1 + Find(s[1..], c)
  }

  /** A symbol's digit is its position in the alphabet string. */
  lemma DigitOfIsPosition(c: char)
    requires IsSymbol(c)
    ensures Find(Encoding, c) == DigitOf(c)
  {
    AlphabetShape();
    assert Encoding[DigitOf(c)] == c;
  }

  /** Every character of `s` is a symbol of the alphabet. */
  predicate IsNumeral(s: string)
  {
    forall i :: 0 <= i < |s| ==> IsSymbol(s[i])
  }

  /** 32 to the power `n`: the number of values an `n`-digit numeral can hold. */
  function Pow(n: nat): (p: nat)
    ensures p > 0
  {
    if n == 0 then 1 else 32 * Pow(n - 1)
  }

  /** The last `len` base-32 digits of `n`, most significant first, as symbols. */
  function Digits(n: nat, len: nat): (s: string)
    ensures |s| == len
    ensures IsNumeral(s)
  {
    if len == 0 then ""
    else
      AlphabetShape();
      Digits(n / 32, len - 1) + [Symbol(n % 32)]
  }

  /** Reads a numeral back: the value of its digits, most significant first, or
      `None` when some character is not a symbol of the alphabet. */
  function Decode(s: string): (r: Option<nat>)
    ensures r.Some? <==> IsNumeral(s)
    ensures r.Some? ==> r.value < Pow(|s|)
  {
    if s == [] then Some(0)
    else
      var front, last := s[..|s| - 1], s[|s| - 1];
      assert forall i :: 0 <= i < |front| ==> front[i] == s[i];
      match Decode(front)
      case None => None
      case Some(v) =>
        if IsSymbol(last) then Some(v * 32 + DigitOf(last)) else None
  }

  lemma MulAtLeast(m: nat, k: nat)
    requires k >= 1
    ensures m * k >= m
  {
  }

  /** If `n == m * a + b` with `0 <= b < m`, then `b` and `a` are the remainder and the quotient. */
  lemma DivModUnique(n: nat, m: nat, a: nat, b: nat)
    requires 0 <= b < m
    requires n == m * a + b
    ensures n % m == b && n / m == a
  {
    var q, r := n / m, n % m;
    assert m * q + r == m * a + b;
    if q < a {
      MulAtLeast(m, a - q);
      assert false;
    } else if q > a {
      MulAtLeast(m, q - a);
      assert false;
    }
  }

  /** The remainder modulo `32 * p` splits into the remainder of the quotient and the last digit. */
  lemma ModSplit(n: nat, p: nat)
    requires p > 0
    ensures n % (32 * p) == ((n / 32) % p) * 32 + n % 32
  {
    var q, r := n / 32, n % 32;
    var a, b := q / p, q % p;
    assert n == 32 * q + r;
    assert q == p * a + b;
    assert n == (32 * p) * a + (b * 32 + r);
    DivModUnique(n, 32 * p, a, b * 32 + r);
  }

  /** The value of the last `len` base-32 digits of `n`. */
  function Low(n: nat, len: nat): nat
  {
    if len == 0 then 0 else Low(n / 32, len - 1) * 32 + n % 32
  }

  /** The last `len` digits of `n` are `n` modulo `32^len`. */
  lemma {:induction false} LowIsMod(n: nat, len: nat)
    ensures Low(n, len) == n % Pow(len)
  {
    if len > 0 {
      LowIsMod(n / 32, len - 1);
      ModSplit(n, Pow(len - 1));
    }
  }

  /** Round trip: reading back the `len`-digit numeral of `n` gives `n` modulo `32^len`. */
  lemma {:induction false} DecodeDigits(n: nat, len: nat)
    ensures Decode(Digits(n, len)) == Some(n % Pow(len))
  {
    DecodeDigitsLow(n, len);
    LowIsMod(n, len);
  }

  lemma {:induction false} DecodeDigitsLow(n: nat, len: nat)
    ensures Decode(Digits(n, len)) == Some(Low(n, len))
  {
    if len > 0 {
      DecodeDigitsLow(n / 32, len - 1);
      DecodeDigitsStep(n, len);
    }
  }

  /** The numeral of `n` reads back as the numeral of `n / 32`, shifted, plus the last digit. */
  lemma DecodeDigitsStep(n: nat, len: nat)
    requires len > 0
    ensures Decode(Digits(n / 32, len - 1)).Some?
    ensures Decode(Digits(n, len)) == Some(Decode(Digits(n / 32, len - 1)).value * 32 + n % 32)
  {
  }

  /** Reading one more symbol shifts the value by one digit and adds the symbol's digit. */
  lemma DecodeSnoc(front: string, c: char)
    requires IsSymbol(c)
    requires Decode(front).Some?
    ensures Decode(front + [c]) == Some(Decode(front).value * 32 + DigitOf(c))
  {
  }

  /** Round trip the other way: a numeral is the numeral of its own value, at its own width. */
  lemma {:induction false} DigitsDecode(s: string)
    requires IsNumeral(s)
    ensures Digits(Decode(s).value, |s|) == s
  {
    if s != [] {
      var front, last := s[..|s| - 1], s[|s| - 1];
      assert forall i :: 0 <= i < |front| ==> front[i] == s[i];
      var v := Decode(front).value;
      var d := DigitOf(last);
      assert s == front + [last];
      DecodeSnoc(front, last);
      DivModUnique(v * 32 + d, 32, v, d);
      DigitsDecode(front);
    }
  }

  /** Two numbers have the same `len`-digit numeral exactly when they agree modulo `32^len`. */
  lemma DigitsEqual(a: nat, b: nat, len: nat)
    ensures Digits(a, len) == Digits(b, len) <==> a % Pow(len) == b % Pow(len)
  {
    DecodeDigits(a, len);
    DecodeDigits(b, len);
    if a % Pow(len) == b % Pow(len) {
      DigitsDecode(Digits(a, len));
      DigitsDecode(Digits(b, len));
    }
  }

  /** Order preservation: the `len`-digit numerals compare as strings exactly as the
      numbers compare modulo `32^len`. */
  lemma {:induction false} DigitsOrder(a: nat, b: nat, len: nat)
    ensures Less(Digits(a, len), Digits(b, len)) <==> a % Pow(len) < b % Pow(len)
  {
    if len > 0 {
      var p, q := Digits(a / 32, len - 1), Digits(b / 32, len - 1);
      var x, y := Symbol(a % 32), Symbol(b % 32);
      LessAppend(p, q, x, y);
      DigitsOrder(a / 32, b / 32, len - 1);
      DigitsEqual(a / 32, b / 32, len - 1);
      SymbolDigit(a % 32, b % 32);
      ModSplit(a, Pow(len - 1));
      ModSplit(b, Pow(len - 1));
    }
  }
}
