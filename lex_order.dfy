/** Lexicographic order on strings: character by character, and a proper prefix
    sorts before the longer string. On strings whose characters are all at most
    U+FFFF (every numeral here is one) this is JavaScript's `<` on strings, which
    compares UTF-16 code units. */
module LexOrder {

  /** `s < t`, comparing characters by code point. */
  function Less(s: string, t: string): bool
  {
    if s == [] then t != []
    else if t == [] then false
    else if s[0] != t[0] then s[0] < t[0]
    else Less(s[1..], t[1..])
  }

  /** No string is below itself, and two strings are never below each other. */
  lemma {:induction false} LessAsymmetric(s: string, t: string)
    ensures !(Less(s, t) && Less(t, s))
    ensures !Less(s, s)
  {
    if s != [] && t != [] {
      LessAsymmetric(s[1..], t[1..]);
    }
    if s != [] {
      LessAsymmetric(s[1..], s[1..]);
    }
  }

  /** Appending one character to two strings of equal length: the longer strings
      compare as the shorter ones do, and the new characters break a tie. */
  lemma {:induction false} LessAppend(p: string, q: string, x: char, y: char)
    requires |p| == |q|
    ensures Less(p + [x], q + [y]) <==> Less(p, q) || (p == q && x < y)
  {
    if p == [] {
      assert q == [];
      assert (p + [x])[1..] == [] && (q + [y])[1..] == [];
    } else {
      assert (p + [x])[0] == p[0] && (q + [y])[0] == q[0];
      assert (p + [x])[1..] == p[1..] + [x];
      assert (q + [y])[1..] == q[1..] + [y];
      LessAppend(p[1..], q[1..], x, y);
      if p[0] == q[0] {
        assert p == [p[0]] + p[1..] && q == [q[0]] + q[1..];
        assert p == q <==> p[1..] == q[1..];
      }
    }
  }

  /** Once two equal-length prefixes are ordered, whatever follows them does not matter. */
  lemma {:induction false} LessPrefixDecides(p: string, q: string, s: string, t: string)
    requires |p| == |q|
    requires Less(p, q)
    ensures Less(p + s, q + t)
  {
    assert p != [] && q != [];
    assert (p + s)[0] == p[0] && (q + t)[0] == q[0];
    if p[0] == q[0] {
      assert (p + s)[1..] == p[1..] + s;
      assert (q + t)[1..] == q[1..] + t;
      LessPrefixDecides(p[1..], q[1..], s, t);
    }
  }

  /** Behind a common prefix, two strings compare as their remainders do. */
  lemma {:induction false} LessSharedPrefix(p: string, s: string, t: string)
    ensures Less(p + s, p + t) <==> Less(s, t)
  {
    if p == [] {
      assert p + s == s && p + t == t;
    } else {
      assert (p + s)[0] == p[0] && (p + t)[0] == p[0];
      assert (p + s)[1..] == p[1..] + s;
      assert (p + t)[1..] == p[1..] + t;
      LessSharedPrefix(p[1..], s, t);
    }
  }
}
