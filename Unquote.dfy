/**
  Repeated URL percent-decoding (unquote.py).

  `Unquote` is a byte-level percent-decoder as defined in section 2.1 of
  RFC 3986: every "%" HEXDIG HEXDIG triple is replaced by the octet it names,
  hexadecimal digits in either case; a "%" that does not start such a triple
  is kept and scanning goes on with the next octet.  `FullUnquote` decodes
  again and again until one more pass changes nothing.
 */
module Unquote {

  /** An octet. */
  newtype Byte = b: int | 0 <= b < 0x100

  /** The octet of "%". */
  const Percent: Byte := 0x25

  predicate IsHexDigit(c: Byte) {
    (0x30 <= c <= 0x39) || (0x41 <= c <= 0x46) || (0x61 <= c <= 0x66)
  }

  function HexValue(c: Byte): (v: int)
    requires IsHexDigit(c)
    ensures 0 <= v < 16
  {
    if c <= 0x39 then c as int - 0x30
    else if c <= 0x46 then c as int - 0x41 + 10
    else c as int - 0x61 + 10
  }

  /** The upper-case hexadecimal digit for n, as section 2.1 of RFC 3986 recommends for producers. */
  function HexDigit(n: int): (c: Byte)
    requires 0 <= n < 16
    ensures IsHexDigit(c) && HexValue(c) == n
  {
    if n < 10 then (0x30 + n) as Byte else (0x41 + n - 10) as Byte
  }

  /** `s` holds a "%" HEXDIG HEXDIG triple starting at index i. */
  predicate EscapeAt(s: seq<Byte>, i: nat) {
    i + 2 < |s| && s[i] == Percent && IsHexDigit(s[i + 1]) && IsHexDigit(s[i + 2])
  }

  /** No index of `s` starts an escape triple. */
  predicate NoEscapes(s: seq<Byte>) {
    forall i :: 0 <= i < |s| ==> !EscapeAt(s, i)
  }

  /** The octet named by the two hexadecimal digits hi, lo. */
  function Octet(hi: Byte, lo: Byte): Byte
    requires IsHexDigit(hi) && IsHexDigit(lo)
  {
    (HexValue(hi) * 16 + HexValue(lo)) as Byte
  }

  /**
    One decoding pass (the library `unquote` that unquote.py calls).  A pass
    never lengthens its input, and one that keeps the length changes nothing:
    this is what makes the loop of `FullUnquote` terminate.
   */
  function Unquote(s: seq<Byte>): (r: seq<Byte>)
    ensures |r| <= |s|
    ensures |r| == |s| ==> r == s
    decreases |s|
  {
    if s == [] then []
    else if EscapeAt(s, 0) then [Octet(s[1], s[2])] + Unquote(s[3..])
    else [s[0]] + Unquote(s[1..])
  }

  /** A pass changes its input exactly when the input holds an escape triple. */
  lemma {:induction false} UnquoteFixedIff(s: seq<Byte>)
    ensures Unquote(s) == s <==> NoEscapes(s)
    decreases |s|
  {
    if s == [] {
    } else if EscapeAt(s, 0) {
      assert |Unquote(s)| < |s|;
    } else {
      var t := s[1..];
      assert Unquote(s) == [s[0]] + Unquote(t);
      UnquoteFixedIff(t);
      forall i | 0 <= i < |t| ensures EscapeAt(t, i) <==> EscapeAt(s, i + 1) {
        assert t[i] == s[i + 1];
        if i + 2 < |t| {
          assert t[i + 1] == s[i + 2] && t[i + 2] == s[i + 3];
        }
      }
      if NoEscapes(s) {
        assert NoEscapes(t);
        assert Unquote(t) == t;
        assert Unquote(s) == [s[0]] + t == s;
      }
      if Unquote(s) == s {
        assert Unquote(t) == t;
        forall i | 0 <= i < |s| ensures !EscapeAt(s, i) {
          if i > 0 {
            assert !EscapeAt(t, i - 1);
          }
        }
      }
    }
  }

  /** A string without any "%" comes back from a pass unchanged. */
  lemma NoPercentUnchanged(s: seq<Byte>)
    requires Percent !in s
    ensures Unquote(s) == s
  {
    assert NoEscapes(s);
    UnquoteFixedIff(s);
  }

  /** The three octets "%" HEXDIG HEXDIG that encode b. */
  function Escape(b: Byte): seq<Byte> {
    [Percent, HexDigit(b as int / 16), HexDigit(b as int % 16)]
  }

  /** Percent-encodes every octet of b: the reference encoder that `Unquote` inverts. */
  function PercentEncode(b: seq<Byte>): (r: seq<Byte>)
    ensures |r| == 3 * |b|
  {
    if b == [] then [] else Escape(b[0]) + PercentEncode(b[1..])
  }

  /** Decoding undoes encoding: one pass removes exactly one layer. */
  lemma {:induction false} UnquotePercentEncode(b: seq<Byte>)
    ensures Unquote(PercentEncode(b)) == b
  {
    if b != [] {
      var e := PercentEncode(b);
      var rest := PercentEncode(b[1..]);
      assert e == Escape(b[0]) + rest;
      assert EscapeAt(e, 0);
      assert e[3..] == rest;
      assert Octet(e[1], e[2]) == b[0];
      UnquotePercentEncode(b[1..]);
      assert Unquote(e) == [b[0]] + b[1..];
    }
  }

  /** k layers of percent-encoding over b. */
  function EncodeLayers(b: seq<Byte>, k: nat): seq<Byte> {
    if k == 0 then b else PercentEncode(EncodeLayers(b, k - 1))
  }

  /** The input after k decoding passes. */
  function Iterate(s: seq<Byte>, k: nat): seq<Byte> {
    if k == 0 then s else Unquote(Iterate(s, k - 1))
  }

  /** The first string reached from s by repeated passes that a pass leaves unchanged. */
  function Fix(s: seq<Byte>): (r: seq<Byte>)
    ensures Unquote(r) == r
    ensures |r| <= |s|
    decreases |s|
  {
    if Unquote(s) == s then s else Fix(Unquote(s))
  }

  /** Decoding once more before repeating changes nothing about the final result. */
  lemma FixUnquote(s: seq<Byte>)
    ensures Fix(Unquote(s)) == Fix(s)
  {
  }

  /** The fixed point is idempotent. */
  lemma FixIdempotent(s: seq<Byte>)
    ensures Fix(Fix(s)) == Fix(s)
  {
  }

  /** Repeating until nothing changes removes every layer of encoding over a string without escapes. */
  lemma {:induction false} FixRemovesLayers(b: seq<Byte>, k: nat)
    requires NoEscapes(b)
    ensures Fix(EncodeLayers(b, k)) == b
  {
    if k == 0 {
      UnquoteFixedIff(b);
    } else {
      UnquotePercentEncode(EncodeLayers(b, k - 1));
      FixUnquote(EncodeLayers(b, k));
      FixRemovesLayers(b, k - 1);
    }
  }

  /**
    An encoder in the manner of `quote`: "%" is always escaped, and so is
    every other octet that `escape` selects; the rest are kept as they are.
   */
  function Quote(b: seq<Byte>, escape: Byte -> bool): (r: seq<Byte>)
    ensures |b| <= |r| <= 3 * |b|
  {
    if b == [] then []
    else (if b[0] == Percent || escape(b[0]) then Escape(b[0]) else [b[0]]) + Quote(b[1..], escape)
  }

  /** One pass undoes such an encoding, whichever octets it escapes. */
  lemma {:induction false} UnquoteQuote(b: seq<Byte>, escape: Byte -> bool)
    ensures Unquote(Quote(b, escape)) == b
  {
    if b != [] {
      var e := Quote(b, escape);
      var rest := Quote(b[1..], escape);
      UnquoteQuote(b[1..], escape);
      if b[0] == Percent || escape(b[0]) {
        assert e == Escape(b[0]) + rest;
        assert EscapeAt(e, 0) && e[3..] == rest;
        assert Octet(e[1], e[2]) == b[0];
      } else {
        assert e == [b[0]] + rest;
        assert !EscapeAt(e, 0) && e[1..] == rest;
      }
      assert Unquote(e) == [b[0]] + b[1..];
    }
  }

  /** Layers of encoding over b, innermost first, each escaping the octets its own predicate picks. */
  function QuoteLayers(b: seq<Byte>, layers: seq<Byte -> bool>): seq<Byte>
  {
    if layers == [] then b else Quote(QuoteLayers(b, layers[..|layers| - 1]), layers[|layers| - 1])
  }

  /** Repeating until nothing changes removes any stack of such layers over a string without escapes. */
  lemma {:induction false} FixRemovesQuoteLayers(b: seq<Byte>, layers: seq<Byte -> bool>)
    requires NoEscapes(b)
    ensures Fix(QuoteLayers(b, layers)) == b
    decreases |layers|
  {
    if layers == [] {
      UnquoteFixedIff(b);
    } else {
      var inner := QuoteLayers(b, layers[..|layers| - 1]);
      UnquoteQuote(inner, layers[|layers| - 1]);
      FixUnquote(QuoteLayers(b, layers));
      FixRemovesQuoteLayers(b, layers[..|layers| - 1]);
    }
  }

  /** "%2541" is "A" under two such layers, the inner escaping "A" and the outer only "%", so repetition yields "A". */
  lemma DoubleEncodedLayers()
    ensures QuoteLayers([0x41], [(c: Byte) => c == 0x41, (c: Byte) => false]) == [0x25, 0x32, 0x35, 0x34, 0x31]
    ensures Fix([0x25, 0x32, 0x35, 0x34, 0x31]) == [0x41]
  {
    var inner: Byte -> bool := (c: Byte) => c == 0x41;
    var outer: Byte -> bool := (c: Byte) => false;
    var layers := [inner, outer];
    assert layers[..1] == [inner] && layers[..1][..0] == [];
    assert Quote([0x41], inner) == [0x25, 0x34, 0x31];
    assert Quote([0x31], outer) == [0x31];
    assert Quote([0x34, 0x31], outer) == [0x34, 0x31];
    assert Quote([0x25, 0x34, 0x31], outer) == [0x25, 0x32, 0x35, 0x34, 0x31];
    FixRemovesQuoteLayers([0x41], layers);
  }

  /**
    fullUnquote: decode once, then keep decoding while a pass still changes
    the string.  The result is a fixed point of decoding, is the input after
    k >= 1 passes, and is never longer than the input.
   */
  method FullUnquote(value: seq<Byte>) returns (modded: seq<Byte>)
    ensures Unquote(modded) == modded
    ensures modded == Fix(value)
    ensures exists k :: 1 <= k && modded == Iterate(value, k)
    ensures |modded| <= |value|
  {
    modded := Unquote(value);
    ghost var k: nat := 1;
    while modded != Unquote(modded)
      invariant 1 <= k && modded == Iterate(value, k)
      invariant Fix(modded) == Fix(value)
      invariant |modded| <= |value|
      decreases |modded|
    {
      modded := Unquote(modded);
      k := k + 1;
    }
  }

  /** "%2541" is one layer over "%41", which is one layer over "A"; the repetition yields "A". */
  lemma DoubleEncodedExample()
    ensures Unquote([0x25, 0x32, 0x35, 0x34, 0x31]) == [0x25, 0x34, 0x31]
    ensures Unquote([0x25, 0x34, 0x31]) == [0x41]
    ensures Fix([0x25, 0x32, 0x35, 0x34, 0x31]) == [0x41]
  {
    var s: seq<Byte> := [0x25, 0x32, 0x35, 0x34, 0x31];
    var t: seq<Byte> := [0x25, 0x34, 0x31];
    var a: seq<Byte> := [0x41];
    assert EscapeAt(s, 0) && s[3..] == [0x34, 0x31];
    assert Unquote([0x34, 0x31]) == [0x34, 0x31] by {
      NoPercentUnchanged([0x34, 0x31]);
    }
    assert Unquote(s) == t;
    assert EscapeAt(t, 0) && t[3..] == [];
    assert Unquote(t) == a;
    NoPercentUnchanged(a);
    assert Fix(a) == a;
    FixUnquote(t);
    FixUnquote(s);
  }
}
