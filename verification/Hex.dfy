/** Hexadecimal text (RFC 4648, section 8): written in lower case, read in either case. */
module Hex {
  import opened Octets

  function Digit(v: int): char
    requires 0 <= v < 16
  {
    if v < 10 then (v + 48) as char else (v + 87) as char
  }

  function DigitValue(c: char): Option<nat> {
    if '0' <= c <= '9' then Some(c as int - 48)
    else if 'a' <= c <= 'f' then Some(c as int - 87)
    else if 'A' <= c <= 'F' then Some(c as int - 55)
    else None
  }

  function Encode(b: Bytes): string {
    if b == [] then "" else [Digit(b[0] / 16), Digit(b[0] % 16)] + Encode(b[1..])
  }

  function Decode(s: string): Option<Bytes> {
    if s == "" then Some([])
    else if |s| == 1 then None
    else
      match (DigitValue(s[0]), DigitValue(s[1]), Decode(s[2..]))
      case (Some(hi), Some(lo), Some(rest)) => Some([Pair(hi, lo)] + rest)
      case _ => None
  }

  function Pair(hi: nat, lo: nat): byte {
    if hi < 16 && lo < 16 then hi * 16 + lo else 0
  }

  function LowerDigit(c: char): char {
    if 'A' <= c <= 'F' then (c as int + 32) as char else c
  }

  function Lower(s: string): string {
    seq(|s|, i requires 0 <= i < |s| => LowerDigit(s[i]))
  }

  lemma DigitInverse(c: char, v: int)
    requires 0 <= v < 16
    ensures DigitValue(c) == Some(v) <==> LowerDigit(c) == Digit(v)
  {
  }

  lemma DigitRange(c: char)
    ensures DigitValue(c).Some? ==> DigitValue(c).value < 16
  {
  }

  lemma PairInverse(hi: nat, lo: nat, b: byte)
    requires hi < 16 && lo < 16
    ensures Pair(hi, lo) == b <==> hi == b / 16 && lo == b % 16
  {
  }

  lemma {:induction false} EncodeShape(b: Bytes)
    ensures |Encode(b)| == 2 * |b|
    ensures forall i :: 0 <= i < |Encode(b)| ==> '0' <= Encode(b)[i] <= '9' || 'a' <= Encode(b)[i] <= 'f'
  {
    if b != [] {
      EncodeShape(b[1..]);
    }
  }

  /** A string decodes to `b` exactly when, but for the case of its letters, it is the encoding of `b`. */
  lemma {:induction false} DecodesTo(s: string, b: Bytes)
    ensures Decode(s) == Some(b) <==> Lower(s) == Encode(b)
    decreases |s|
  {
    hide Digit, DigitValue, LowerDigit, Pair;
    EncodeShape(b);
    if |s| >= 2 && b != [] {
      DecodesTo(s[2..], b[1..]);
      DigitRange(s[0]);
      DigitRange(s[1]);
      DigitInverse(s[0], b[0] / 16);
      DigitInverse(s[1], b[0] % 16);
      if DigitValue(s[0]).Some? && DigitValue(s[1]).Some? {
        PairInverse(DigitValue(s[0]).value, DigitValue(s[1]).value, b[0]);
      }
      var l, e := Lower(s), Encode(b);
      assert l == [LowerDigit(s[0]), LowerDigit(s[1])] + Lower(s[2..]);
      assert l[2..] == Lower(s[2..]) && e[2..] == Encode(b[1..]);
      assert l == e <==> l[0] == e[0] && l[1] == e[1] && l[2..] == e[2..] by {
        assert l == [l[0], l[1]] + l[2..];
        assert e == [e[0], e[1]] + e[2..];
      }
      assert b == [b[0]] + b[1..];
    }
  }

  lemma RoundTrip(b: Bytes)
    ensures Decode(Encode(b)) == Some(b)
  {
    EncodeShape(b);
    assert Lower(Encode(b)) == Encode(b);
    DecodesTo(Encode(b), b);
  }

  /** The digit in place `k` of an encoding stands for the upper or the lower half of byte `k / 2`. */
  lemma {:induction false} DigitAt(b: Bytes, i: nat)
    requires i < |b|
    ensures 2 * i + 1 < |Encode(b)| && Encode(b)[2 * i] == "0123456789abcdef"[b[i] / 16]
            && Encode(b)[2 * i + 1] == "0123456789abcdef"[b[i] % 16]
  {
    DigitTable(b[i] / 16);
    DigitTable(b[i] % 16);
    if i > 0 {
      DigitAt(b[1..], i - 1);
    }
  }

  lemma DigitTable(v: int)
    requires 0 <= v < 16
    ensures Digit(v) == "0123456789abcdef"[v]
  {
  }

  predicate IsDigit(c: char, v: int) {
    0 <= v < 16 && (c == "0123456789abcdef"[v] || c == "0123456789ABCDEF"[v])
  }

  lemma ReadsDigit(c: char, v: int)
    requires 0 <= v < 16
    ensures DigitValue(c) == Some(v) <==> IsDigit(c, v)
  {
  }

  /** Digits `2 * i` and `2 * i + 1` are those of byte `i`, in either case. */
  predicate ReadsAt(s: string, b: Bytes, i: nat)
    requires 2 * i + 1 < |s| && i < |b|
  {
    IsDigit(s[2 * i], b[i] / 16) && IsDigit(s[2 * i + 1], b[i] % 16)
  }

  /** Decoding, digit by digit. */
  lemma {:induction false} DecodesDigits(s: string, b: Bytes)
    ensures Decode(s) == Some(b) <==> |s| == 2 * |b| && forall i :: 0 <= i < |b| ==> ReadsAt(s, b, i)
    decreases |s|
  {
    hide DigitValue, IsDigit, Pair;
    if |s| >= 2 && b != [] {
      DecodesDigits(s[2..], b[1..]);
      ReadsDigit(s[0], b[0] / 16);
      ReadsDigit(s[1], b[0] % 16);
      DigitRange(s[0]);
      DigitRange(s[1]);
      if DigitValue(s[0]).Some? && DigitValue(s[1]).Some? {
        PairInverse(DigitValue(s[0]).value, DigitValue(s[1]).value, b[0]);
      }
      assert b == [b[0]] + b[1..];
      if |s| == 2 * |b| {
        ReadsRest(s, b);
      }
    }
  }

  lemma ReadsRest(s: string, b: Bytes)
    requires |s| == 2 * |b| && b != []
    ensures (forall i :: 0 <= i < |b| ==> ReadsAt(s, b, i))
       <==> ReadsAt(s, b, 0) && forall i :: 0 <= i < |b| - 1 ==> ReadsAt(s[2..], b[1..], i)
  {
    hide IsDigit;
    forall i | 0 <= i < |b| - 1
      ensures ReadsAt(s[2..], b[1..], i) <==> ReadsAt(s, b, i + 1)
    {
    }
    if ReadsAt(s, b, 0) && forall i :: 0 <= i < |b| - 1 ==> ReadsAt(s[2..], b[1..], i) {
      forall i | 0 <= i < |b|
        ensures ReadsAt(s, b, i)
      {
        assert i > 0 ==> ReadsAt(s[2..], b[1..], i - 1);
      }
    }
  }
}
