/** Base64 without padding, as Go's `RawURLEncoding` and `RawStdEncoding` write and read it
    (RFC 4648, sections 4 and 5). The decoder is the non-strict one: it skips carriage returns and line
    feeds, and does not look at the bits of the last digit that belong to no byte. */
module Base64 {
  import opened Octets

  type sextet = x: int | 0 <= x < 64

  datatype Alphabet = Url | Std

  function Digit(a: Alphabet, v: sextet): char {
    if v < 26 then (v + 65) as char
    else if v < 52 then (v + 71) as char
    else if v < 62 then (v - 4) as char
    else if v == 62 then (if a == Url then '-' else '+')
    else (if a == Url then '_' else '/')
  }

  function DigitValue(a: Alphabet, c: char): Option<sextet> {
    if 'A' <= c <= 'Z' then Some(c as int - 65)
    else if 'a' <= c <= 'z' then Some(c as int - 71)
    else if '0' <= c <= '9' then Some(c as int + 4)
    else if c == (if a == Url then '-' else '+') then Some(62)
    else if c == (if a == Url then '_' else '/') then Some(63)
    else None
  }

  lemma DigitInverse(a: Alphabet, c: char, v: sextet)
    ensures DigitValue(a, c) == Some(v) <==> c == Digit(a, v)
  {
  }

  /** The four digits of three bytes. */
  function Digit0(b0: byte): sextet {
    b0 / 4
  }

  function Digit1(b0: byte, b1: byte): sextet {
    b0 % 4 * 16 + b1 / 16
  }

  function Digit2(b1: byte, b2: byte): sextet {
    b1 % 16 * 4 + b2 / 64
  }

  function Digit3(b2: byte): sextet {
    b2 % 64
  }

  function Sextets(b: Bytes): seq<sextet> {
    if |b| == 0 then []
    else if |b| == 1 then [Digit0(b[0]), Digit1(b[0], 0)]
    else if |b| == 2 then [Digit0(b[0]), Digit1(b[0], b[1]), Digit2(b[1], 0)]
    else [Digit0(b[0]), Digit1(b[0], b[1]), Digit2(b[1], b[2]), Digit3(b[2])] + Sextets(b[3..])
  }

  /** The three bytes of four digits. */
  function Byte0(q0: sextet, q1: sextet): byte {
    q0 as int * 4 + q1 / 16
  }

  function Byte1(q1: sextet, q2: sextet): byte {
    q1 as int % 16 * 16 + q2 / 4
  }

  function Byte2(q2: sextet, q3: sextet): byte {
    q2 as int % 4 * 64 + q3
  }

  function Unpack(q: seq<sextet>): Bytes {
    if |q| < 2 then []
    else if |q| == 2 then [Byte0(q[0], q[1])]
    else if |q| == 3 then [Byte0(q[0], q[1]), Byte1(q[1], q[2])]
    else [Byte0(q[0], q[1]), Byte1(q[1], q[2]), Byte2(q[2], q[3])] + Unpack(q[4..])
  }

  /** The digits with the unused bits of the last one cleared. */
  function Clear(q: seq<sextet>): seq<sextet> {
    if |q| % 4 == 2 then q[|q| - 1 := q[|q| - 1] / 16 * 16]
    else if |q| % 4 == 3 then q[|q| - 1 := q[|q| - 1] / 4 * 4]
    else q
  }

  lemma Triple(b0: byte, b1: byte, b2: byte)
    ensures Byte0(Digit0(b0), Digit1(b0, b1)) == b0
    ensures Byte1(Digit1(b0, b1), Digit2(b1, b2)) == b1
    ensures Byte2(Digit2(b1, b2), Digit3(b2)) == b2
  {
  }

  lemma {:induction false} SextetsSize(b: Bytes)
    ensures |Sextets(b)| == (4 * |b| + 2) / 3 && |Sextets(b)| % 4 != 1
  {
    if |b| >= 3 {
      SextetsSize(b[3..]);
    }
  }

  lemma {:induction false} UnpackSextets(b: Bytes)
    ensures Unpack(Sextets(b)) == b
  {
    hide Byte0, Byte1, Byte2, Digit0, Digit1, Digit2, Digit3;
    if |b| == 1 {
      Triple(b[0], 0, 0);
    } else if |b| == 2 {
      Triple(b[0], b[1], 0);
    } else if |b| >= 3 {
      Triple(b[0], b[1], b[2]);
      UnpackSextets(b[3..]);
      assert Sextets(b)[4..] == Sextets(b[3..]);
      assert b == b[..3] + b[3..];
    }
  }

  lemma Block(q0: sextet, q1: sextet, q2: sextet, q3: sextet)
    ensures Digit0(Byte0(q0, q1)) == q0
    ensures Digit1(Byte0(q0, q1), Byte1(q1, q2)) == q1
    ensures Digit2(Byte1(q1, q2), Byte2(q2, q3)) == q2
    ensures Digit3(Byte2(q2, q3)) == q3
    ensures Digit1(Byte0(q0, q1), 0) == q1 / 16 * 16
    ensures Digit2(Byte1(q1, q2), 0) == q2 / 4 * 4
  {
  }

  lemma SextetsThree(b0: byte, b1: byte, b2: byte, rest: Bytes)
    ensures Sextets([b0, b1, b2] + rest)
         == [Digit0(b0), Digit1(b0, b1), Digit2(b1, b2), Digit3(b2)] + Sextets(rest)
  {
    hide Digit0, Digit1, Digit2, Digit3;
    assert ([b0, b1, b2] + rest)[3..] == rest;
  }

  lemma UnpackFour(q: seq<sextet>)
    requires |q| >= 4
    ensures Sextets(Unpack(q)) == q[..4] + Sextets(Unpack(q[4..]))
  {
    hide Unpack, Sextets, Byte0, Byte1, Byte2, Digit0, Digit1, Digit2, Digit3;
    UnpackStep(q);
    SextetsThree(Byte0(q[0], q[1]), Byte1(q[1], q[2]), Byte2(q[2], q[3]), Unpack(q[4..]));
    Block(q[0], q[1], q[2], q[3]);
    FirstFour(q);
  }

  lemma UnpackStep(q: seq<sextet>)
    requires |q| >= 4
    ensures Unpack(q) == [Byte0(q[0], q[1]), Byte1(q[1], q[2]), Byte2(q[2], q[3])] + Unpack(q[4..])
  {
    hide Byte0, Byte1, Byte2;
  }

  lemma FirstFour(q: seq<sextet>)
    requires |q| >= 4
    ensures q[..4] == [q[0], q[1], q[2], q[3]]
  {
  }

  lemma {:induction false} SextetsUnpack(q: seq<sextet>)
    requires |q| % 4 != 1
    ensures Sextets(Unpack(q)) == Clear(q)
  {
    hide Byte0, Byte1, Byte2, Digit0, Digit1, Digit2, Digit3;
    if |q| == 2 {
      Block(q[0], q[1], 0, 0);
    } else if |q| == 3 {
      Block(q[0], q[1], q[2], 0);
    } else if |q| >= 4 {
      Block(q[0], q[1], q[2], q[3]);
      SextetsUnpack(q[4..]);
      UnpackFour(q);
      hide Unpack, Sextets, Clear;
      SextetsUnpack4(q);
    }
  }

  lemma SextetsUnpack4(q: seq<sextet>)
    requires |q| >= 4 && |q| % 4 != 1
    ensures Clear(q) == q[..4] + Clear(q[4..])
  {
  }

  function Digits(a: Alphabet, q: seq<sextet>): string {
    seq(|q|, i requires 0 <= i < |q| => Digit(a, q[i]))
  }

  function Encode(a: Alphabet, b: Bytes): string {
    Digits(a, Sextets(b))
  }

  function Strip(s: string): string {
    if s == "" then ""
    else (if s[0] == '\r' || s[0] == '\n' then "" else s[..1]) + Strip(s[1..])
  }

  predicate AllDigits(a: Alphabet, s: string) {
    forall i :: 0 <= i < |s| ==> DigitValue(a, s[i]).Some?
  }

  function Values(a: Alphabet, s: string): (q: seq<sextet>)
    requires AllDigits(a, s)
    ensures |q| == |s|
  {
    seq(|s|, i requires 0 <= i < |s| => DigitValue(a, s[i]).value)
  }

  function Decode(a: Alphabet, s: string): Option<Bytes> {
    var t := Strip(s);
    if AllDigits(a, t) && |t| % 4 != 1 then Some(Unpack(Values(a, t))) else None
  }

  lemma DigitsInverse(a: Alphabet, q: seq<sextet>, s: string)
    ensures s == Digits(a, q) <==> AllDigits(a, s) && Values(a, s) == q
  {
    if s == Digits(a, q) {
      forall i | 0 <= i < |s|
        ensures DigitValue(a, s[i]) == Some(q[i])
      {
        DigitInverse(a, s[i], q[i]);
      }
    } else if AllDigits(a, s) && Values(a, s) == q {
      forall i | 0 <= i < |s|
        ensures s[i] == Digit(a, q[i])
      {
        DigitInverse(a, s[i], q[i]);
      }
    }
  }

  lemma {:induction false} StripKeepsDigits(a: Alphabet, s: string)
    requires AllDigits(a, s)
    ensures Strip(s) == s
  {
    if s != "" {
      assert DigitValue(a, s[0]).Some?;
      StripKeepsDigits(a, s[1..]);
    }
  }

  lemma RoundTrip(a: Alphabet, b: Bytes)
    ensures Decode(a, Encode(a, b)) == Some(b)
    ensures AllDigits(a, Encode(a, b)) && |Encode(a, b)| == (4 * |b| + 2) / 3
  {
    UnpackSextets(b);
    SextetsSize(b);
    DigitsInverse(a, Sextets(b), Encode(a, b));
    StripKeepsDigits(a, Encode(a, b));
  }

  /** Exactly the strings that decode to `b`: its encoding, with line breaks anywhere and with the unused
      bits of the last digit set at will. */
  lemma DecodesTo(a: Alphabet, s: string, b: Bytes)
    ensures Decode(a, s) == Some(b)
       <==> AllDigits(a, Strip(s)) && |Strip(s)| % 4 != 1 && Digits(a, Clear(Values(a, Strip(s)))) == Encode(a, b)
  {
    var t := Strip(s);
    if AllDigits(a, t) && |t| % 4 != 1 {
      UnpacksTo(Values(a, t), b);
      DigitsInjective(a, Clear(Values(a, t)), Sextets(b));
    }
  }

  lemma UnpacksTo(q: seq<sextet>, b: Bytes)
    requires |q| % 4 != 1
    ensures Unpack(q) == b <==> Clear(q) == Sextets(b)
  {
    hide Unpack, Sextets, Clear;
    SextetsUnpack(q);
    UnpackSextets(b);
    UnpackSextets(Unpack(q));
  }

  lemma DigitsInjective(a: Alphabet, p: seq<sextet>, q: seq<sextet>)
    ensures Digits(a, p) == Digits(a, q) <==> p == q
  {
    DigitsInverse(a, p, Digits(a, p));
    DigitsInverse(a, q, Digits(a, q));
  }

  lemma {:induction false} StripAppend(s: string, t: string)
    ensures Strip(s + t) == Strip(s) + Strip(t)
  {
    if s == "" {
      assert s + t == t;
    } else {
      StripAppend(s[1..], t);
      assert s + t == s[..1] + (s[1..] + t);
      Assoc(if s[0] == '\r' || s[0] == '\n' then "" else s[..1], Strip(s[1..]), Strip(t));
      assert (s + t)[1..] == s[1..] + t && (s + t)[..1] == s[..1];
    }
  }

  lemma LineBreakIsSkipped(a: Alphabet, s: string, t: string)
    ensures Decode(a, s + "\n" + t) == Decode(a, s + t)
  {
    assert Strip(s + "\n" + t) == Strip(s + t) by {
      StripAppend(s + "\n", t);
      StripAppend(s, "\n");
      StripAppend(s, t);
      assert Strip("\n") == "" + Strip("") == "";
    }
  }

  lemma TwoDigits(c: char, d: char)
    requires DigitValue(Url, c).Some? && DigitValue(Url, d).Some?
    ensures Decode(Url, [c, d]) == Some([Byte0(DigitValue(Url, c).value, DigitValue(Url, d).value)])
  {
    StripKeepsDigits(Url, [c, d]);
  }

  /** A string is not bound to its bytes: these differ and decode alike. */
  lemma StringsAreMalleable()
    ensures Decode(Url, "QQ") == Decode(Url, "QR") == Decode(Url, "Q\nQ") == Some([65])
  {
    hide Decode;
    TwoDigits('Q', 'Q');
    TwoDigits('Q', 'R');
    LineBreakIsSkipped(Url, "Q", "Q");
    assert "QQ" == "Q" + "Q" && "Q\nQ" == "Q" + "\n" + "Q";
  }

  // ---------- digit by digit ----------

  const UPPER := "ABCDEFGHIJKLMNOPQRSTUVWXYZ"
  const LOWER := "abcdefghijklmnopqrstuvwxyz"
  const DECIMAL := "0123456789"

  /** The alphabets as RFC 4648 prints them. */
  function Table(a: Alphabet): (t: string)
    ensures |t| == 64
  {
    UPPER + LOWER + DECIMAL + (if a == Url then "-_" else "+/")
  }

  lemma UpperDigit(v: nat)
    requires v < 26
    ensures UPPER[v] == (v + 65) as char
  {
  }

  lemma LowerDigit(v: nat)
    requires v < 26
    ensures LOWER[v] == (v + 97) as char
  {
  }

  lemma DecimalDigit(v: nat)
    requires v < 10
    ensures DECIMAL[v] == (v + 48) as char
  {
  }

  lemma DigitTable(a: Alphabet, v: sextet)
    ensures Digit(a, v) == Table(a)[v]
  {
    assert |UPPER| == 26 && |LOWER| == 26 && |DECIMAL| == 10;
    hide UPPER, LOWER, DECIMAL;
    if v < 26 {
      UpperDigit(v);
    } else if v < 52 {
      LowerDigit(v - 26);
    } else if v < 62 {
      DecimalDigit(v - 52);
    }
  }

  /** Bytes `3 * i` and after as one number of 24 bits, with zeros for what is missing. */
  function Group(b: Bytes, i: nat): nat
    requires 3 * i < |b|
  {
    b[3 * i] as int * 65536 + (if 3 * i + 1 < |b| then b[3 * i + 1] as int * 256 else 0)
    + (if 3 * i + 2 < |b| then b[3 * i + 2] else 0)
  }

  /** The base-64 digits of a number. */
  lemma FourSextets(q0: sextet, q1: sextet, q2: sextet, q3: sextet)
    ensures var n := q0 as int * 262144 + q1 as int * 4096 + q2 as int * 64 + q3;
            n / 262144 == q0 && n / 4096 % 64 == q1 && n / 64 % 64 == q2 && n % 64 == q3
  {
    var a := q0 as int * 64 + q1;
    var b := a * 64 + q2;
    var n := b * 64 + q3;
    assert n % 64 == q3 && n / 64 == b;
    assert b % 64 == q2 && b / 64 == a && n / 4096 == a;
    assert a % 64 == q1 && a / 64 == q0 && n / 262144 == q0;
  }

  lemma SplitGroup(b0: byte, b1: byte, b2: byte)
    ensures var n := b0 as int * 65536 + b1 as int * 256 + b2;
            n / 262144 == Digit0(b0) && n / 4096 % 64 == Digit1(b0, b1) && n / 64 % 64 == Digit2(b1, b2) && n % 64 == Digit3(b2)
  {
    var a, c, h, l, t, u := b0 / 4, b0 % 4, b1 / 16, b1 % 16, b2 / 64, b2 % 64;
    assert b0 == 4 * a + c && b1 == 16 * h + l && b2 == 64 * t + u;
    FourSextets(a, c * 16 + h, l * 4 + t, u);
  }

  /** Each group of three bytes makes four digits of six bits, from the top; a short last group makes as many
      as it has bits for. */
  lemma {:induction false} DigitsAt(a: Alphabet, b: Bytes, i: nat)
    requires 3 * i < |b|
    ensures var s, n := Encode(a, b), Group(b, i);
            && 4 * i + 1 < |s| && s[4 * i] == Table(a)[n / 262144] && s[4 * i + 1] == Table(a)[n / 4096 % 64]
            && (3 * i + 1 < |b| ==> 4 * i + 2 < |s| && s[4 * i + 2] == Table(a)[n / 64 % 64])
            && (3 * i + 2 < |b| ==> 4 * i + 3 < |s| && s[4 * i + 3] == Table(a)[n % 64])
    decreases i
  {
    hide Digit, Table;
    SextetsAt(b, i);
    var n := Group(b, i);
    DigitTable(a, n / 262144);
    DigitTable(a, n / 4096 % 64);
    DigitTable(a, n / 64 % 64);
    DigitTable(a, n % 64);
  }

  lemma {:induction false} SextetsAt(b: Bytes, i: nat)
    requires 3 * i < |b|
    ensures var q, n := Sextets(b), Group(b, i);
            && 0 <= n / 262144 < 64
            && 4 * i + 1 < |q| && q[4 * i] == n / 262144 && q[4 * i + 1] == n / 4096 % 64
            && (3 * i + 1 < |b| ==> 4 * i + 2 < |q| && q[4 * i + 2] == n / 64 % 64)
            && (3 * i + 2 < |b| ==> 4 * i + 3 < |q| && q[4 * i + 3] == n % 64)
    decreases i
  {
    hide Digit0, Digit1, Digit2, Digit3;
    if i == 0 {
      SplitGroup(b[0], if 1 < |b| then b[1] else 0, if 2 < |b| then b[2] else 0);
    } else {
      SextetsAt(b[3..], i - 1);
      GroupMoves(b, i);
    }
  }

  lemma GroupMoves(b: Bytes, i: nat)
    requires 0 < i && 3 * i < |b|
    ensures Group(b[3..], i - 1) == Group(b, i)
  {
  }

  /** Only line breaks are skipped, every one of them. */
  lemma {:induction false} StripIs(s: string, c: char)
    ensures Strip(s + [c]) == if c == '\r' || c == '\n' then Strip(s) else Strip(s) + [c]
    ensures Strip("") == ""
  {
    StripAppend(s, [c]);
    assert [c][1..] == "" && Strip([c]) == (if c == '\r' || c == '\n' then "" else [c]) + "";
  }
}
