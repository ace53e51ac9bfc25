/** Bytes, byte strings and the big-endian integer fields the wire formats use. */
module Octets {

  type byte = x: int | 0 <= x < 256

  type Bytes = seq<byte>

  const TWO_32: int := 0x1_0000_0000
  const TWO_64: int := 0x1_0000_0000_0000_0000

  type uint32 = x: int | 0 <= x < TWO_32

  datatype Option<+T> = None | Some(value: T)

  /** Conversion to `uint32` drops everything above bit 31. */
  function Wrap32(n: nat): uint32 {
    n % TWO_32
  }

  lemma WrapKeeps(n: nat)
    ensures Wrap32(n) == n <==> n < TWO_32
  {
  }

  lemma WrapPeriod(n: nat)
    ensures Wrap32(n + TWO_32) == Wrap32(n)
  {
  }

  /** `counter++` */
  function Next32(counter: uint32): uint32 {
    Wrap32(counter + 1)
  }

  lemma WrapNext(n: nat)
    ensures Next32(Wrap32(n)) == Wrap32(n + 1)
  {
    var q, r := n / TWO_32, n % TWO_32;
    if r + 1 < TWO_32 {
      assert (n + 1) / TWO_32 == q;
    } else {
      assert n + 1 == (q + 1) * TWO_32;
    }
  }

  function Be32(n: uint32): (b: Bytes)
    ensures |b| == 4
  {
    [n / 0x100_0000, n / 0x1_0000 % 256, n / 256 % 256, n % 256]
  }

  function FromBe32(b: Bytes): uint32
    requires |b| == 4
  {
    b[0] as int * 0x100_0000 + b[1] as int * 0x1_0000 + b[2] as int * 256 + b[3]
  }

  lemma Be32Decodes(n: uint32)
    ensures FromBe32(Be32(n)) == n
  {
    var a := n / 256;
    var b := a / 256;
    assert n / 0x1_0000 == b && n / 0x100_0000 == b / 256;
    assert n == a * 256 + n % 256 && a == b * 256 + a % 256;
  }

  /** The base-256 digits of a number. */
  lemma Digits(p: byte, q: byte, r: byte, s: byte)
    ensures var n := p as int * 0x100_0000 + q as int * 0x1_0000 + r as int * 256 + s;
            n / 0x100_0000 == p && n / 0x1_0000 % 256 == q && n / 256 % 256 == r && n % 256 == s
  {
    var a: int := p as int * 256 + q;
    var b: int := a * 256 + r;
    var n := b * 256 + s;
    assert n % 256 == s && n / 256 == b;
    assert b % 256 == r && b / 256 == a && n / 0x1_0000 == a;
    assert a % 256 == q && a / 256 == p && n / 0x100_0000 == p;
  }

  lemma Be32Encodes(b: Bytes)
    requires |b| == 4
    ensures Be32(FromBe32(b)) == b
  {
    Digits(b[0], b[1], b[2], b[3]);
  }

  /** The field holds `n` exactly when it decodes to `n`. */
  lemma Be32Inverse(n: uint32, b: Bytes)
    requires |b| == 4
    ensures Be32(n) == b <==> FromBe32(b) == n
  {
    Be32Decodes(n);
    Be32Encodes(b);
  }

  /** Big-endian: the bytes of a number are its digits, the highest first. */
  lemma Be32Digits(n: uint32, a: byte, b: byte, c: byte, d: byte)
    ensures Be32(n) == [a, b, c, d] <==> n == a as int * 16777216 + b as int * 65536 + c as int * 256 + d
  {
    Be32Inverse(n, [a, b, c, d]);
  }

  lemma Be32Injective(m: uint32, n: uint32)
    ensures Be32(m) == Be32(n) <==> m == n
  {
    Be32Inverse(m, Be32(m));
    Be32Inverse(n, Be32(n));
  }

  function Be64(n: int): (b: Bytes)
    requires 0 <= n < TWO_64
    ensures |b| == 8
  {
    Be32(n / TWO_32) + Be32(n % TWO_32)
  }

  function FromBe64(b: Bytes): (n: int)
    requires |b| == 8
    ensures 0 <= n < TWO_64
  {
    FromBe32(b[..4]) * TWO_32 + FromBe32(b[4..])
  }

  lemma Be64Inverse(n: int)
    requires 0 <= n < TWO_64
    ensures FromBe64(Be64(n)) == n
  {
    assert Be64(n)[..4] == Be32(n / TWO_32) && Be64(n)[4..] == Be32(n % TWO_32);
    Be32Inverse(n / TWO_32, Be32(n / TWO_32));
    Be32Inverse(n % TWO_32, Be32(n % TWO_32));
  }

  lemma Be64Encodes(b: Bytes)
    requires |b| == 8
    ensures Be64(FromBe64(b)) == b
  {
    hide Be32, FromBe32;
    var hi, lo := FromBe32(b[..4]), FromBe32(b[4..]);
    Be32Inverse(hi, b[..4]);
    Be32Inverse(lo, b[4..]);
    assert b == b[..4] + b[4..];
  }

  /** The same for eight bytes, in two halves. */
  lemma Be64Digits(n: int, hi: uint32, lo: uint32)
    requires 0 <= n < 18446744073709551616
    ensures Be64(n) == Be32(hi) + Be32(lo) <==> n == hi * 4294967296 + lo
  {
    hide Be32, FromBe32;
    Be32Inverse(hi, Be32(hi));
    Be32Inverse(lo, Be32(lo));
    var b := Be32(hi) + Be32(lo);
    assert b[..4] == Be32(hi) && b[4..] == Be32(lo);
    Be64Inverse(n);
    Be64Encodes(b);
  }

  lemma Assoc<T>(a: seq<T>, b: seq<T>, c: seq<T>)
    ensures (a + b) + c == a + (b + c)
  {
  }

  lemma DropDrop<T>(s: seq<T>, m: nat, n: nat)
    requires m + n <= |s|
    ensures s[m..][n..] == s[m + n..]
  {
  }

  function Concat<T>(parts: seq<seq<T>>): seq<T> {
    if parts == [] then [] else parts[0] + Concat(parts[1..])
  }

  lemma ConcatSlice<T>(s: seq<seq<T>>, i: nat, j: nat)
    requires i < j <= |s|
    ensures Concat(s[i..j]) == s[i] + Concat(s[i + 1..j])
  {
    assert s[i..j][0] == s[i] && s[i..j][1..] == s[i + 1..j];
  }

  lemma {:induction false} ConcatAppend<T>(a: seq<seq<T>>, b: seq<seq<T>>)
    ensures Concat(a + b) == Concat(a) + Concat(b)
  {
    if a == [] {
      assert a + b == b;
    } else {
      assert (a + b)[1..] == a[1..] + b;
      ConcatAppend(a[1..], b);
    }
  }
}
