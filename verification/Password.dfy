/** password.go: printing and parsing argon2id hashes in PHC string form. */
module Password {
  import opened Octets
  import opened Errors
  import Base64

  const ALGO := "argon2id"
  const VERSION_TAG := 19
  const MEMORY_KIB := 65536
  const TIME_COST := 2
  const PARALLEL := 1
  const SALT_LEN := 16
  const KEY_LEN := 32

  datatype Params = Params(memoryKiB: nat, timeCost: nat, parallel: nat)

  datatype Phc = Phc(salt: Bytes, hash: Bytes, params: Params)

  // ---------- printing ----------

  function DecimalDigit(d: nat): char
    requires d < 10
  {
    (d + 48) as char
  }

  /** `%d` */
  function Decimal(n: nat): (s: string)
    ensures s != ""
  {
    if n < 10 then [DecimalDigit(n)] else Decimal(n / 10) + [DecimalDigit(n % 10)]
  }

  function ParamText(p: Params): string {
    "m=" + Decimal(p.memoryKiB) + ",t=" + Decimal(p.timeCost) + ",p=" + Decimal(p.parallel)
  }

  /** A PHC string with any parameters. */
  function Layout(h: Phc): string {
    "$" + ALGO + "$v=" + Decimal(VERSION_TAG) + "$" + ParamText(h.params)
    + "$" + Base64.Encode(Base64.Std, h.salt) + "$" + Base64.Encode(Base64.Std, h.hash)
  }

  const DEFAULTS := Params(MEMORY_KIB, TIME_COST, PARALLEL)

  function FormatPHC(salt: Bytes, hash: Bytes): string {
    Layout(Phc(salt, hash, DEFAULTS))
  }

  // ---------- parsing ----------

  /** `strings.Split(s, sep)` */
  function Split(s: string, sep: char): (parts: seq<string>)
    ensures parts != []
  {
    if s == "" then [""]
    else
      var rest := Split(s[1..], sep);
      if s[0] == sep then [""] + rest else [s[..1] + rest[0]] + rest[1..]
  }

  predicate IsDecimal(c: char) {
    '0' <= c <= '9'
  }

  /** The longest run of digits at the front. */
  function DigitRun(s: string): (n: nat)
    ensures n <= |s|
  {
    if s == "" || !IsDecimal(s[0]) then 0 else 1 + DigitRun(s[1..])
  }

  function DecimalValue(s: string): nat {
    if s == "" then 0
    else DecimalValue(s[..|s| - 1]) * 10 + (if IsDecimal(s[|s| - 1]) then s[|s| - 1] as int - 48 else 0)
  }

  /** The scanner at a place in its input; `None` after an error. */
  datatype Scan<+T> = Failed | At(value: T, rest: string)

  function ScanLiteral(s: string, lit: string): Scan<()> {
    if lit <= s then At((), s[|lit|..]) else Failed
  }

  /** `%d` into an unsigned variable that holds values up to `max`. */
  function ScanUint(s: string, max: nat): Scan<nat> {
    var n := DigitRun(s);
    if n == 0 || DecimalValue(s[..n]) > max then Failed else At(DecimalValue(s[..n]), s[n..])
  }

  /** `%d` into an `int`, which may have a sign. */
  function ScanInt(s: string): Scan<int> {
    var signed := s != "" && (s[0] == '-' || s[0] == '+');
    match ScanUint(if signed then s[1..] else s, if signed && s[0] == '-' then 0x8000_0000_0000_0000 else 0x7FFF_FFFF_FFFF_FFFF)
    case Failed => Failed
    case At(n, rest) => At(if signed && s[0] == '-' then -(n as int) else n, rest)
  }

  /** `Sscanf(s, "v=%d", &ver)`. What follows the number is not looked at. */
  function ScanVersion(s: string): Scan<int> {
    match ScanLiteral(s, "v=")
    case Failed => Failed
    case At(_, r) => ScanInt(r)
  }

  function ScanField(s: string, lit: string, max: nat): Scan<nat> {
    match ScanLiteral(s, lit)
    case Failed => Failed
    case At(_, r) => ScanUint(r, max)
  }

  /** `Sscanf(s, "m=%d,t=%d,p=%d", &m, &t, &p)` into two `uint32` and a `uint8`. */
  function ScanParams(s: string): Scan<Params> {
    match ScanField(s, "m=", TWO_32 - 1)
    case Failed => Failed
    case At(m, r) =>
      match ScanField(r, ",t=", TWO_32 - 1)
      case Failed => Failed
      case At(t, r') =>
        match ScanField(r', ",p=", 255)
        case Failed => Failed
        case At(p, rest) => At(Params(m, t, p), rest)
  }

  function ParsePHC(s: string): Result<Phc> {
    var parts := Split(s, '$');
    if |parts| != 6 || parts[0] != "" || parts[1] != ALGO then Err(InvalidPasswordHash)
    else
      var ver := ScanVersion(parts[2]);
      if ver.Failed? || ver.value != VERSION_TAG then Err(InvalidPasswordHash)
      else
        match (ScanParams(parts[3]), Base64.Decode(Base64.Std, parts[4]), Base64.Decode(Base64.Std, parts[5]))
        case (At(params, _), Some(salt), Some(hash)) =>
          if salt == [] || hash == [] then Err(InvalidPasswordHash) else Ok(Phc(salt, hash, params))
        case _ => Err(InvalidPasswordHash)
  }

  // ---------- hashing and verifying ----------

  /** `argon2.IDKey(password, salt, time, memory, threads, keyLen)` */
  type Kdf = (Bytes, Bytes, nat, nat, nat, nat) -> Bytes

  function Derive(kdf: Kdf, plaintext: Bytes, salt: Bytes, p: Params, len: nat): Bytes {
    kdf(plaintext, salt, p.timeCost, p.memoryKiB, p.parallel, len)
  }

  method HashPassword(kdf: Kdf, plaintext: Bytes, entropy: Option<Bytes>) returns (r: Result<string>)
    requires entropy.Some? ==> |entropy.value| == SALT_LEN
    ensures r == if entropy.None? then Err(EntropyFault)
                 else Ok(FormatPHC(entropy.value, Derive(kdf, plaintext, entropy.value, DEFAULTS, KEY_LEN)))
    ensures entropy.Some? ==>
      r == Ok("$argon2id$v=19$m=65536,t=2,p=1$" + Base64.Encode(Base64.Std, entropy.value)
              + "$" + Base64.Encode(Base64.Std, kdf(plaintext, entropy.value, 2, 65536, 1, 32)))
  {
    if entropy.None? {
      return Err(EntropyFault);
    }
    var salt := new byte[SALT_LEN](_ => 0);
    forall i | 0 <= i < SALT_LEN {
      salt[i] := entropy.value[i];
    }
    assert salt[..] == entropy.value;
    var hash := kdf(plaintext, salt[..], TIME_COST, MEMORY_KIB, PARALLEL, KEY_LEN);
    DefaultText(salt[..], hash);
    return Ok(FormatPHC(salt[..], hash));
  }

  /** `IDKey` panics on a time cost or parallelism of zero. */
  predicate DerivationPanics(p: Params) {
    p.timeCost == 0 || p.parallel == 0
  }

  datatype Outcome = Panic | Returns(r: Result<bool>)

  function VerifyPassword(kdf: Kdf, plaintext: Bytes, stored: string): Outcome {
    match ParsePHC(stored)
    case Err(e) => Returns(Err(e))
    case Ok(h) =>
      if DerivationPanics(h.params) then Panic
      else Returns(Ok(Derive(kdf, plaintext, h.salt, h.params, Wrap32(|h.hash|)) == h.hash))
  }

  // ---------- parsing undoes printing ----------

  lemma {:induction false} SplitOne(a: string, sep: char)
    requires sep !in a
    ensures Split(a, sep) == [a]
  {
    if a != "" {
      SplitOne(a[1..], sep);
      assert a == a[..1] + a[1..];
    }
  }

  lemma {:induction false} SplitAt(a: string, sep: char, b: string)
    requires sep !in a
    ensures Split(a + [sep] + b, sep) == [a] + Split(b, sep)
  {
    var s := a + [sep] + b;
    if a == "" {
      assert s[1..] == b;
    } else {
      SplitAt(a[1..], sep, b);
      assert s[1..] == a[1..] + [sep] + b && s[..1] == a[..1];
      assert a == a[..1] + a[1..];
    }
  }

  lemma {:induction false} DecimalIsDigits(n: nat)
    ensures forall i :: 0 <= i < |Decimal(n)| ==> IsDecimal(Decimal(n)[i])
    ensures DecimalValue(Decimal(n)) == n
  {
    if n >= 10 {
      DecimalIsDigits(n / 10);
      var s := Decimal(n);
      assert s[..|s| - 1] == Decimal(n / 10);
    } else {
      assert DecimalValue([DecimalDigit(n)][..0]) == 0;
    }
  }

  lemma {:induction false} RunOfDigits(s: string, rest: string)
    requires forall i :: 0 <= i < |s| ==> IsDecimal(s[i])
    requires rest == "" || !IsDecimal(rest[0])
    ensures DigitRun(s + rest) == |s|
  {
    if s == "" {
      assert s + rest == rest;
    } else {
      assert (s + rest)[1..] == s[1..] + rest;
      RunOfDigits(s[1..], rest);
    }
  }

  /** A printed number is scanned back, unless it is too large for its variable. */
  lemma ScansNumber(n: nat, rest: string, max: nat)
    requires rest == "" || !IsDecimal(rest[0])
    ensures ScanUint(Decimal(n) + rest, max) == if n <= max then At(n, rest) else Failed
  {
    DecimalIsDigits(n);
    RunOfDigits(Decimal(n), rest);
    assert (Decimal(n) + rest)[..|Decimal(n)|] == Decimal(n);
  }

  lemma ScansField(lit: string, n: nat, rest: string, max: nat)
    requires rest == "" || !IsDecimal(rest[0])
    ensures ScanField(lit + Decimal(n) + rest, lit, max) == if n <= max then At(n, rest) else Failed
  {
    assert (lit + Decimal(n) + rest)[|lit|..] == Decimal(n) + rest;
    ScansNumber(n, rest, max);
  }

  predicate InRange(p: Params) {
    p.memoryKiB < TWO_32 && p.timeCost < TWO_32 && p.parallel < 256
  }

  lemma ScansParams(p: Params)
    ensures ScanParams(ParamText(p)) == if InRange(p) then At(p, "") else Failed
  {
    hide ScanField, Decimal;
    var p' := ",p=" + Decimal(p.parallel) + "";
    var t' := ",t=" + Decimal(p.timeCost) + p';
    var m' := "m=" + Decimal(p.memoryKiB) + t';
    assert m' == ParamText(p);
    ScansField("m=", p.memoryKiB, t', TWO_32 - 1);
    ScansField(",t=", p.timeCost, p', TWO_32 - 1);
    ScansField(",p=", p.parallel, "", 255);
  }

  lemma ScansVersion()
    ensures ScanVersion("v=" + Decimal(VERSION_TAG)) == At(VERSION_TAG, "")
  {
    var s := "v=" + Decimal(VERSION_TAG);
    DecimalIsDigits(VERSION_TAG);
    assert s[2..] == Decimal(VERSION_TAG) + "";
    ScansNumber(VERSION_TAG, "", 0x7FFF_FFFF_FFFF_FFFF);
  }

  lemma NoDollar(b: Bytes, n: nat)
    ensures '$' !in Base64.Encode(Base64.Std, b) && '$' !in Decimal(n)
  {
    Base64.RoundTrip(Base64.Std, b);
    DecimalIsDigits(n);
    var s := Base64.Encode(Base64.Std, b);
    forall i | 0 <= i < |s|
      ensures s[i] != '$'
    {
      assert Base64.DigitValue(Base64.Std, s[i]).Some?;
    }
  }

  lemma SplitsLayout(h: Phc)
    ensures Split(Layout(h), '$')
         == ["", ALGO, "v=" + Decimal(VERSION_TAG), ParamText(h.params),
             Base64.Encode(Base64.Std, h.salt), Base64.Encode(Base64.Std, h.hash)]
  {
    hide Base64.Encode, Decimal, Split;
    NoDollar(h.salt, h.params.memoryKiB);
    NoDollar(h.hash, h.params.timeCost);
    NoDollar(h.hash, h.params.parallel);
    NoDollar(h.hash, VERSION_TAG);
    var s5 := Base64.Encode(Base64.Std, h.hash);
    var s4 := Base64.Encode(Base64.Std, h.salt) + ['$'] + s5;
    var s3 := ParamText(h.params) + ['$'] + s4;
    var s2 := "v=" + Decimal(VERSION_TAG) + ['$'] + s3;
    var s1 := ALGO + ['$'] + s2;
    assert Layout(h) == "" + ['$'] + s1;
    SplitAt("", '$', s1);
    SplitAt(ALGO, '$', s2);
    SplitAt("v=" + Decimal(VERSION_TAG), '$', s3);
    SplitAt(ParamText(h.params), '$', s4);
    SplitAt(Base64.Encode(Base64.Std, h.salt), '$', s5);
    SplitOne(s5, '$');
  }

  /** A printed hash parses back to what was printed exactly when its numbers fit their fields and neither
      salt nor hash is empty. */
  lemma ParseInvertsLayout(h: Phc)
    ensures ParsePHC(Layout(h)) == Ok(h) <==> InRange(h.params) && h.salt != [] && h.hash != []
    ensures ParsePHC(Layout(h)) == Ok(h) || ParsePHC(Layout(h)) == Err(InvalidPasswordHash)
  {
    hide Base64.Encode, Base64.Decode, Decimal, Split, ScanVersion, ScanParams, ParamText, Layout;
    SplitsLayout(h);
    ScansVersion();
    ScansParams(h.params);
    Base64.RoundTrip(Base64.Std, h.salt);
    Base64.RoundTrip(Base64.Std, h.hash);
  }

  /** A stored hash with any costs: a cost that the derivation refuses makes the call panic; under all others
      it verifies exactly the passwords from which those costs derive the stored bytes. */
  lemma VerifiesStored(kdf: Kdf, plaintext: Bytes, h: Phc)
    requires InRange(h.params) && h.salt != [] && h.hash != []
    ensures VerifyPassword(kdf, plaintext, Layout(h)) == Panic <==> h.params.timeCost == 0 || h.params.parallel == 0
    ensures h.params.timeCost > 0 && h.params.parallel > 0 ==>
      VerifyPassword(kdf, plaintext, Layout(h))
      == Returns(Ok(Derive(kdf, plaintext, h.salt, h.params, Wrap32(|h.hash|)) == h.hash))
  {
    hide ParsePHC, Layout;
    ParseInvertsLayout(h);
  }

  /** No password makes a difference to whether a stored string panics, errors or is compared. */
  lemma StoredDecides(kdf: Kdf, p: Bytes, q: Bytes, stored: string)
    ensures VerifyPassword(kdf, p, stored).Panic?
       <==> ParsePHC(stored).Ok? && (ParsePHC(stored).value.params.timeCost == 0 || ParsePHC(stored).value.params.parallel == 0)
    ensures VerifyPassword(kdf, p, stored).Panic? <==> VerifyPassword(kdf, q, stored).Panic?
    ensures VerifyPassword(kdf, p, stored) == Returns(Err(InvalidPasswordHash)) <==> ParsePHC(stored).Err?
  {
    hide Split, ScanVersion, ScanParams, Base64.Decode;
  }

  /** `VerifyPassword` accepts what `HashPassword` stored, for that password; another one only if the
      derivation cannot tell them apart under this salt. It never panics on what was stored so. */
  lemma VerifiesHashed(kdf: Kdf, plaintext: Bytes, salt: Bytes, other: Bytes)
    requires |salt| == SALT_LEN && |Derive(kdf, plaintext, salt, DEFAULTS, KEY_LEN)| == KEY_LEN
    ensures var stored := FormatPHC(salt, Derive(kdf, plaintext, salt, DEFAULTS, KEY_LEN));
            && VerifyPassword(kdf, plaintext, stored) == Returns(Ok(true))
            && VerifyPassword(kdf, other, stored).Returns?
            && (VerifyPassword(kdf, other, stored) == Returns(Ok(true)) <==>
                  Derive(kdf, other, salt, DEFAULTS, KEY_LEN) == Derive(kdf, plaintext, salt, DEFAULTS, KEY_LEN))
  {
    hide VerifyPassword, Layout, Derive;
    var h := Phc(salt, Derive(kdf, plaintext, salt, DEFAULTS, KEY_LEN), DEFAULTS);
    WrapKeeps(KEY_LEN);
    VerifiesStored(kdf, plaintext, h);
    VerifiesStored(kdf, other, h);
  }

  // ---------- spelled out ----------

  /** Decimal notation, digit by digit. */
  lemma DecimalIs(n: nat)
    ensures n < 10 ==> Decimal(n) == ["0123456789"[n]]
    ensures n >= 10 ==> Decimal(n) == Decimal(n / 10) + ["0123456789"[n % 10]]
  {
  }

  lemma DefaultNumbers()
    ensures Decimal(19) == "19" && Decimal(65536) == "65536" && Decimal(2) == "2" && Decimal(1) == "1"
  {
    assert Decimal(6) == "6" && Decimal(65) == Decimal(6) + "5" && Decimal(655) == Decimal(65) + "5";
    assert Decimal(6553) == Decimal(655) + "3" && Decimal(65536) == Decimal(6553) + "6";
    assert Decimal(19) == Decimal(1) + "9";
  }

  /** The text around any salt, hash and costs. */
  lemma LayoutIs(h: Phc)
    ensures Layout(h)
         == "$argon2id$v=19$m=" + Decimal(h.params.memoryKiB) + ",t=" + Decimal(h.params.timeCost)
            + ",p=" + Decimal(h.params.parallel)
            + "$" + Base64.Encode(Base64.Std, h.salt) + "$" + Base64.Encode(Base64.Std, h.hash)
  {
    DefaultNumbers();
    hide Decimal, Base64.Encode;
    var m, t, p := Decimal(h.params.memoryKiB), Decimal(h.params.timeCost), Decimal(h.params.parallel);
    assert "$" + ALGO + "$v=" + "19" + "$" + "m=" == "$argon2id$v=19$m=";
    assert "$" + ALGO + "$v=" + "19" + "$" + ("m=" + m + ",t=" + t + ",p=" + p)
        == "$argon2id$v=19$m=" + m + ",t=" + t + ",p=" + p;
  }

  lemma DefaultText(salt: Bytes, hash: Bytes)
    ensures FormatPHC(salt, hash)
         == "$argon2id$v=19$m=65536,t=2,p=1$" + Base64.Encode(Base64.Std, salt) + "$" + Base64.Encode(Base64.Std, hash)
  {
    hide Decimal, Base64.Encode, Layout;
    LayoutIs(Phc(salt, hash, DEFAULTS));
    DefaultNumbers();
    assert "$argon2id$v=19$m=" + "65536" + ",t=" + "2" + ",p=" + "1" + "$" == "$argon2id$v=19$m=65536,t=2,p=1$";
  }

  /** Any stored hash against any password: the printed numbers are the costs of the derivation, each in its
      own place, and a time cost or parallelism of zero is a panic. */
  lemma VerifiesText(kdf: Kdf, plaintext: Bytes, m: nat, t: nat, p: nat, salt: Bytes, hash: Bytes)
    requires m < 0x1_0000_0000 && t < 0x1_0000_0000 && p < 256
    requires salt != [] && 0 < |hash| < 0x1_0000_0000
    ensures VerifyPassword(kdf, plaintext,
                           "$argon2id$v=19$m=" + Decimal(m) + ",t=" + Decimal(t) + ",p=" + Decimal(p)
                           + "$" + Base64.Encode(Base64.Std, salt) + "$" + Base64.Encode(Base64.Std, hash))
         == if t == 0 || p == 0 then Panic else Returns(Ok(kdf(plaintext, salt, t, m, p, |hash|) == hash))
  {
    hide Decimal, Base64.Encode, Layout, VerifyPassword, Wrap32;
    var h := Phc(salt, hash, Params(m, t, p));
    LayoutIs(h);
    WrapKeeps(|hash|);
    VerifiesStored(kdf, plaintext, h);
  }

  /** The same for the costs the package hashes with. */
  lemma VerifiesDefaultText(kdf: Kdf, plaintext: Bytes, salt: Bytes, hash: Bytes)
    requires salt != [] && 0 < |hash| < 0x1_0000_0000
    ensures VerifyPassword(kdf, plaintext,
                           "$argon2id$v=19$m=65536,t=2,p=1$" + Base64.Encode(Base64.Std, salt)
                           + "$" + Base64.Encode(Base64.Std, hash))
         == Returns(Ok(kdf(plaintext, salt, 2, 65536, 1, |hash|) == hash))
  {
    hide Decimal, Base64.Encode, Layout, VerifyPassword, Wrap32;
    var h := Phc(salt, hash, DEFAULTS);
    DefaultText(salt, hash);
    WrapKeeps(|hash|);
    VerifiesStored(kdf, plaintext, h);
  }

  // ---------- which strings are hashes ----------

  predicate Stops(rest: string) {
    rest == "" || !('0' <= rest[0] <= '9')
  }

  /** Digits, leading zeros included, that denote `n`. */
  predicate Denotes(d: string, n: nat) {
    d != "" && (forall i :: 0 <= i < |d| ==> '0' <= d[i] <= '9') && DecimalValue(d) == n
  }

  lemma ValueIs(d: string, v: nat)
    requires v < 10
    ensures DecimalValue("") == 0 && DecimalValue(d + ["0123456789"[v]]) == 10 * DecimalValue(d) + v
  {
    var c := "0123456789"[v];
    assert c as int == v + 48;
    assert (d + [c])[..|d|] == d;
  }

  lemma {:induction false} RunIsMaximal(s: string)
    ensures forall i :: 0 <= i < DigitRun(s) ==> '0' <= s[i] <= '9'
    ensures Stops(s[DigitRun(s)..])
  {
    if s != "" && IsDecimal(s[0]) {
      RunIsMaximal(s[1..]);
      assert s[1..][DigitRun(s[1..])..] == s[DigitRun(s)..];
      assert forall i :: 0 < i < DigitRun(s) ==> s[i] == s[1..][i - 1];
    }
  }

  lemma ReadsUint(s: string, max: nat, n: nat, rest: string)
    ensures ScanUint(s, max) == At(n, rest) <==> n <= max && Stops(rest) && exists d :: Denotes(d, n) && s == d + rest
  {
    RunIsMaximal(s);
    if ScanUint(s, max) == At(n, rest) {
      var d := s[..DigitRun(s)];
      assert Denotes(d, n) && s == d + rest;
    }
    if d :| n <= max && Stops(rest) && Denotes(d, n) && s == d + rest {
      RunOfDigits(d, rest);
      assert s[..|d|] == d && s[|d|..] == rest;
    }
  }

  function Join(parts: seq<string>, sep: char): string
    requires parts != []
  {
    if |parts| == 1 then parts[0] else parts[0] + [sep] + Join(parts[1..], sep)
  }

  lemma JoinOne(part: string, sep: char)
    ensures Join([part], sep) == part
  {
  }

  lemma JoinStep(parts: seq<string>, i: nat, sep: char)
    requires i + 1 < |parts|
    ensures Join(parts[i..], sep) == parts[i] + [sep] + Join(parts[i + 1..], sep)
  {
    assert parts[i..][1..] == parts[i + 1..];
  }

  lemma {:induction false} SplitIsInverse(s: string, sep: char)
    ensures Join(Split(s, sep), sep) == s
    ensures forall i :: 0 <= i < |Split(s, sep)| ==> sep !in Split(s, sep)[i]
  {
    if s != "" {
      SplitIsInverse(s[1..], sep);
      var rest, parts := Split(s[1..], sep), Split(s, sep);
      assert s == s[..1] + s[1..];
      if s[0] == sep {
        assert parts[1..] == rest && s[..1] == [sep];
      } else {
        assert parts[1..] == rest[1..] && parts[0] == s[..1] + rest[0];
      }
    }
  }

  /** `v=19`, with a plus sign or leading zeros perhaps, and anything behind the number. */
  ghost predicate ReadsVersion(v: string) {
    exists sign, d, rest :: Denotes(d, 19) && Stops(rest) && sign in {"", "+"} && v == "v=" + sign + (d + rest)
  }

  /** `m=..,t=..,p=..`, each number within its variable, and anything behind the last. */
  ghost predicate ReadsCosts(s: string, c: Params) {
    && c.memoryKiB < 0x1_0000_0000 && c.timeCost < 0x1_0000_0000 && c.parallel < 256
    && exists dm, dt, dp, rest ::
         && Denotes(dm, c.memoryKiB) && Denotes(dt, c.timeCost) && Denotes(dp, c.parallel) && Stops(rest)
         && s == "m=" + (dm + (",t=" + (dt + (",p=" + (dp + rest)))))
  }

  lemma FirstDigit(d: string, n: nat, rest: string)
    requires Denotes(d, n)
    ensures d + rest != "" && '0' <= (d + rest)[0] <= '9'
  {
  }

  lemma FoundVersion(v: string)
    requires ScanVersion(v).At? && ScanVersion(v).value == 19
    ensures ReadsVersion(v)
  {
    hide ScanUint, Denotes, Stops;
    var r := v[2..];
    var sign := if r != "" && r[0] == '+' then "+" else "";
    var digits, rest := r[|sign|..], ScanVersion(v).rest;
    assert v == "v=" + r && r == sign + digits;
    assert ScanUint(digits, 0x7FFF_FFFF_FFFF_FFFF) == At(19, rest);
    ReadsUint(digits, 0x7FFF_FFFF_FFFF_FFFF, 19, rest);
    var d :| Denotes(d, 19) && digits == d + rest;
    assert v == "v=" + sign + (d + rest);
  }

  lemma VersionFound(v: string, sign: string, d: string, rest: string)
    requires Denotes(d, 19) && Stops(rest) && sign in {"", "+"} && v == "v=" + sign + (d + rest)
    ensures ScanVersion(v) == At(19, rest)
  {
    hide ScanUint, Denotes, Stops;
    var r, digits := sign + (d + rest), d + rest;
    assert v == "v=" + r && v[2..] == r;
    FirstDigit(d, 19, rest);
    ReadsUint(digits, 0x7FFF_FFFF_FFFF_FFFF, 19, rest);
    if sign == "+" {
      assert r[0] == '+' && r[1..] == digits;
    } else {
      assert r == digits;
    }
    assert ScanInt(r) == At(19, rest);
  }

  lemma VersionIs(v: string)
    ensures ScanVersion(v).At? && ScanVersion(v).value == 19 <==> ReadsVersion(v)
  {
    hide ScanVersion, Denotes, Stops;
    if ScanVersion(v).At? && ScanVersion(v).value == 19 {
      FoundVersion(v);
    }
    if sign, d, rest :| Denotes(d, 19) && Stops(rest) && sign in {"", "+"} && v == "v=" + sign + (d + rest) {
      VersionFound(v, sign, d, rest);
    }
  }

  lemma FieldIs(s: string, lit: string, max: nat, n: nat, rest: string)
    ensures ScanField(s, lit, max) == At(n, rest) <==> n <= max && Stops(rest) && exists d :: Denotes(d, n) && s == lit + (d + rest)
  {
    hide ScanUint, Denotes;
    if lit <= s {
      ReadsUint(s[|lit|..], max, n, rest);
      assert s == lit + s[|lit|..];
    }
    forall d | s == lit + (d + rest)
      ensures lit <= s && s[|lit|..] == d + rest
    {
    }
  }

  lemma CostsAre(s: string, c: Params)
    ensures ScanParams(s).At? && ScanParams(s).value == c <==> ReadsCosts(s, c)
  {
    hide ScanField, Denotes;
    if ScanParams(s).At? && ScanParams(s).value == c {
      var r1 := ScanField(s, "m=", TWO_32 - 1).rest;
      var r2 := ScanField(r1, ",t=", TWO_32 - 1).rest;
      var rest := ScanParams(s).rest;
      FieldIs(s, "m=", TWO_32 - 1, c.memoryKiB, r1);
      FieldIs(r1, ",t=", TWO_32 - 1, c.timeCost, r2);
      FieldIs(r2, ",p=", 255, c.parallel, rest);
      var dm :| Denotes(dm, c.memoryKiB) && s == "m=" + (dm + r1);
      var dt :| Denotes(dt, c.timeCost) && r1 == ",t=" + (dt + r2);
      var dp :| Denotes(dp, c.parallel) && r2 == ",p=" + (dp + rest);
      assert ReadsCosts(s, c);
    }
    if ReadsCosts(s, c) {
      var dm, dt, dp, rest :| Denotes(dm, c.memoryKiB) && Denotes(dt, c.timeCost) && Denotes(dp, c.parallel) && Stops(rest)
        && s == "m=" + (dm + (",t=" + (dt + (",p=" + (dp + rest)))));
      var r2 := ",p=" + (dp + rest);
      var r1 := ",t=" + (dt + r2);
      FieldIs(s, "m=", TWO_32 - 1, c.memoryKiB, r1);
      FieldIs(r1, ",t=", TWO_32 - 1, c.timeCost, r2);
      FieldIs(r2, ",p=", 255, c.parallel, rest);
    }
  }

  function Joined(v: string, costs: string, salt: string, hash: string): string {
    "$argon2id$" + v + "$" + costs + "$" + salt + "$" + hash
  }

  /** The string is a hash with these contents: five parts, of which the first names the algorithm. */
  ghost predicate IsHash(s: string, h: Phc) {
    exists v, costs, salt, hash :: s == Joined(v, costs, salt, hash) && HoldParts(h, v, costs, salt, hash)
  }

  ghost predicate HoldParts(h: Phc, v: string, costs: string, salt: string, hash: string) {
    && '$' !in v && '$' !in costs && '$' !in salt && '$' !in hash
    && ReadsVersion(v) && ReadsCosts(costs, h.params)
    && Base64.Decode(Base64.Std, salt) == Some(h.salt) && h.salt != []
    && Base64.Decode(Base64.Std, hash) == Some(h.hash) && h.hash != []
  }

  lemma JoinedIs(v: string, costs: string, salt: string, hash: string)
    ensures Joined(v, costs, salt, hash)
         == "" + ['$'] + ("argon2id" + ['$'] + (v + ['$'] + (costs + ['$'] + (salt + ['$'] + hash))))
  {
    assert "$argon2id$" == ['$'] + "argon2id" + ['$'];
  }

  lemma JoinedSplits(v: string, costs: string, salt: string, hash: string)
    requires '$' !in v && '$' !in costs && '$' !in salt && '$' !in hash
    ensures Split(Joined(v, costs, salt, hash), '$') == ["", "argon2id", v, costs, salt, hash]
  {
    hide Split, Joined;
    var s4 := salt + ['$'] + hash;
    var s3 := costs + ['$'] + s4;
    var s2 := v + ['$'] + s3;
    var s1 := "argon2id" + ['$'] + s2;
    JoinedIs(v, costs, salt, hash);
    SplitAt("", '$', s1);
    SplitAt("argon2id", '$', s2);
    SplitAt(v, '$', s3);
    SplitAt(costs, '$', s4);
    SplitAt(salt, '$', hash);
    SplitOne(hash, '$');
  }

  lemma SplitsJoined(s: string)
    requires var parts := Split(s, '$'); |parts| == 6 && parts[0] == "" && parts[1] == "argon2id"
    ensures var parts := Split(s, '$');
            && s == Joined(parts[2], parts[3], parts[4], parts[5])
            && '$' !in parts[2] && '$' !in parts[3] && '$' !in parts[4] && '$' !in parts[5]
  {
    SplitIsInverse(s, '$');
    hide Split, Joined;
    var parts := Split(s, '$');
    JoinedIs(parts[2], parts[3], parts[4], parts[5]);
    var s4 := parts[4] + ['$'] + parts[5];
    var s3 := parts[3] + ['$'] + s4;
    var s2 := parts[2] + ['$'] + s3;
    var s1 := "argon2id" + ['$'] + s2;
    hide Join;
    JoinOne(parts[5], '$');
    JoinStep(parts, 4, '$');
    JoinStep(parts, 3, '$');
    JoinStep(parts, 2, '$');
    JoinStep(parts, 1, '$');
    JoinStep(parts, 0, '$');
    assert parts[5..] == [parts[5]] && parts[0..] == parts;
  }

  /** `parsePHC` accepts exactly the strings that are hashes, with their contents, and has one error for all
      others. */
  lemma ParsesExactly(s: string, h: Phc)
    ensures ParsePHC(s) == Ok(h) <==> IsHash(s, h)
    ensures ParsePHC(s).Err? ==> ParsePHC(s) == Err(InvalidPasswordHash)
  {
    hide Split, ScanVersion, ScanParams, Base64.Decode, Joined, ReadsVersion, ReadsCosts;
    if ParsePHC(s) == Ok(h) {
      var parts := Split(s, '$');
      SplitsJoined(s);
      VersionIs(parts[2]);
      CostsAre(parts[3], h.params);
      assert HoldParts(h, parts[2], parts[3], parts[4], parts[5]);
    }
    if v, costs, salt, hash :| s == Joined(v, costs, salt, hash) && HoldParts(h, v, costs, salt, hash) {
      JoinedSplits(v, costs, salt, hash);
      VersionIs(v);
      CostsAre(costs, h.params);
    }
  }
}
