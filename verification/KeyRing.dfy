/** keyring.go: keys under key ids, one of them active. Writes use the active key, reads go by the id in
    the frame, and version-1 frames, which carry none, are tried with every key. */
module KeyRing {
  import opened Octets
  import opened Errors
  import opened Primitives
  import AeadV1
  import Base64

  const VERSION_3: byte := 3
  const MAX_KID := 64

  type Kid = Bytes

  predicate ValidKid(kid: Kid) {
    0 < |kid| <= MAX_KID
  }

  /** What a ring knows: the active id, and the key each id stands for. */
  datatype Ring = Ring(active: Kid, keys: map<Kid, Bytes>)
  {
    predicate Sound() {
      && active in keys
      && forall kid :: kid in keys ==> ValidKid(kid) && |keys[kid]| == KEY_SIZE
    }
  }

  datatype Op = Add(kid: Kid, key: Bytes) | Remove(kid: Kid) | SetActive(kid: Kid) | Seal | Open

  function Guard(ring: Ring, op: Op): Option<Error> {
    match op
    case Add(kid, key) =>
      if !ValidKid(kid) then Some(BadKid)
      else if kid in ring.keys then Some(DuplicateKid)
      else if |key| != KEY_SIZE then Some(InvalidKey)
      else None
    case Remove(kid) =>
      if kid == ring.active then Some(RemoveActive) else if kid !in ring.keys then Some(UnknownKid) else None
    case SetActive(kid) =>
      if kid !in ring.keys then Some(UnknownKid) else None
    case _ => None
  }

  function Step(ring: Ring, op: Op): Ring {
    if Guard(ring, op).Some? then ring
    else
      match op
      case Add(kid, key) => ring.(keys := ring.keys[kid := key])
      case Remove(kid) => ring.(keys := ring.keys - {kid})
      case SetActive(kid) => ring.(active := kid)
      case _ => ring
  }

  /** The text `Seal` returns, with the active id between version byte and nonce. */
  function Sealed(g: Gcm, kid: Kid, key: Bytes, nonce: Bytes, aad: Bytes, plaintext: Bytes): string {
    Base64.Encode(Base64.Url, Frame(kid, nonce, g.seal(key, nonce, aad, plaintext)))
  }

  function Frame(kid: Kid, nonce: Bytes, ct: Bytes): Bytes {
    [VERSION_3] + [(|kid| % 256) as byte] + kid + nonce + ct
  }

  function OpenV1(g: Gcm, key: Bytes, raw: Bytes, aad: Bytes): Option<Bytes> {
    if |raw| < AeadV1.MIN_SIZE || raw[0] != AeadV1.VERSION_1 then None
    else g.open(key, raw[1..AeadV1.AEAD_HEADER_SIZE], aad, raw[AeadV1.AEAD_HEADER_SIZE..])
  }

  /** The first success along `order`. */
  function TryEach(g: Gcm, keys: map<Kid, Bytes>, order: seq<Kid>, raw: Bytes, aad: Bytes): Result<Bytes>
    requires forall kid :: kid in order ==> kid in keys
  {
    if order == [] then Err(Tampered)
    else
      match OpenV1(g, keys[order[0]], raw, aad)
      case Some(plaintext) => Ok(plaintext)
      case None => TryEach(g, keys, order[1..], raw, aad)
  }

  function OpenV3(g: Gcm, keys: map<Kid, Bytes>, raw: Bytes, aad: Bytes): Result<Bytes>
    requires |raw| >= AeadV1.MIN_SIZE
  {
    var kidLen: nat := raw[1];
    if kidLen < 1 || kidLen > MAX_KID then Err(InvalidCiphertext)
    else if |raw| < 2 + kidLen + AeadV1.NONCE_SIZE + TAG_SIZE then Err(CiphertextTooShort)
    else
      var kid := raw[2..2 + kidLen];
      if kid !in keys then Err(Tampered)
      else
        var at := 2 + kidLen + AeadV1.NONCE_SIZE;
        match g.open(keys[kid], raw[2 + kidLen..at], aad, raw[at..])
        case None => Err(Tampered)
        case Some(plaintext) => Ok(plaintext)
  }

  /** `Open`, for one of the orders in which the ids can be listed. */
  function OpenIn(g: Gcm, ring: Ring, order: seq<Kid>, ciphertext: string, aad: Bytes): Result<Bytes>
    requires forall kid :: kid in order ==> kid in ring.keys
  {
    match Base64.Decode(Base64.Url, ciphertext)
    case None => Err(InvalidCiphertext)
    case Some(raw) =>
      if |raw| < AeadV1.MIN_SIZE then Err(CiphertextTooShort)
      else if raw[0] == AeadV1.VERSION_1 then TryEach(g, ring.keys, order, raw, aad)
      else if raw[0] == VERSION_3 then OpenV3(g, ring.keys, raw, aad)
      else Err(UnsupportedVersion)
  }

  /** Every id once, the active one first. */
  ghost predicate ActiveFirst(ring: Ring, order: seq<Kid>) {
    && 0 < |order| && order[0] == ring.active
    && (forall i, j :: 0 <= i < j < |order| ==> order[i] != order[j])
    && (forall kid :: kid in order <==> kid in ring.keys)
  }

  class KeyRing {
    var active: Kid
    /** Each cipher is given by the key it was built from. */
    var keys: map<Kid, Bytes>
    var rawKeys: map<Kid, array<byte>>

    ghost function State(): Ring
      reads this
    {
      Ring(active, keys)
    }

    ghost predicate Valid()
      reads this, rawKeys.Values
    {
      && State().Sound()
      && keys.Keys == rawKeys.Keys
      && forall kid :: kid in rawKeys ==> rawKeys[kid][..] == keys[kid]
    }

    constructor (activeKid: Kid, activeKey: array<byte>)
      requires ValidKid(activeKid) && activeKey.Length == KEY_SIZE
      ensures Valid() && State() == Ring(activeKid, map[activeKid := activeKey[..]])
      ensures fresh(rawKeys.Values)
    {
      var copy := CopyOf(activeKey);
      active := activeKid;
      keys := map[activeKid := activeKey[..]];
      rawKeys := map[activeKid := copy];
    }

    method Add(kid: Kid, key: array<byte>) returns (err: Option<Error>)
      requires Valid()
      modifies this
      ensures Valid() && State() == Step(old(State()), Op.Add(kid, key[..]))
      ensures err == Guard(old(State()), Op.Add(kid, key[..]))
      ensures err == Some(BadKid) <==> !(1 <= |kid| <= 64)
      ensures err == Some(DuplicateKid) <==> 1 <= |kid| <= 64 && kid in old(keys)
      ensures err == Some(InvalidKey) <==> 1 <= |kid| <= 64 && kid !in old(keys) && key.Length != 32
      ensures err.None? <==> 1 <= |kid| <= 64 && kid !in old(keys) && key.Length == 32
      ensures keys == (if err.None? then old(keys)[kid := key[..]] else old(keys)) && active == old(active)
      ensures fresh(rawKeys.Values - old(rawKeys.Values))
    {
      if !ValidKid(kid) {
        return Some(BadKid);
      }
      if kid in keys {
        return Some(DuplicateKid);
      }
      if key.Length != KEY_SIZE {
        return Some(InvalidKey);
      }
      var copy := CopyOf(key);
      keys := keys[kid := key[..]];
      rawKeys := rawKeys[kid := copy];
      return None;
    }

    method Remove(kid: Kid) returns (err: Option<Error>)
      requires Valid()
      modifies this
      ensures Valid() && State() == Step(old(State()), Op.Remove(kid))
      ensures err == Guard(old(State()), Op.Remove(kid))
      ensures err == if kid == old(active) then Some(RemoveActive) else if kid !in old(keys) then Some(UnknownKid) else None
      ensures forall k :: k in keys <==> k in old(keys) && (k == kid ==> err.Some?)
      ensures (forall k :: k in keys ==> keys[k] == old(keys)[k]) && active == old(active)
      ensures rawKeys.Values <= old(rawKeys.Values)
    {
      if kid == active {
        return Some(RemoveActive);
      }
      if kid !in keys {
        return Some(UnknownKid);
      }
      keys := keys - {kid};
      rawKeys := rawKeys - {kid};
      return None;
    }

    method SetActive(kid: Kid) returns (err: Option<Error>)
      requires Valid()
      modifies `active
      ensures Valid() && State() == Step(old(State()), Op.SetActive(kid))
      ensures err == Guard(old(State()), Op.SetActive(kid))
      ensures err == if kid in keys then None else Some(UnknownKid)
      ensures active == if err.None? then kid else old(active)
    {
      if kid !in keys {
        return Some(UnknownKid);
      }
      active := kid;
      return None;
    }

    method Seal(g: Gcm, plaintext: Bytes, aad: Bytes, entropy: Option<Bytes>) returns (r: Result<string>)
      requires Valid() && (entropy.Some? ==> |entropy.value| == AeadV1.NONCE_SIZE)
      ensures r == if entropy.None? then Err(EntropyFault)
                   else Ok(Sealed(g, active, keys[active], entropy.value, aad, plaintext))
    {
      var key := keys[active];
      if entropy.None? {
        return Err(EntropyFault);
      }
      var nonce := entropy.value;
      var out: Bytes := [VERSION_3];
      out := out + [(|active| % 256) as byte];
      out := out + active;
      out := out + nonce;
      out := out + g.seal(key, nonce, aad, plaintext);
      return Ok(Base64.Encode(Base64.Url, out));
    }

    /** Lists the ids as a Go map would, in any order behind the active one. */
    method KidsActiveFirst() returns (out: seq<Kid>)
      requires Valid()
      ensures ActiveFirst(State(), out)
    {
      out := [active];
      var todo := keys.Keys;
      while todo != {}
        invariant todo <= keys.Keys && 0 < |out| && out[0] == active
        invariant forall i, j :: 0 <= i < j < |out| ==> out[i] != out[j]
        invariant forall kid :: kid in out <==> kid == active || (kid in keys && kid !in todo)
        decreases todo
      {
        var kid :| kid in todo;
        todo := todo - {kid};
        if kid != active {
          out := out + [kid];
        }
      }
    }

    method Open(g: Gcm, ciphertext: string, aad: Bytes) returns (r: Result<Bytes>)
      requires Valid()
      ensures exists order :: ActiveFirst(State(), order) && r == OpenIn(g, State(), order, ciphertext, aad)
    {
      var kids := KidsActiveFirst();
      var decoded := Base64.Decode(Base64.Url, ciphertext);
      if decoded.None? {
        return Err(InvalidCiphertext);
      }
      var raw := decoded.value;
      if |raw| < AeadV1.MIN_SIZE {
        return Err(CiphertextTooShort);
      }
      if raw[0] == AeadV1.VERSION_1 {
        for i := 0 to |kids|
          invariant TryEach(g, keys, kids, raw, aad) == TryEach(g, keys, kids[i..], raw, aad)
        {
          var plaintext := OpenV1(g, keys[kids[i]], raw, aad);
          if plaintext.Some? {
            return Ok(plaintext.value);
          }
        }
        return Err(Tampered);
      }
      if raw[0] == VERSION_3 {
        return OpenV3(g, keys, raw, aad);
      }
      return Err(UnsupportedVersion);
    }
  }

  /** `append([]byte(nil), key...)` */
  method CopyOf(key: array<byte>) returns (copy: array<byte>)
    ensures fresh(copy) && copy[..] == key[..]
  {
    copy := new byte[key.Length](_ => 0);
    forall i | 0 <= i < key.Length {
      copy[i] := key[i];
    }
  }

  /** `NewKeyRing` */
  method NewKeyRing(activeKid: Kid, activeKey: array<byte>) returns (ring: KeyRing?, err: Option<Error>)
    ensures err == if !ValidKid(activeKid) then Some(BadKid)
                   else if activeKey.Length != KEY_SIZE then Some(InvalidKey)
                   else None
    ensures err.None? <==> 1 <= |activeKid| <= 64 && activeKey.Length == 32
    ensures err.None? ==> ring != null && fresh(ring) && fresh(ring.rawKeys.Values) && ring.Valid()
                          && ring.State() == Ring(activeKid, map[activeKid := activeKey[..]])
  {
    if !ValidKid(activeKid) {
      return null, Some(BadKid);
    }
    if activeKey.Length != KEY_SIZE {
      return null, Some(InvalidKey);
    }
    ring := new KeyRing(activeKid, activeKey);
    err := None;
  }

  /** A caller may wipe its own copy of a key once it is in the ring. */
  method AddThenWipe(ring: KeyRing, kid: Kid, key: array<byte>) returns (err: Option<Error>)
    requires ring.Valid() && key !in ring.rawKeys.Values
    modifies ring, key
    ensures ring.Valid() && ring.State() == Step(old(ring.State()), Op.Add(kid, old(key[..])))
    ensures forall i :: 0 <= i < key.Length ==> key[i] == 0
  {
    err := ring.Add(kid, key);
    forall i | 0 <= i < key.Length {
      key[i] := 0;
    }
  }
}
