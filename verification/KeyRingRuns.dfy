/** What a key ring keeps over whole runs, and what its fallback for version-1 frames amounts to. */
module KeyRingRuns {
  import opened Octets
  import opened Errors
  import opened Primitives
  import opened KeyRing
  import AeadV1
  import Base64

  function Run(ring: Ring, ops: seq<Op>): Ring
    decreases |ops|
  {
    if ops == [] then ring else Run(Step(ring, ops[0]), ops[1..])
  }

  /** No operation of the run succeeds in removing `kid`. */
  predicate NeverRemoved(ring: Ring, ops: seq<Op>, kid: Kid)
    decreases |ops|
  {
    ops != [] ==>
      && !(ops[0] == Op.Remove(kid) && Guard(ring, ops[0]).None?)
      && NeverRemoved(Step(ring, ops[0]), ops[1..], kid)
  }

  /** The active id always has a key; ids and keys stay within bounds. */
  lemma {:induction false} RunStaysSound(ring: Ring, ops: seq<Op>)
    requires ring.Sound()
    ensures Run(ring, ops).Sound()
    decreases |ops|
  {
    if ops != [] {
      RunStaysSound(Step(ring, ops[0]), ops[1..]);
    }
  }

  /** Each operation changes one thing: ids come only with `Add`, go only with `Remove` while not active,
      and the active id moves only by `SetActive`; an operation that fails changes nothing. */
  lemma OneChangeAtATime(ring: Ring, op: Op)
    requires ring.Sound()
    ensures var next := Step(ring, op);
            && (Guard(ring, op).Some? ==> next == ring)
            && (next.active != ring.active ==> op == Op.SetActive(next.active) && next.keys == ring.keys)
            && (forall kid :: kid in next.keys && kid !in ring.keys ==> op == Op.Add(kid, next.keys[kid]))
            && (forall kid :: kid in ring.keys && kid !in next.keys ==> op == Op.Remove(kid) && kid != ring.active)
            && (forall kid :: kid in ring.keys && kid in next.keys ==> next.keys[kid] == ring.keys[kid])
  {
  }

  /** The key of an id never changes while the id is there, and only a successful `Remove` takes it away. */
  lemma {:induction false} KeyStays(ring: Ring, ops: seq<Op>, kid: Kid)
    requires ring.Sound() && kid in ring.keys && NeverRemoved(ring, ops, kid)
    ensures kid in Run(ring, ops).keys && Run(ring, ops).keys[kid] == ring.keys[kid]
    decreases |ops|
  {
    if ops != [] {
      KeyStays(Step(ring, ops[0]), ops[1..], kid);
    }
  }

  /** The parts of a frame come back, because the id is at most 64 bytes and its length so fits its byte. */
  lemma FrameParts(kid: Kid, nonce: Bytes, ct: Bytes)
    requires ValidKid(kid) && |nonce| == AeadV1.NONCE_SIZE
    ensures var raw := Frame(kid, nonce, ct);
            && |raw| == 14 + |kid| + |ct| && raw[0] == VERSION_3 && raw[1] == |kid|
            && raw[2..2 + |kid|] == kid && raw[2 + |kid|..14 + |kid|] == nonce && raw[14 + |kid|..] == ct
  {
  }

  lemma PartsFrame(raw: Bytes, n: nat)
    requires 1 < |raw| && raw[0] == VERSION_3 && raw[1] == n && 14 + n <= |raw|
    ensures raw == Frame(raw[2..2 + n], raw[2 + n..14 + n], raw[14 + n..])
  {
  }

  /** A version-3 frame opens exactly when it is the frame of some id of the ring around a box that this id's
      key opens. */
  lemma OpensExactlyItsKid(g: Gcm, ring: Ring, raw: Bytes, aad: Bytes, p: Bytes)
    requires ring.Sound() && |raw| >= AeadV1.MIN_SIZE && raw[0] == VERSION_3
    ensures OpenV3(g, ring.keys, raw, aad) == Ok(p)
       <==> exists kid, nonce, ct :: IsBoxOf(g, ring, kid, nonce, ct, aad, p) && raw == Frame(kid, nonce, ct)
  {
    hide Frame;
    if OpenV3(g, ring.keys, raw, aad) == Ok(p) {
      var n: nat := raw[1];
      var kid, nonce, ct := raw[2..2 + n], raw[2 + n..14 + n], raw[14 + n..];
      PartsFrame(raw, n);
      assert IsBoxOf(g, ring, kid, nonce, ct, aad, p) && raw == Frame(kid, nonce, ct);
    }
    if kid, nonce, ct :| IsBoxOf(g, ring, kid, nonce, ct, aad, p) && raw == Frame(kid, nonce, ct) {
      FrameParts(kid, nonce, ct);
    }
  }

  ghost predicate IsBoxOf(g: Gcm, ring: Ring, kid: Kid, nonce: Bytes, ct: Bytes, aad: Bytes, p: Bytes) {
    && kid in ring.keys && |nonce| == AeadV1.NONCE_SIZE && |ct| >= TAG_SIZE
    && g.open(ring.keys[kid], nonce, aad, ct) == Some(p)
  }

  /** How any ring, in whatever order it lists its ids, treats a frame that names `kid`. */
  lemma Dispatch(g: Gcm, ring: Ring, order: seq<Kid>, kid: Kid, nonce: Bytes, ct: Bytes, aad: Bytes)
    requires forall k :: k in order ==> k in ring.keys
    requires ValidKid(kid) && |nonce| == AeadV1.NONCE_SIZE && |ct| >= TAG_SIZE
    ensures OpenIn(g, ring, order, Base64.Encode(Base64.Url, Frame(kid, nonce, ct)), aad)
         == if kid !in ring.keys then Err(Tampered)
            else match g.open(ring.keys[kid], nonce, aad, ct)
                 case None => Err(Tampered)
                 case Some(plaintext) => Ok(plaintext)
  {
    hide Base64.Encode, Base64.Decode, Frame;
    FrameParts(kid, nonce, ct);
    Base64.RoundTrip(Base64.Url, Frame(kid, nonce, ct));
  }

  /** Whole-run readability. What a ring seals, every later state opens to the same plaintext, whichever id
      is active by then, as long as the sealing id was never removed. */
  lemma SealedStaysReadable(g: Gcm, ring: Ring, ops: seq<Op>, order: seq<Kid>, nonce: Bytes, aad: Bytes, p: Bytes)
    requires g.Lawful() && ring.Sound() && |nonce| == AeadV1.NONCE_SIZE
    requires NeverRemoved(ring, ops, ring.active) && ActiveFirst(Run(ring, ops), order)
    ensures OpenIn(g, Run(ring, ops), order, Sealed(g, ring.active, ring.keys[ring.active], nonce, aad, p), aad) == Ok(p)
  {
    hide OpenIn, Frame, Base64.Encode;
    KeyStays(ring, ops, ring.active);
    Dispatch(g, Run(ring, ops), order, ring.active, nonce, g.seal(ring.keys[ring.active], nonce, aad, p), aad);
  }

  /** What succeeds, and what it leaves behind. */
  lemma SuccessIs(ring: Ring, kid: Kid, key: Bytes)
    ensures Guard(ring, Op.Add(kid, key)).None? <==> 1 <= |kid| <= 64 && kid !in ring.keys && |key| == 32
    ensures Guard(ring, Op.Remove(kid)).None? <==> kid in ring.keys && kid != ring.active
    ensures Guard(ring, Op.SetActive(kid)).None? <==> kid in ring.keys
    ensures Guard(ring, Op.Add(kid, key)).None? ==>
      Step(ring, Op.Add(kid, key)) == Ring(ring.active, ring.keys[kid := key])
    ensures Guard(ring, Op.Remove(kid)).None? ==>
      Step(ring, Op.Remove(kid)) == Ring(ring.active, map k | k in ring.keys && k != kid :: ring.keys[k])
    ensures Guard(ring, Op.SetActive(kid)).None? ==> Step(ring, Op.SetActive(kid)) == Ring(kid, ring.keys)
  {
  }

  /** The frame of version 3, byte by byte. */
  lemma FrameIs(g: Gcm, kid: Kid, key: Bytes, nonce: Bytes, aad: Bytes, p: Bytes)
    requires |kid| <= 64
    ensures Sealed(g, kid, key, nonce, aad, p)
         == Base64.Encode(Base64.Url, [3, |kid|] + kid + nonce + g.seal(key, nonce, aad, p))
  {
    assert [VERSION_3] + [(|kid| % 256) as byte] == [3, |kid|];
  }

  /** From the call that adds a key: what anybody seals under it, with that id in the frame, opens in every
      later state until the id is removed. */
  lemma AddedStaysReadable(g: Gcm, ring: Ring, kid: Kid, key: Bytes, ops: seq<Op>, order: seq<Kid>,
                           nonce: Bytes, aad: Bytes, p: Bytes)
    requires g.Lawful() && ring.Sound() && |nonce| == 12
    requires 1 <= |kid| <= 64 && kid !in ring.keys && |key| == 32
    requires NeverRemoved(Step(ring, Op.Add(kid, key)), ops, kid)
    requires ActiveFirst(Run(ring, [Op.Add(kid, key)] + ops), order)
    ensures var text := Base64.Encode(Base64.Url, [3, |kid|] + kid + nonce + g.seal(key, nonce, aad, p));
            OpenIn(g, Run(ring, [Op.Add(kid, key)] + ops), order, text, aad) == Ok(p)
  {
    hide OpenIn, Frame, Base64.Encode;
    var next := Step(ring, Op.Add(kid, key));
    SuccessIs(ring, kid, key);
    assert ([Op.Add(kid, key)] + ops)[1..] == ops;
    KeyStays(next, ops, kid);
    FrameIs(g, kid, key, nonce, aad, p);
    Dispatch(g, Run(next, ops), order, kid, nonce, g.seal(key, nonce, aad, p), aad);
  }

  /** While the id is absent the text is refused; should the id come back, the key it then has decides. */
  lemma RemovedIsUnreadable(g: Gcm, ring: Ring, order: seq<Kid>, kid: Kid, key: Bytes, nonce: Bytes, aad: Bytes, p: Bytes)
    requires g.Lawful() && ValidKid(kid) && |nonce| == AeadV1.NONCE_SIZE && ActiveFirst(ring, order)
    ensures var r := OpenIn(g, ring, order, Sealed(g, kid, key, nonce, aad, p), aad);
            && (kid !in ring.keys ==> r == Err(Tampered))
            && (kid in ring.keys && ring.keys[kid] == key ==> r == Ok(p))
            && (kid in ring.keys ==>
                  (r.Ok? <==> g.open(ring.keys[kid], nonce, aad, g.seal(key, nonce, aad, p)).Some?))
  {
    hide OpenIn, Frame, Base64.Encode;
    Dispatch(g, ring, order, kid, nonce, g.seal(key, nonce, aad, p), aad);
  }

  /** No operation of the run succeeds in adding `kid`. */
  predicate NeverAdded(ring: Ring, ops: seq<Op>, kid: Kid)
    decreases |ops|
  {
    ops != [] ==>
      && !(ops[0].Add? && ops[0].kid == kid && Guard(ring, ops[0]).None?)
      && NeverAdded(Step(ring, ops[0]), ops[1..], kid)
  }

  lemma {:induction false} StaysAbsent(ring: Ring, ops: seq<Op>, kid: Kid)
    requires kid !in ring.keys && NeverAdded(ring, ops, kid)
    ensures kid !in Run(ring, ops).keys
    decreases |ops|
  {
    if ops != [] {
      StaysAbsent(Step(ring, ops[0]), ops[1..], kid);
    }
  }

  /** After a successful `Remove`, every later state refuses what was sealed under the id, whatever its key
      was, until the id is added again. */
  lemma RemovedStaysUnreadable(g: Gcm, ring: Ring, kid: Kid, ops: seq<Op>, order: seq<Kid>,
                               key: Bytes, nonce: Bytes, aad: Bytes, p: Bytes)
    requires g.Lawful() && ring.Sound() && Guard(ring, Op.Remove(kid)).None? && |nonce| == AeadV1.NONCE_SIZE
    requires NeverAdded(Step(ring, Op.Remove(kid)), ops, kid)
    requires ActiveFirst(Run(Step(ring, Op.Remove(kid)), ops), order)
    ensures OpenIn(g, Run(Step(ring, Op.Remove(kid)), ops), order, Sealed(g, kid, key, nonce, aad, p), aad) == Err(Tampered)
  {
    hide OpenIn, Sealed, Run, NeverAdded, ActiveFirst;
    StaysAbsent(Step(ring, Op.Remove(kid)), ops, kid);
    RemovedIsUnreadable(g, Run(Step(ring, Op.Remove(kid)), ops), order, kid, key, nonce, aad, p);
  }

  /** The id is not authenticated: under another id with the same key the same box opens. */
  lemma KidIsNotBound(g: Gcm, ring: Ring, order: seq<Kid>, kid: Kid, other: Kid, nonce: Bytes, ct: Bytes, aad: Bytes)
    requires forall k :: k in order ==> k in ring.keys
    requires ring.Sound() && kid in ring.keys && other in ring.keys && ring.keys[kid] == ring.keys[other]
    requires |nonce| == AeadV1.NONCE_SIZE && |ct| >= TAG_SIZE
    ensures OpenIn(g, ring, order, Base64.Encode(Base64.Url, Frame(kid, nonce, ct)), aad)
         == OpenIn(g, ring, order, Base64.Encode(Base64.Url, Frame(other, nonce, ct)), aad)
  {
    hide OpenIn, Frame, Base64.Encode;
    Dispatch(g, ring, order, kid, nonce, ct, aad);
    Dispatch(g, ring, order, other, nonce, ct, aad);
  }

  // ---------- version-1 frames ----------

  ghost predicate OpenedBy(g: Gcm, ring: Ring, kid: Kid, raw: Bytes, aad: Bytes, p: Bytes) {
    kid in ring.keys && OpenV1(g, ring.keys[kid], raw, aad) == Some(p)
  }

  lemma {:induction false} TryEachFinds(g: Gcm, ring: Ring, order: seq<Kid>, raw: Bytes, aad: Bytes)
    requires forall kid :: kid in order ==> kid in ring.keys
    ensures match TryEach(g, ring.keys, order, raw, aad)
            case Ok(p) => exists kid :: kid in order && OpenedBy(g, ring, kid, raw, aad, p)
            case Err(e) => e == Tampered && forall kid :: kid in order ==> OpenV1(g, ring.keys[kid], raw, aad) == None
    decreases |order|
  {
    if order != [] {
      TryEachFinds(g, ring, order[1..], raw, aad);
      match OpenV1(g, ring.keys[order[0]], raw, aad)
      case Some(p) => assert order[0] in order && OpenedBy(g, ring, order[0], raw, aad, p);
      case None =>
        match TryEach(g, ring.keys, order[1..], raw, aad)
        case Ok(p) =>
          var kid :| kid in order[1..] && OpenedBy(g, ring, kid, raw, aad, p);
          assert kid in order;
        case Err(_) =>
          assert order == [order[0]] + order[1..];
    }
  }

  /** The fallback opens a version-1 frame exactly when some key of the ring does, and to what such a key
      yields: that of the active id, if it opens the frame. */
  lemma FallbackIsSomeKey(g: Gcm, ring: Ring, order: seq<Kid>, raw: Bytes, aad: Bytes)
    requires ActiveFirst(ring, order) && ring.Sound()
    ensures match TryEach(g, ring.keys, order, raw, aad)
            case Ok(p) => exists kid :: OpenedBy(g, ring, kid, raw, aad, p)
            case Err(e) => e == Tampered && forall kid, p :: !OpenedBy(g, ring, kid, raw, aad, p)
    ensures forall p :: OpenedBy(g, ring, ring.active, raw, aad, p) ==> TryEach(g, ring.keys, order, raw, aad) == Ok(p)
  {
    TryEachFinds(g, ring, order, raw, aad);
  }

  /** The keys that open a frame agree on what is in it. */
  ghost predicate Agree(g: Gcm, ring: Ring, raw: Bytes, aad: Bytes) {
    forall k, l, p, q :: OpenedBy(g, ring, k, raw, aad, p) && OpenedBy(g, ring, l, raw, aad, q) ==> p == q
  }

  lemma ActiveFirstLists(ring: Ring, order: seq<Kid>)
    requires ActiveFirst(ring, order)
    ensures forall kid :: kid in order ==> kid in ring.keys
  {
  }

  /** One result for every order in which the ids can be listed. */
  ghost predicate OneResult(g: Gcm, ring: Ring, s: string, aad: Bytes) {
    forall o1, o2 :: ActiveFirst(ring, o1) && ActiveFirst(ring, o2) ==>
      OpenIn(g, ring, o1, s, aad) == OpenIn(g, ring, o2, s, aad)
  }

  /** The active key decides, or there is nothing to decide between. */
  ghost predicate Settled(g: Gcm, ring: Ring, raw: Bytes, aad: Bytes)
    requires ring.Sound()
  {
    OpenV1(g, ring.keys[ring.active], raw, aad).Some? || Agree(g, ring, raw, aad)
  }

  lemma {:induction false} ListedOnce(ids: set<Kid>) returns (order: seq<Kid>)
    ensures forall i, j :: 0 <= i < j < |order| ==> order[i] != order[j]
    ensures forall id :: id in order <==> id in ids
    decreases ids
  {
    order := [];
    if id :| id in ids {
      var rest := ListedOnce(ids - {id});
      order := [id] + rest;
    }
  }

  /** Any other id may come right after the active one. */
  lemma ListedSecond(ring: Ring, kid: Kid) returns (order: seq<Kid>)
    requires ring.Sound() && kid in ring.keys && kid != ring.active
    ensures ActiveFirst(ring, order) && |order| > 1 && order[1] == kid
  {
    var rest := ListedOnce(ring.keys.Keys - {ring.active, kid});
    order := [ring.active, kid] + rest;
    assert forall id :: id in order <==> id == ring.active || id == kid || id in rest;
  }

  lemma SecondDecides(g: Gcm, ring: Ring, order: seq<Kid>, raw: Bytes, aad: Bytes, p: Bytes)
    requires ring.Sound() && ActiveFirst(ring, order) && |order| > 1
    requires OpenV1(g, ring.keys[ring.active], raw, aad) == None && OpenedBy(g, ring, order[1], raw, aad, p)
    ensures TryEach(g, ring.keys, order, raw, aad) == Ok(p)
  {
    hide OpenV1;
    assert order[1..][0] == order[1] && order[1..] != [];
    assert TryEach(g, ring.keys, order[1..], raw, aad) == Ok(p);
  }

  lemma DisagreementShows(g: Gcm, ring: Ring, s: string, raw: Bytes, aad: Bytes)
    requires ring.Sound() && Base64.Decode(Base64.Url, s) == Some(raw) && !Settled(g, ring, raw, aad)
    ensures !OneResult(g, ring, s, aad)
  {
    hide Base64.Decode, TryEach, OpenV3, ActiveFirst;
    var k, l, p, q :| OpenedBy(g, ring, k, raw, aad, p) && OpenedBy(g, ring, l, raw, aad, q) && p != q;
    var o1 := ListedSecond(ring, k);
    var o2 := ListedSecond(ring, l);
    SecondDecides(g, ring, o1, raw, aad, p);
    SecondDecides(g, ring, o2, raw, aad, q);
    ActiveFirstLists(ring, o1);
    ActiveFirstLists(ring, o2);
    assert OpenIn(g, ring, o1, s, aad) == Ok(p) && OpenIn(g, ring, o2, s, aad) == Ok(q);
  }

  lemma SettledForBoth(g: Gcm, ring: Ring, o1: seq<Kid>, o2: seq<Kid>, s: string, aad: Bytes)
    requires ring.Sound() && ActiveFirst(ring, o1) && ActiveFirst(ring, o2)
    requires match Base64.Decode(Base64.Url, s) case None => true case Some(raw) => Settled(g, ring, raw, aad)
    ensures OpenIn(g, ring, o1, s, aad) == OpenIn(g, ring, o2, s, aad)
  {
    hide Base64.Decode, TryEach, OpenV3, OpenV1, ActiveFirst;
    ActiveFirstLists(ring, o1);
    ActiveFirstLists(ring, o2);
    match Base64.Decode(Base64.Url, s)
    case None =>
    case Some(raw) =>
      FallbackIsSomeKey(g, ring, o1, raw, aad);
      FallbackIsSomeKey(g, ring, o2, raw, aad);
      var own := OpenV1(g, ring.keys[ring.active], raw, aad);
      assert own.Some? ==> OpenedBy(g, ring, ring.active, raw, aad, own.value);
  }

  /** Exactly when map iteration order cannot be seen from outside: the active key opens the frame, or all
      keys that open it agree on what is in it. */
  lemma OrderDoesNotMatter(g: Gcm, ring: Ring, s: string, aad: Bytes)
    requires ring.Sound()
    ensures OneResult(g, ring, s, aad)
       <==> match Base64.Decode(Base64.Url, s)
            case None => true
            case Some(raw) => Settled(g, ring, raw, aad)
  {
    hide Base64.Decode, OpenIn, Settled;
    var decoded := Base64.Decode(Base64.Url, s);
    if decoded.Some? && !Settled(g, ring, decoded.value, aad) {
      DisagreementShows(g, ring, s, decoded.value, aad);
    } else {
      forall o1, o2 | ActiveFirst(ring, o1) && ActiveFirst(ring, o2)
        ensures OpenIn(g, ring, o1, s, aad) == OpenIn(g, ring, o2, s, aad)
      {
        SettledForBoth(g, ring, o1, o2, s, aad);
      }
    }
  }

  /** A ring of one key is plain `Open` under that key, for every text that is not a version-3 frame. */
  lemma OneKeyRingIsOpen(g: Gcm, kid: Kid, key: Bytes, s: string, aad: Bytes)
    requires |key| == KEY_SIZE
    requires match Base64.Decode(Base64.Url, s)
             case None => true
             case Some(raw) => |raw| < AeadV1.MIN_SIZE || raw[0] != VERSION_3
    ensures OpenIn(g, Ring(kid, map[kid := key]), [kid], s, aad) == AeadV1.Open(g, key, s, aad)
  {
    hide Base64.Decode;
    match Base64.Decode(Base64.Url, s)
    case None =>
    case Some(raw) =>
      var keys, order := map[kid := key], [kid];
      assert order[1..] == [] && order[0] == kid && keys[kid] == key;
      assert TryEach(g, keys, order[1..], raw, aad) == Err(Tampered);
  }

  /** Version-1 text sealed under any key of the ring opens, active or not: unless the active key, or one
      listed earlier, takes it for its own. */
  lemma OldTextOpens(g: Gcm, ring: Ring, order: seq<Kid>, kid: Kid, nonce: Bytes, aad: Bytes, p: Bytes)
    requires g.Lawful() && ring.Sound() && ActiveFirst(ring, order) && kid in ring.keys
    requires |nonce| == AeadV1.NONCE_SIZE
    ensures var raw := AeadV1.Frame(g, ring.keys[kid], nonce, aad, p);
            var r := OpenIn(g, ring, order, AeadV1.Sealed(g, ring.keys[kid], nonce, aad, p), aad);
            && r.Ok?
            && ((forall other, q :: OpenedBy(g, ring, other, raw, aad, q) ==> q == p) ==> r == Ok(p))
  {
    hide Base64.Encode, Base64.Decode, TryEach;
    var raw := AeadV1.Frame(g, ring.keys[kid], nonce, aad, p);
    AeadV1.FrameParts(g, ring.keys[kid], nonce, aad, p);
    Base64.RoundTrip(Base64.Url, raw);
    FallbackIsSomeKey(g, ring, order, raw, aad);
    assert OpenedBy(g, ring, kid, raw, aad, p);
  }

  /** `Open` in terms of the decoded bytes: which of them are refused, with which error, and what decides
      about the others. */
  lemma OpenIsExactly(g: Gcm, ring: Ring, order: seq<Kid>, s: string, aad: Bytes)
    requires ring.Sound() && ActiveFirst(ring, order)
    ensures var r := OpenIn(g, ring, order, s, aad);
            match Base64.Decode(Base64.Url, s)
            case None => r == Err(InvalidCiphertext)
            case Some(raw) =>
              if |raw| < 29 then r == Err(CiphertextTooShort)
              else if raw[0] == 1 then
                && (forall kid, p :: kid in ring.keys && g.open(ring.keys[kid], raw[1..13], aad, raw[13..]) == Some(p) ==>
                      r.Ok? && (kid == ring.active ==> r == Ok(p)))
                && (forall p :: r == Ok(p) ==>
                      exists kid :: kid in ring.keys && g.open(ring.keys[kid], raw[1..13], aad, raw[13..]) == Some(p))
                && (r.Err? ==> r == Err(Tampered))
              else if raw[0] != 3 then r == Err(UnsupportedVersion)
              else if raw[1] == 0 || raw[1] > 64 then r == Err(InvalidCiphertext)
              else
                var at := 2 + raw[1] as int;
                if |raw| < at + 28 then r == Err(CiphertextTooShort)
                else if raw[2..at] !in ring.keys then r == Err(Tampered)
                else
                  r == match g.open(ring.keys[raw[2..at]], raw[at..at + 12], aad, raw[at + 12..])
                       case None => Err(Tampered)
                       case Some(p) => Ok(p)
  {
    hide Base64.Decode, TryEach;
    match Base64.Decode(Base64.Url, s)
    case None =>
    case Some(raw) =>
      if |raw| >= 29 && raw[0] == 1 {
        FallbackIsSomeKey(g, ring, order, raw, aad);
        forall kid, p | kid in ring.keys && g.open(ring.keys[kid], raw[1..13], aad, raw[13..]) == Some(p)
          ensures OpenedBy(g, ring, kid, raw, aad, p)
        {
        }
        forall kid, p | OpenedBy(g, ring, kid, raw, aad, p)
          ensures kid in ring.keys && g.open(ring.keys[kid], raw[1..13], aad, raw[13..]) == Some(p)
        {
        }
      }
  }

  // ---------- authenticity ----------

  /** No key of the ring accepts a forgery in the box whose nonce starts at `at`. */
  ghost predicate UnforgedAt(g: Gcm, ring: Ring, log: seq<Sealing>, raw: Bytes, at: nat, aad: Bytes)
    requires at + AeadV1.NONCE_SIZE <= |raw|
  {
    forall kid :: kid in ring.keys ==>
      Unforged(g, log, ring.keys[kid], raw[at..at + AeadV1.NONCE_SIZE], aad, raw[at + AeadV1.NONCE_SIZE..])
  }

  /** The one box that `Open` may try in decoded bytes is no forgery. */
  ghost predicate UnforgedRaw(g: Gcm, ring: Ring, log: seq<Sealing>, raw: Bytes, aad: Bytes) {
    |raw| >= AeadV1.MIN_SIZE ==>
      && (raw[0] == AeadV1.VERSION_1 ==> UnforgedAt(g, ring, log, raw, 1, aad))
      && (raw[0] == VERSION_3 && 14 + raw[1] as int <= |raw| ==> UnforgedAt(g, ring, log, raw, 2 + raw[1] as int, aad))
  }

  ghost predicate UnforgedText(g: Gcm, ring: Ring, log: seq<Sealing>, ciphertext: string, aad: Bytes) {
    match Base64.Decode(Base64.Url, ciphertext)
    case None => true
    case Some(raw) => UnforgedRaw(g, ring, log, raw, aad)
  }

  /** The bytes are a logged box in either frame: of version 1, or of version 3 under an id for its key. */
  ghost predicate Frames(g: Gcm, ring: Ring, e: Sealing, raw: Bytes) {
    var ct := g.seal(e.key, e.nonce, e.aad, e.plaintext);
    || raw == [AeadV1.VERSION_1] + e.nonce + ct
    || exists kid :: kid in ring.keys && ring.keys[kid] == e.key && raw == Frame(kid, e.nonce, ct)
  }

  lemma V1IsLogged(g: Gcm, ring: Ring, log: seq<Sealing>, kid: Kid, raw: Bytes, aad: Bytes, p: Bytes) returns (i: nat)
    requires g.Lawful() && kid in ring.keys && OpenV1(g, ring.keys[kid], raw, aad) == Some(p)
    requires UnforgedRaw(g, ring, log, raw, aad)
    ensures i < |log| && log[i].key == ring.keys[kid] && log[i].aad == aad && log[i].plaintext == p
    ensures Frames(g, ring, log[i], raw)
  {
    var nonce, ct := raw[1..AeadV1.AEAD_HEADER_SIZE], raw[AeadV1.AEAD_HEADER_SIZE..];
    assert UnforgedAt(g, ring, log, raw, 1, aad);
    i :| 0 <= i < |log| && log[i].key == ring.keys[kid] && log[i].nonce == nonce && log[i].aad == aad
         && g.seal(ring.keys[kid], nonce, aad, log[i].plaintext) == ct;
    assert raw == [raw[0]] + nonce + ct;
  }

  lemma V3IsLogged(g: Gcm, ring: Ring, log: seq<Sealing>, raw: Bytes, aad: Bytes, p: Bytes) returns (i: nat)
    requires g.Lawful() && ring.Sound() && |raw| >= AeadV1.MIN_SIZE && raw[0] == VERSION_3
    requires OpenV3(g, ring.keys, raw, aad) == Ok(p)
    requires UnforgedRaw(g, ring, log, raw, aad)
    ensures i < |log| && log[i].key in ring.keys.Values && log[i].aad == aad && log[i].plaintext == p
    ensures Frames(g, ring, log[i], raw)
  {
    OpensExactlyItsKid(g, ring, raw, aad, p);
    var kid, nonce, ct :| IsBoxOf(g, ring, kid, nonce, ct, aad, p) && raw == Frame(kid, nonce, ct);
    FrameParts(kid, nonce, ct);
    assert UnforgedAt(g, ring, log, raw, 2 + |kid|, aad);
    i :| 0 <= i < |log| && log[i].key == ring.keys[kid] && log[i].nonce == nonce && log[i].aad == aad
         && g.seal(ring.keys[kid], nonce, aad, log[i].plaintext) == ct;
  }

  /** In every state of every run, whatever `Open` returns was sealed under a key the ring then has, for this
      aad, and the text is the frame of that very box. */
  lemma OpensOnlyWhatWasSealed(g: Gcm, start: Ring, ops: seq<Op>, order: seq<Kid>, log: seq<Sealing>,
                               ciphertext: string, aad: Bytes, p: Bytes)
    requires g.Lawful() && start.Sound() && ActiveFirst(Run(start, ops), order)
    requires UnforgedText(g, Run(start, ops), log, ciphertext, aad)
    requires OpenIn(g, Run(start, ops), order, ciphertext, aad) == Ok(p)
    ensures exists i :: 0 <= i < |log| && log[i].key in Run(start, ops).keys.Values && log[i].aad == aad
              && log[i].plaintext == p
              && Frames(g, Run(start, ops), log[i], Base64.Decode(Base64.Url, ciphertext).value)
  {
    hide Base64.Decode, Run, OpenV1, OpenV3, Frames, TryEach;
    var ring, raw := Run(start, ops), Base64.Decode(Base64.Url, ciphertext).value;
    RunStaysSound(start, ops);
    if raw[0] == AeadV1.VERSION_1 {
      FallbackIsSomeKey(g, ring, order, raw, aad);
      var kid :| OpenedBy(g, ring, kid, raw, aad, p);
      var i := V1IsLogged(g, ring, log, kid, raw, aad, p);
    } else {
      var i := V3IsLogged(g, ring, log, raw, aad, p);
    }
  }

  /** A cipher, ring, log and text that meet these hypotheses, and the text opens. */
  lemma HypothesesAreMet() returns (ring: Ring, log: seq<Sealing>, ciphertext: string)
    ensures TOY_GCM.Lawful() && ring.Sound() && ActiveFirst(ring, [ring.active]) && |log| == 1
    ensures UnforgedText(TOY_GCM, ring, log, ciphertext, log[0].aad)
    ensures OpenIn(TOY_GCM, ring, [ring.active], ciphertext, log[0].aad) == Ok([104, 105])
  {
    hide Base64.Encode, Base64.Decode, OpenIn;
    ToyGcmIsLawful();
    var kid: Kid, key: Bytes := [118, 49], seq(KEY_SIZE, _ => 7);
    var e := Sealing(key, seq(AeadV1.NONCE_SIZE, _ => 1), [5], [104, 105]);
    ring, log := Ring(kid, map[kid := key]), [e];
    var ct := TOY_GCM.seal(e.key, e.nonce, e.aad, e.plaintext);
    ciphertext := Base64.Encode(Base64.Url, Frame(kid, e.nonce, ct));
    FrameParts(kid, e.nonce, ct);
    Base64.RoundTrip(Base64.Url, Frame(kid, e.nonce, ct));
    assert [ring.active][0] == kid;
    Dispatch(TOY_GCM, ring, [ring.active], kid, e.nonce, ct, e.aad);
    assert log[0].nonce == e.nonce;
  }
}
