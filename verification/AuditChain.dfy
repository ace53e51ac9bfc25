/** examples/audit_log_chain: a log whose entries each sign the entry before them. */
module AuditChain {
  import opened Octets
  import opened Primitives

  const BAR: byte := 124

  /** The time stamp is given in the text form in which it is signed. */
  datatype Entry = Entry(stamp: Bytes, actor: Bytes, action: Bytes, resource: Bytes, mac: Bytes)
  {
    function Payload(): Bytes {
      stamp + [BAR] + actor + [BAR] + action + [BAR] + resource
    }
  }

  /** `crypt.Verify` */
  predicate MacMatches(h: Hmac, secret: Bytes, data: Bytes, mac: Bytes) {
    |mac| == MAC_SIZE && h.sign(secret, data) == mac
  }

  function PrevMac(entries: seq<Entry>, i: nat): Bytes
    requires i <= |entries|
  {
    if i == 0 then [] else entries[i - 1].mac
  }

  /** What entry `i` signs. */
  function Message(entries: seq<Entry>, i: nat): Bytes
    requires i < |entries|
  {
    PrevMac(entries, i) + entries[i].Payload()
  }

  predicate Good(h: Hmac, secret: Bytes, entries: seq<Entry>, i: nat)
    requires i < |entries|
  {
    MacMatches(h, secret, Message(entries, i), entries[i].mac)
  }

  predicate AllGood(h: Hmac, secret: Bytes, entries: seq<Entry>) {
    forall i :: 0 <= i < |entries| ==> Good(h, secret, entries, i)
  }

  /** An entry verifies if its MAC is that of the MAC before it and its four fields, set apart by `|`. */
  lemma GoodIs(h: Hmac, secret: Bytes, entries: seq<Entry>, i: nat)
    requires i < |entries|
    ensures var e, prev := entries[i], if i == 0 then [] else entries[i - 1].mac;
            Good(h, secret, entries, i)
            <==> |e.mac| == 32
                 && e.mac == h.sign(secret, prev + (e.stamp + [124] + e.actor + [124] + e.action + [124] + e.resource))
  {
  }

  /** `r` is the least index whose entry does not verify, or -1 if there is none. */
  ghost predicate IsFirstBroken(h: Hmac, secret: Bytes, entries: seq<Entry>, r: int) {
    if r == -1 then AllGood(h, secret, entries)
    else 0 <= r < |entries| && !Good(h, secret, entries, r) && forall j :: 0 <= j < r ==> Good(h, secret, entries, j)
  }

  function Appended(h: Hmac, secret: Bytes, entries: seq<Entry>, e: Entry): seq<Entry> {
    entries + [e.(mac := h.sign(secret, PrevMac(entries, |entries|) + e.Payload()))]
  }

  class AuditLog {
    const secret: Bytes
    var entries: seq<Entry>

    constructor (secret: Bytes)
      ensures this.secret == secret && entries == []
    {
      this.secret, entries := secret, [];
    }

    method Append(h: Hmac, stamp: Bytes, actor: Bytes, action: Bytes, resource: Bytes)
      modifies this
      ensures entries == Appended(h, secret, old(entries), Entry(stamp, actor, action, resource, []))
      ensures var prev := if old(entries) == [] then [] else old(entries)[|old(entries)| - 1].mac;
              var mac := h.sign(secret, prev + (stamp + [124] + actor + [124] + action + [124] + resource));
              entries == old(entries) + [Entry(stamp, actor, action, resource, mac)]
    {
      var prev: Bytes := [];
      if |entries| > 0 {
        prev := entries[|entries| - 1].mac;
      }
      var e := Entry(stamp, actor, action, resource, []);
      var signed := prev + e.Payload();
      entries := entries + [e.(mac := h.sign(secret, signed))];
    }

    method Verify(h: Hmac) returns (r: int)
      ensures IsFirstBroken(h, secret, entries, r)
    {
      var prev: Bytes := [];
      for i := 0 to |entries|
        invariant prev == PrevMac(entries, i)
        invariant forall j :: 0 <= j < i ==> Good(h, secret, entries, j)
      {
        var e := entries[i];
        if !MacMatches(h, secret, prev + e.Payload(), e.mac) {
          return i;
        }
        prev := e.mac;
      }
      return -1;
    }
  }

  function AppendedAll(h: Hmac, secret: Bytes, entries: seq<Entry>, es: seq<Entry>): seq<Entry>
    decreases |es|
  {
    if es == [] then entries else AppendedAll(h, secret, Appended(h, secret, entries, es[0]), es[1..])
  }

  /** `Verify` can return nothing but `r`. */
  ghost predicate VerifyGives(h: Hmac, secret: Bytes, entries: seq<Entry>, r: int) {
    forall s :: IsFirstBroken(h, secret, entries, s) <==> s == r
  }

  lemma VerifyIsDetermined(h: Hmac, secret: Bytes, entries: seq<Entry>, r: int)
    requires IsFirstBroken(h, secret, entries, r)
    ensures VerifyGives(h, secret, entries, r)
  {
  }

  /** After any run of `Append` on a sound log, `Verify` returns -1. */
  lemma {:induction false} AppendsVerify(h: Hmac, secret: Bytes, entries: seq<Entry>, es: seq<Entry>)
    requires h.Lawful() && AllGood(h, secret, entries)
    ensures VerifyGives(h, secret, AppendedAll(h, secret, entries, es), -1)
    decreases |es|
  {
    if es == [] {
      VerifyIsDetermined(h, secret, entries, -1);
    } else {
      var next := Appended(h, secret, entries, es[0]);
      forall i | 0 <= i < |next|
        ensures Good(h, secret, next, i)
      {
        if i < |entries| {
          assert Good(h, secret, entries, i);
        }
      }
      AppendsVerify(h, secret, next, es[1..]);
    }
  }

  /** `Sign` does not map two of the messages in play to one MAC. */
  ghost predicate NoCollision(h: Hmac, secret: Bytes, m: Bytes, n: Bytes) {
    h.sign(secret, m) == h.sign(secret, n) ==> m == n
  }

  /** Two signed messages, neither or both of a first entry, fall apart in one way only. */
  lemma SameMessage(h: Hmac, secret: Bytes, a: seq<Entry>, b: seq<Entry>, i: nat, j: nat)
    requires i < |a| && j < |b| && (i == 0 <==> j == 0) && Message(a, i) == Message(b, j)
    requires i > 0 ==> Good(h, secret, a, i - 1) && Good(h, secret, b, j - 1)
    ensures PrevMac(a, i) == PrevMac(b, j) && a[i].Payload() == b[j].Payload()
  {
    hide Entry.Payload;
    var k := |PrevMac(a, i)|;
    assert Message(a, i)[..k] == PrevMac(a, i) && Message(b, j)[..k] == PrevMac(b, j);
    assert Message(a, i)[k..] == a[i].Payload() && Message(b, j)[k..] == b[j].Payload();
  }

  /** The last MAC vouches for the whole log: two logs of one length that verify and end in the same MAC
      have the same payload, and the same MAC, at every index. */
  lemma {:induction false} LastMacVouches(h: Hmac, secret: Bytes, a: seq<Entry>, b: seq<Entry>, n: nat)
    requires n <= |a| && |a| == |b| && AllGood(h, secret, a) && AllGood(h, secret, b)
    requires n > 0 ==> a[n - 1].mac == b[n - 1].mac
    requires forall i :: 0 <= i < n ==> NoCollision(h, secret, Message(a, i), Message(b, i))
    ensures forall i :: 0 <= i < n ==> a[i].Payload() == b[i].Payload() && a[i].mac == b[i].mac
  {
    hide Entry.Payload, Message;
    if n > 0 {
      var m := n - 1;
      assert Good(h, secret, a, m) && Good(h, secret, b, m);
      assert NoCollision(h, secret, Message(a, m), Message(b, m));
      SameMessage(h, secret, a, b, m, m);
      LastMacVouches(h, secret, a, b, m);
    }
  }

  lemma RewriteMessage(a: seq<Entry>, i: nat, e: Entry)
    requires i < |a|
    ensures Message(a[i := e], i) == PrevMac(a, i) + e.Payload()
    ensures forall j :: 0 <= j < i ==> Message(a[i := e], j) == Message(a, j)
  {
  }

  /** Rewriting the payload of one entry is found at that entry. */
  lemma RewriteIsFound(h: Hmac, secret: Bytes, a: seq<Entry>, i: nat, e: Entry)
    requires AllGood(h, secret, a) && i < |a|
    requires e.mac == a[i].mac && e.Payload() != a[i].Payload()
    requires NoCollision(h, secret, Message(a, i), PrevMac(a, i) + e.Payload())
    ensures VerifyGives(h, secret, a[i := e], i)
  {
    var b := a[i := e];
    var k := |PrevMac(a, i)|;
    assert Message(a, i)[k..] == a[i].Payload() && Message(b, i)[k..] == e.Payload();
    assert Good(h, secret, a, i);
    forall j | 0 <= j < i
      ensures Good(h, secret, b, j)
    {
      assert Good(h, secret, a, j);
    }
    VerifyIsDetermined(h, secret, b, i);
  }

  /** Dropping an entry is found, at its index, if and only if it is not the last one and its MAC differs
      from the MAC before it. In all other cases, and after any number of drops at the end, the log verifies. */
  lemma DroppedEntry(h: Hmac, secret: Bytes, a: seq<Entry>, i: nat)
    requires AllGood(h, secret, a) && i < |a|
    requires i + 1 < |a| ==> NoCollision(h, secret, Message(a, i + 1), PrevMac(a, i) + a[i + 1].Payload())
    ensures VerifyGives(h, secret, a[..i] + a[i + 1..],
                        if i + 1 < |a| && PrevMac(a, i) != a[i].mac then i else -1)
    ensures VerifyGives(h, secret, a[..i], -1)
  {
    var b := a[..i] + a[i + 1..];
    forall j | 0 <= j < i
      ensures Good(h, secret, b, j) && Good(h, secret, a[..i], j)
    {
      assert Good(h, secret, a, j);
    }
    VerifyIsDetermined(h, secret, a[..i], -1);
    if i + 1 < |a| {
      assert Good(h, secret, a, i + 1);
      assert Message(b, i) == PrevMac(a, i) + a[i + 1].Payload();
      assert Message(a, i + 1) == a[i].mac + a[i + 1].Payload();
      SuffixDecides(PrevMac(a, i), a[i].mac, a[i + 1].Payload());
      forall j | i < j < |b|
        ensures Good(h, secret, b, j)
      {
        assert Good(h, secret, a, j + 1);
        assert Message(b, j) == Message(a, j + 1);
      }
    }
    VerifyIsDetermined(h, secret, b, if i + 1 < |a| && PrevMac(a, i) != a[i].mac then i else -1);
  }

  lemma SuffixDecides(a: Bytes, b: Bytes, p: Bytes)
    ensures a + p == b + p <==> a == b
  {
    if a + p == b + p {
      assert |a| == |b|;
      assert (a + p)[..|a|] == a && (b + p)[..|b|] == b;
    }
  }

  ghost predicate SameFields(d: Entry, e: Entry) {
    d.(mac := []) == e.(mac := [])
  }

  /** The payload stands for the fields as long as only the last may contain the separator. */
  lemma PayloadIsFields(d: Entry, e: Entry)
    requires BAR !in d.stamp && BAR !in d.actor && BAR !in d.action
    requires BAR !in e.stamp && BAR !in e.actor && BAR !in e.action
    ensures d.Payload() == e.Payload() <==> SameFields(d, e)
  {
    var d2, e2 := d.action + [BAR] + d.resource, e.action + [BAR] + e.resource;
    var d1, e1 := d.actor + [BAR] + d2, e.actor + [BAR] + e2;
    assert d.Payload() == d.stamp + [BAR] + d1 && e.Payload() == e.stamp + [BAR] + e1;
    FirstBar(d.stamp, d1, e.stamp, e1);
    FirstBar(d.actor, d2, e.actor, e2);
    FirstBar(d.action, d.resource, e.action, e.resource);
  }

  function Bars(b: Bytes): nat {
    multiset(b)[BAR]
  }

  lemma BarsOfThree(a: Bytes, b: Bytes, c: Bytes)
    ensures Bars(a + [BAR] + b + [BAR] + c) == Bars(a) + Bars(b) + Bars(c) + 2
    ensures Bars(a) == Bars(b) == Bars(c) == 0 <==> BAR !in a && BAR !in b && BAR !in c
  {
  }

  lemma CutAtBar(b: Bytes) returns (x: Bytes, y: Bytes)
    requires BAR in b
    ensures b == x + [BAR] + y
  {
    var j :| 0 <= j < |b| && b[j] == BAR;
    x, y := b[..j], b[j + 1..];
  }

  /** An entry with a separator in actor, action or resource has a double: other fields, same payload. */
  lemma Ambiguous(e: Entry) returns (d: Entry)
    requires BAR in e.actor || BAR in e.action || BAR in e.resource
    ensures d.stamp == e.stamp && d.Payload() == e.Payload() && !SameFields(d, e)
  {
    if BAR in e.actor {
      var x, y := CutAtBar(e.actor);
      d := Entry(e.stamp, x, y, e.action + [BAR] + e.resource, []);
      assert |d.actor| < |e.actor|;
    } else if BAR in e.action {
      var x, y := CutAtBar(e.action);
      d := Entry(e.stamp, e.actor + [BAR] + x, y, e.resource, []);
      assert |d.actor| > |e.actor|;
    } else {
      var x, y := CutAtBar(e.resource);
      d := Entry(e.stamp, e.actor + [BAR] + e.action, x, y, []);
      assert |d.actor| > |e.actor|;
    }
    assert d.Payload() == e.Payload();
  }

  lemma NoDouble(d: Entry, e: Entry)
    requires BAR !in d.stamp && BAR !in e.stamp && d.Payload() == e.Payload()
    requires BAR !in e.actor && BAR !in e.action && BAR !in e.resource
    ensures SameFields(d, e)
  {
    hide Bars, SameFields;
    var d1, e1 := d.actor + [BAR] + d.action + [BAR] + d.resource, e.actor + [BAR] + e.action + [BAR] + e.resource;
    assert d.Payload() == d.stamp + [BAR] + d1 && e.Payload() == e.stamp + [BAR] + e1;
    FirstBar(d.stamp, d1, e.stamp, e1);
    BarsOfThree(d.actor, d.action, d.resource);
    BarsOfThree(e.actor, e.action, e.resource);
    PayloadIsFields(d, e);
  }

  /** Exactly when the payload of an entry pins its fields down: when no separator occurs in actor, action
      or resource. Time stamps are in a format without separators. */
  lemma PayloadDetermines(e: Entry)
    requires BAR !in e.stamp
    ensures (forall d: Entry :: BAR !in d.stamp && d.Payload() == e.Payload() ==> SameFields(d, e))
       <==> BAR !in e.actor && BAR !in e.action && BAR !in e.resource
  {
    hide Entry.Payload, SameFields;
    if BAR in e.actor || BAR in e.action || BAR in e.resource {
      var d := Ambiguous(e);
    } else {
      forall d: Entry | BAR !in d.stamp && d.Payload() == e.Payload()
        ensures SameFields(d, e)
      {
        NoDouble(d, e);
      }
    }
  }

  lemma FirstBar(a: Bytes, x: Bytes, b: Bytes, y: Bytes)
    requires BAR !in a && BAR !in b
    ensures a + [BAR] + x == b + [BAR] + y <==> a == b && x == y
  {
    var s, t := a + [BAR] + x, b + [BAR] + y;
    assert s[|a|] == BAR && t[|b|] == BAR;
    assert |a| < |b| ==> t[|a|] == b[|a|];
    assert |b| < |a| ==> s[|b|] == a[|b|];
    if s == t {
      assert s[..|a|] == a && t[..|b|] == b && s[|a| + 1..] == x && t[|b| + 1..] == y;
    }
  }

  ghost predicate BeginsWith(b: Bytes, mac: Bytes) {
    mac <= b
  }

  /** No first payload looks like a later entry of the other log, which begins with a MAC. */
  ghost predicate NoFalseStart(a: seq<Entry>, b: seq<Entry>) {
    forall j :: |a| > 0 && 0 <= j < |b| ==> !BeginsWith(a[0].Payload(), b[j].mac)
  }

  ghost predicate NoCollisions(h: Hmac, secret: Bytes, a: seq<Entry>, b: seq<Entry>) {
    forall i, j :: 0 <= i < |a| && 0 <= j < |b| ==> NoCollision(h, secret, Message(a, i), Message(b, j))
  }

  lemma FirstIsNotLater(a: seq<Entry>, b: seq<Entry>, j: nat)
    requires |a| > 0 && 0 < j < |b| && !BeginsWith(a[0].Payload(), b[j - 1].mac)
    ensures Message(a, 0) != Message(b, j)
  {
    assert Message(a, 0) == a[0].Payload() && Message(b, j) == b[j - 1].mac + b[j].Payload();
  }

  /** The last MAC vouches for the length as well: two verifying logs that end in the same MAC are equally
      long, unless the first payload of one begins with a MAC of the other. */
  lemma {:induction false} LastMacFixesLength(h: Hmac, secret: Bytes, a: seq<Entry>, b: seq<Entry>, m: nat, n: nat)
    requires 0 < m <= |a| && 0 < n <= |b| && a[m - 1].mac == b[n - 1].mac
    requires AllGood(h, secret, a) && AllGood(h, secret, b) && NoCollisions(h, secret, a, b)
    requires NoFalseStart(a, b) && NoFalseStart(b, a)
    ensures m == n
    ensures forall i :: 0 <= i < m ==> a[i].Payload() == b[i].Payload() && a[i].mac == b[i].mac
  {
    hide Entry.Payload, Message;
    var i, j := m - 1, n - 1;
    assert Good(h, secret, a, i) && Good(h, secret, b, j);
    assert NoCollision(h, secret, Message(a, i), Message(b, j));
    if i > 0 {
      FirstIsNotLater(b, a, i);
    }
    if j > 0 {
      FirstIsNotLater(a, b, j);
    }
    assert i == 0 <==> j == 0;
    SameMessage(h, secret, a, b, i, j);
    if i > 0 {
      LastMacFixesLength(h, secret, a, b, i, j);
    }
  }

  /** Every message under which an entry of `b` verifies is one that was signed for `a`. */
  ghost predicate Unforged(h: Hmac, secret: Bytes, a: seq<Entry>, b: seq<Entry>) {
    forall j :: 0 <= j < |b| && Good(h, secret, b, j) ==> SignedIn(a, Message(b, j))
  }

  ghost predicate SignedIn(a: seq<Entry>, message: Bytes) {
    exists i :: 0 <= i < |a| && Message(a, i) == message
  }

  ghost predicate Agrees(a: seq<Entry>, b: seq<Entry>, j: nat)
    requires j < |b|
  {
    j < |a| && a[j].Payload() == b[j].Payload() && a[j].mac == b[j].mac
  }

  /** `r` is the least index at which `b` is not as `a`, or -1 if `b` is `a` up to a cut at the end. */
  ghost predicate IsFirstDeparture(a: seq<Entry>, b: seq<Entry>, r: int) {
    if r == -1 then forall j :: 0 <= j < |b| ==> Agrees(a, b, j)
    else 0 <= r < |b| && !Agrees(a, b, r) && forall j :: 0 <= j < r ==> Agrees(a, b, j)
  }

  lemma NextAgrees(h: Hmac, secret: Bytes, a: seq<Entry>, b: seq<Entry>, n: nat)
    requires n < |b| && forall j :: 0 <= j < n ==> Good(h, secret, b, j) && Agrees(a, b, j)
    requires AllGood(h, secret, a) && NoCollisions(h, secret, a, a) && Unforged(h, secret, a, b)
    requires NoFalseStart(a, a) && NoFalseStart(b, a)
    ensures Good(h, secret, b, n) <==> Agrees(a, b, n)
  {
    hide Entry.Payload;
    if n > 0 {
      assert Good(h, secret, b, n - 1) && Agrees(a, b, n - 1);
    }
    if Good(h, secret, b, n) {
      var i :| 0 <= i < |a| && Message(a, i) == Message(b, n);
      assert Good(h, secret, a, i);
      if i > 0 {
        assert Good(h, secret, a, i - 1) && !BeginsWith(b[0].Payload(), a[i - 1].mac);
        if n == 0 {
          FirstIsNotLater(b, a, i);
        }
      } else if n > 0 {
        assert !BeginsWith(a[0].Payload(), a[n - 1].mac);
        FirstIsNotLater(a, b, n);
      }
      SameMessage(h, secret, a, b, i, n);
      if n > 0 {
        LastMacFixesLength(h, secret, a, a, i, n);
      }
    } else if n < |a| {
      assert Good(h, secret, a, n);
    }
  }

  lemma {:induction false} GoodIsAgreed(h: Hmac, secret: Bytes, a: seq<Entry>, b: seq<Entry>, n: nat)
    requires n <= |b| && AllGood(h, secret, a) && NoCollisions(h, secret, a, a) && Unforged(h, secret, a, b)
    requires NoFalseStart(a, a) && NoFalseStart(b, a)
    ensures (forall j :: 0 <= j < n ==> Good(h, secret, b, j)) <==> (forall j :: 0 <= j < n ==> Agrees(a, b, j))
  {
    hide Good, Agrees, Unforged, NoCollisions, NoFalseStart;
    if n > 0 {
      GoodIsAgreed(h, secret, a, b, n - 1);
      if forall j :: 0 <= j < n - 1 ==> Good(h, secret, b, j) {
        NextAgrees(h, secret, a, b, n - 1);
      }
    }
  }

  /** Tamper evidence, for any other log: `Verify` returns the index of the first entry that is not as it was
      signed, and -1 exactly for the log itself and what is left of it after cuts at the end. */
  lemma TamperEvidence(h: Hmac, secret: Bytes, a: seq<Entry>, b: seq<Entry>, r: int)
    requires AllGood(h, secret, a) && NoCollisions(h, secret, a, a) && Unforged(h, secret, a, b)
    requires NoFalseStart(a, a) && NoFalseStart(b, a)
    ensures IsFirstBroken(h, secret, b, r) <==> IsFirstDeparture(a, b, r)
  {
    hide Good, Agrees, Unforged, NoCollisions, NoFalseStart;
    GoodIsAgreed(h, secret, a, b, |b|);
    if 0 <= r < |b| {
      GoodIsAgreed(h, secret, a, b, r);
      GoodIsAgreed(h, secret, a, b, r + 1);
    }
  }

  lemma LongerStamp(e: Entry, mac: Bytes)
    ensures e.(stamp := mac + e.stamp).Payload() == mac + e.Payload()
  {
  }

  /** The condition on first payloads is needed: an entry whose time stamp were a MAC of the log with the
      stamp of the next entry behind it would verify by itself. */
  lemma FalseStartVerifies(h: Hmac, secret: Bytes, a: seq<Entry>, i: nat)
    requires 0 < i < |a| && AllGood(h, secret, a) && NoFalseStart(a, a)
    ensures var b := [a[i].(stamp := a[i - 1].mac + a[i].stamp)];
            && Unforged(h, secret, a, b) && VerifyGives(h, secret, b, -1) && !Agrees(a, b, 0)
  {
    hide Entry.Payload;
    var b := [a[i].(stamp := a[i - 1].mac + a[i].stamp)];
    assert Good(h, secret, a, i);
    LongerStamp(a[i], a[i - 1].mac);
    assert Message(b, 0) == b[0].Payload() == Message(a, i);
    assert !BeginsWith(a[0].Payload(), a[i - 1].mac) && BeginsWith(b[0].Payload(), a[i - 1].mac);
    VerifyIsDetermined(h, secret, b, -1);
  }

  /** A lawful stand-in: the last bytes of the message. */
  function ToySign(k: Bytes, d: Bytes): (mac: Bytes)
    ensures |mac| == MAC_SIZE
  {
    seq(MAC_SIZE, i requires 0 <= i < MAC_SIZE => if i + |d| < MAC_SIZE then 0 else d[i + |d| - MAC_SIZE])
  }

  const TOY_PAYLOAD: Bytes := [49, BAR, 97, BAR, 98, BAR, 99, BAR]

  /** Two ways of signing that payload. */
  function ToyEntry(inActor: bool, mac: Bytes): Entry {
    if inActor then Entry([49], [97, BAR, 98], [99], [], mac) else Entry([49], [97], [98, BAR, 99], [], mac)
  }

  function ToyLog(inActor: bool): seq<Entry> {
    var mac := ToySign([], TOY_PAYLOAD);
    [ToyEntry(inActor, mac), ToyEntry(inActor, ToySign([], mac + TOY_PAYLOAD))]
  }

  lemma ToyMessages(inActor: bool)
    ensures var a, mac := ToyLog(inActor), ToySign([], TOY_PAYLOAD);
            && a[0].Payload() == a[1].Payload() == TOY_PAYLOAD
            && Message(a, 0) == TOY_PAYLOAD && Message(a, 1) == mac + TOY_PAYLOAD
  {
    hide ToySign;
    var a := ToyLog(inActor);
    assert a[0].Payload() == TOY_PAYLOAD && a[1].Payload() == TOY_PAYLOAD;
    assert Message(a, 0) == [] + TOY_PAYLOAD;
  }

  lemma ToySigns(p: Bytes)
    requires |p| == 8 && p[7] != 0
    ensures ToySign([], p) != ToySign([], ToySign([], p) + p)
  {
    var q := ToySign([], p) + p;
    assert q[32..] == p;
    assert ToySign([], q)[23] == q[31] == p[7] && ToySign([], p)[23] == 0;
  }

  lemma ToyRewritten(e: Entry)
    requires e.(mac := []) == Entry([50], [97, BAR, 98], [99], [], [])
    ensures e.Payload() == [50, BAR, 97, BAR, 98, BAR, 99, BAR]
  {
  }

  /** A rewrite of the second entry, with its stamp changed. */
  lemma ToyRewrite() returns (e: Entry)
    ensures var a, b := ToyLog(true), ToyLog(true)[1 := e];
            && e.mac == a[1].mac && e.Payload() != a[1].Payload() && a[0] == b[0]
            && ToySign([], Message(b, 1)) != ToySign([], Message(a, 1)) && Message(b, 0) == Message(a, 0)
  {
    hide ToySign, Message, Entry.Payload;
    ToyMessages(true);
    var a := ToyLog(true);
    e := a[1].(stamp := [50]);
    ToyRewritten(e);
    RewriteMessage(a, 1, e);
    LastByte(a[0].mac, e.Payload());
    LastByte(a[0].mac, TOY_PAYLOAD);
  }

  lemma LastByte(mac: Bytes, p: Bytes)
    requires |p| == 8
    ensures ToySign([], mac + p)[24] == p[0]
  {
  }

  lemma ToyPair(x: bool, y: bool)
    ensures var h, a, b := Hmac(ToySign), ToyLog(x), ToyLog(y);
            && AllGood(h, [], a) && AllGood(h, [], b) && Unforged(h, [], a, b)
            && NoCollisions(h, [], a, b) && NoFalseStart(a, b)
  {
    hide Entry.Payload, ToySign, Message;
    var h, a, b := Hmac(ToySign), ToyLog(x), ToyLog(y);
    ToyMessages(x);
    ToyMessages(y);
    ToySigns(TOY_PAYLOAD);
    assert Good(h, [], b, 0) && Good(h, [], b, 1);
    forall j | 0 <= j < |b|
      ensures SignedIn(a, Message(b, j))
    {
      assert Message(a, j) == Message(b, j);
    }
  }

  lemma ToyRewriteIsUnforged(e: Entry)
    requires var a, b := ToyLog(true), ToyLog(true)[1 := e];
             e.mac == a[1].mac && ToySign([], Message(b, 1)) != ToySign([], Message(a, 1)) && Message(b, 0) == Message(a, 0)
    ensures Unforged(Hmac(ToySign), [], ToyLog(true), ToyLog(true)[1 := e])
  {
    hide Entry.Payload, ToySign, Message;
    var h, a, b := Hmac(ToySign), ToyLog(true), ToyLog(true)[1 := e];
    ToyPair(true, true);
    assert Good(h, [], a, 1) && !Good(h, [], b, 1);
    assert SignedIn(a, Message(b, 0)) by {
      assert Message(a, 0) == Message(b, 0);
    }
  }

  /** Two logs of two entries that meet the hypotheses of `LastMacVouches`, `LastMacFixesLength`,
      `DroppedEntry` and `TamperEvidence`, although their fields differ: their entries sign the same text.
      A rewritten entry that meets those of `RewriteIsFound`, and of `TamperEvidence` as well. */
  lemma HypothesesAreMet() returns (h: Hmac, a: seq<Entry>, b: seq<Entry>, e: Entry)
    ensures h.Lawful() && AllGood(h, [], a) && AllGood(h, [], b)
    ensures |a| == |b| == 2 && a[0] != b[0] && a[1] != b[1] && a[1].mac == b[1].mac
    ensures NoCollisions(h, [], a, a) && NoCollisions(h, [], a, b) && Unforged(h, [], a, b)
    ensures NoFalseStart(a, a) && NoFalseStart(a, b) && NoFalseStart(b, a)
    ensures NoCollision(h, [], Message(a, 1), PrevMac(a, 0) + a[1].Payload()) && PrevMac(a, 0) != a[0].mac
    ensures e.mac == a[1].mac && e.Payload() != a[1].Payload()
    ensures NoCollision(h, [], Message(a, 1), PrevMac(a, 1) + e.Payload())
    ensures Unforged(h, [], a, a[1 := e]) && NoFalseStart(a[1 := e], a)
  {
    hide Entry.Payload, ToySign, Message, AllGood, Unforged, NoCollisions;
    h, a, b := Hmac(ToySign), ToyLog(true), ToyLog(false);
    ToyPair(true, true);
    ToyPair(true, false);
    ToyPair(false, true);
    ToyMessages(true);
    ToySigns(TOY_PAYLOAD);
    assert PrevMac(a, 0) + a[1].Payload() == TOY_PAYLOAD;
    e := ToyRewrite();
    RewriteMessage(a, 1, e);
    ToyRewriteIsUnforged(e);
  }
}
