/** The migration loop of examples/migrate_cbc_to_gcm: every row that opens is sealed again. */
module Migration {
  import opened Octets
  import opened Errors
  import opened Primitives
  import opened AeadV1
  import opened Auto
  import Base64

  type Table = map<string, string>

  /** The nonce the random source yields for a row, if it yields one. */
  type Entropy = string -> Option<Bytes>

  ghost predicate Nonces(e: Entropy) {
    forall id: string :: e(id).Some? ==> |e(id).value| == NONCE_SIZE
  }

  /** A row that cannot be opened, or cannot be sealed again. */
  predicate Fails(g: Gcm, c: BlockCipher, key: Bytes, row: string, nonce: Option<Bytes>) {
    OpenAuto(g, c, key, row, []).Err? || |key| != KEY_SIZE || nonce.None?
  }

  function Migrated(g: Gcm, c: BlockCipher, key: Bytes, row: string, nonce: Option<Bytes>): string {
    if Fails(g, c, key, row, nonce) then row
    else Sealed(g, key, nonce.value, [], OpenAuto(g, c, key, row, []).value)
  }

  /** The table after one pass. */
  function Pass(g: Gcm, c: BlockCipher, key: Bytes, rows: Table, e: Entropy): Table {
    map id | id in rows :: Migrated(g, c, key, rows[id], e(id))
  }

  function Failed(g: Gcm, c: BlockCipher, key: Bytes, rows: Table, e: Entropy): set<string> {
    set id | id in rows && Fails(g, c, key, rows[id], e(id))
  }

  function Unchanged(g: Gcm, c: BlockCipher, key: Bytes, rows: Table, e: Entropy): set<string> {
    set id | id in rows && !Fails(g, c, key, rows[id], e(id)) && Migrated(g, c, key, rows[id], e(id)) == rows[id]
  }

  datatype RowResult = Errored | Skipped | Rewritten(text: string)

  /** One turn of the loop, up to the writing back. */
  method MigrateRow(g: Gcm, c: BlockCipher, key: Bytes, oldCt: string, nonce: Option<Bytes>) returns (r: RowResult)
    requires nonce.Some? ==> |nonce.value| == NONCE_SIZE
    ensures r.Errored? <==> Fails(g, c, key, oldCt, nonce)
    ensures r.Skipped? <==> !r.Errored? && Migrated(g, c, key, oldCt, nonce) == oldCt
    ensures r.Rewritten? ==> r.text == Migrated(g, c, key, oldCt, nonce)
    ensures r.Errored? <==> OpenAuto(g, c, key, oldCt, []).Err? || |key| != 32 || nonce.None?
    ensures !r.Errored? ==>
      var p := OpenAuto(g, c, key, oldCt, []).value;
      var text := Base64.Encode(Base64.Url, [1] + nonce.value + g.seal(key, nonce.value, [], p));
      r == if text == oldCt then Skipped else Rewritten(text)
  {
    var plain := OpenAuto(g, c, key, oldCt, []);
    if plain.Err? {
      return Errored;
    }
    var newCt := SealWithNonce(g, key, plain.value, [], None, nonce);
    if newCt.Err? {
      return Errored;
    }
    return if oldCt == newCt.value then Skipped else Rewritten(newCt.value);
  }

  lemma RowOf(g: Gcm, c: BlockCipher, key: Bytes, rows: Table, e: Entropy, id: string)
    requires id in rows
    ensures Fails(g, c, key, rows[id], e(id)) ==> Migrated(g, c, key, rows[id], e(id)) == rows[id]
    ensures id in Failed(g, c, key, rows, e) <==> Fails(g, c, key, rows[id], e(id))
    ensures id in Unchanged(g, c, key, rows, e)
       <==> !Fails(g, c, key, rows[id], e(id)) && Migrated(g, c, key, rows[id], e(id)) == rows[id]
  {
  }

  lemma CountsEnd(g: Gcm, c: BlockCipher, key: Bytes, rows: Table, e: Entropy)
    ensures |Failed(g, c, key, rows, e) - rows.Keys| == |Unchanged(g, c, key, rows, e) - rows.Keys| == 0
    ensures |Failed(g, c, key, rows, e) - {}| == |Failed(g, c, key, rows, e)|
    ensures |Unchanged(g, c, key, rows, e) - {}| == |Unchanged(g, c, key, rows, e)|
  {
    var failed, same := Failed(g, c, key, rows, e), Unchanged(g, c, key, rows, e);
    assert failed - rows.Keys == {} && same - rows.Keys == {};
    assert failed - {} == failed && same - {} == same;
  }

  /** The table while the rows in `todo` are still to come. */
  ghost function Partly(g: Gcm, c: BlockCipher, key: Bytes, rows: Table, e: Entropy, todo: set<string>): Table {
    map id | id in rows :: if id in todo then rows[id] else Migrated(g, c, key, rows[id], e(id))
  }

  lemma PartlyStep(g: Gcm, c: BlockCipher, key: Bytes, rows: Table, e: Entropy, todo: set<string>, id: string)
    requires id in todo && todo <= rows.Keys
    ensures var t := Partly(g, c, key, rows, e, todo);
            && id in t && t[id] == rows[id]
            && Partly(g, c, key, rows, e, todo - {id}) == t[id := Migrated(g, c, key, rows[id], e(id))]
            && (Migrated(g, c, key, rows[id], e(id)) == rows[id] ==> Partly(g, c, key, rows, e, todo - {id}) == t)
  {
  }

  lemma PartlyEnds(g: Gcm, c: BlockCipher, key: Bytes, rows: Table, e: Entropy)
    ensures Partly(g, c, key, rows, e, rows.Keys) == rows
    ensures Partly(g, c, key, rows, e, {}) == Pass(g, c, key, rows, e)
  {
  }

  lemma OneLess(s: set<string>, todo: set<string>, id: string)
    requires id in todo
    ensures |s - (todo - {id})| == |s - todo| + (if id in s then 1 else 0)
  {
    if id in s {
      assert s - (todo - {id}) == (s - todo) + {id};
    } else {
      assert s - (todo - {id}) == s - todo;
    }
  }

  /** How the table and the two counts move on when row `id` has its turn. */
  lemma Turn(g: Gcm, c: BlockCipher, key: Bytes, rows: Table, e: Entropy, todo: set<string>, id: string)
    requires id in todo && todo <= rows.Keys
    ensures var t, next := Partly(g, c, key, rows, e, todo), Partly(g, c, key, rows, e, todo - {id});
            var failed, same := Failed(g, c, key, rows, e), Unchanged(g, c, key, rows, e);
            var fails, text := Fails(g, c, key, rows[id], e(id)), Migrated(g, c, key, rows[id], e(id));
            && id in t && t[id] == rows[id]
            && next == (if fails || text == rows[id] then t else t[id := text])
            && |failed - (todo - {id})| == |failed - todo| + (if fails then 1 else 0)
            && |same - (todo - {id})| == |same - todo| + (if !fails && text == rows[id] then 1 else 0)
  {
    hide Fails, Migrated, Failed, Unchanged, Partly;
    RowOf(g, c, key, rows, e, id);
    PartlyStep(g, c, key, rows, e, todo, id);
    OneLess(Failed(g, c, key, rows, e), todo, id);
    OneLess(Unchanged(g, c, key, rows, e), todo, id);
  }

  class FakeDB {
    var rows: Table

    constructor (rows: Table)
      ensures this.rows == rows
    {
      this.rows := rows;
    }

    /** The loop over the table. The order in which rows come up is left open, as it is for a Go map. */
    method Migrate(g: Gcm, c: BlockCipher, key: Bytes, e: Entropy)
      returns (migrated: nat, skipped: nat, errored: nat)
      requires Nonces(e)
      modifies this
      ensures rows == Pass(g, c, key, old(rows), e)
      ensures errored == |Failed(g, c, key, old(rows), e)|
      ensures skipped == |Unchanged(g, c, key, old(rows), e)|
      ensures migrated + skipped + errored == |old(rows)|
    {
      hide Fails, Migrated, Failed, Unchanged, Partly, Pass;
      migrated, skipped, errored := 0, 0, 0;
      var todo := rows.Keys;
      ghost var was := rows;
      ghost var failed, same := Failed(g, c, key, was, e), Unchanged(g, c, key, was, e);
      CountsEnd(g, c, key, was, e);
      PartlyEnds(g, c, key, was, e);
      while todo != {}
        invariant todo <= was.Keys && rows == Partly(g, c, key, was, e, todo)
        invariant errored == |failed - todo| && skipped == |same - todo|
        invariant migrated + skipped + errored + |todo| == |was.Keys|
        decreases todo
      {
        var id :| id in todo;
        Turn(g, c, key, was, e, todo, id);
        var r := MigrateRow(g, c, key, rows[id], e(id));
        todo := todo - {id};
        match r {
          case Errored =>
            errored := errored + 1;
          case Skipped =>
            skipped := skipped + 1;
          case Rewritten(newCt) =>
            rows := rows[id := newCt];
            migrated := migrated + 1;
        }
      }
    }
  }

  /** A row that goes through opens with plain `Open`, to the plaintext it had in its old format. */
  lemma MigratedRowOpens(g: Gcm, c: BlockCipher, key: Bytes, row: string, nonce: Option<Bytes>)
    requires g.Lawful() && (nonce.Some? ==> |nonce.value| == NONCE_SIZE)
    requires !Fails(g, c, key, row, nonce)
    ensures Open(g, key, Migrated(g, c, key, row, nonce), []) == OpenAuto(g, c, key, row, [])
  {
    AeadV1.RoundTrip(g, key, nonce.value, [], OpenAuto(g, c, key, row, []).value);
  }

  /** Every row that opens, in the new format or the old, is sealed afresh under the nonce drawn for it. */
  lemma RowIsSealedAfresh(g: Gcm, c: BlockCipher, key: Bytes, row: string, nonce: Bytes, p: Bytes)
    requires |key| == 32 && OpenAuto(g, c, key, row, []) == Ok(p)
    ensures Migrated(g, c, key, row, Some(nonce)) == Base64.Encode(Base64.Url, [1] + nonce + g.seal(key, nonce, [], p))
    ensures !Fails(g, c, key, row, Some(nonce))
  {
  }

  /** No pass loses a plaintext, whether the row goes through or not. */
  lemma PlaintextSurvives(g: Gcm, c: BlockCipher, key: Bytes, row: string, nonce: Option<Bytes>)
    requires g.Lawful() && (nonce.Some? ==> |nonce.value| == NONCE_SIZE)
    ensures OpenAuto(g, c, key, Migrated(g, c, key, row, nonce), []) == OpenAuto(g, c, key, row, [])
  {
    if !Fails(g, c, key, row, nonce) {
      OpensBoxes(g, c, key, nonce.value, [], OpenAuto(g, c, key, row, []).value);
    }
  }

  function Passes(g: Gcm, c: BlockCipher, key: Bytes, rows: Table, es: seq<Entropy>): Table {
    if es == [] then rows else Passes(g, c, key, Pass(g, c, key, rows, es[0]), es[1..])
  }

  /** Any number of passes, with failures anywhere: every row keeps its plaintext, and a row that went
      through even once opens with plain `Open` from then on. */
  lemma {:induction false} PassesPreserve(g: Gcm, c: BlockCipher, key: Bytes, rows: Table, es: seq<Entropy>, id: string)
    requires g.Lawful() && id in rows
    requires forall i :: 0 <= i < |es| ==> Nonces(es[i])
    ensures id in Passes(g, c, key, rows, es)
    ensures OpenAuto(g, c, key, Passes(g, c, key, rows, es)[id], []) == OpenAuto(g, c, key, rows[id], [])
    ensures Open(g, key, rows[id], []).Ok?
         || (OpenAuto(g, c, key, rows[id], []).Ok? && |key| == KEY_SIZE && exists i :: 0 <= i < |es| && es[i](id).Some?)
         ==> Open(g, key, Passes(g, c, key, rows, es)[id], []) == OpenAuto(g, c, key, rows[id], [])
    decreases |es|
  {
    DetectorsLoseNothing(g, c, key, rows[id], []);
    if es != [] {
      var next := Pass(g, c, key, rows, es[0]);
      PlaintextSurvives(g, c, key, rows[id], es[0](id));
      if !Fails(g, c, key, rows[id], es[0](id)) {
        MigratedRowOpens(g, c, key, rows[id], es[0](id));
      }
      PassesPreserve(g, c, key, next, es[1..], id);
    }
  }
}
