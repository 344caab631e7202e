/**
 The hash-chained, append-only store.

 SHA-256 over canonical JSON is an uninterpreted function of the hashed fields. Nothing is assumed of
 it: two different rows at hand with one digest, or a row with the genesis digest, appear in a result
 as an explicit alternative.
 */
module Store {
  import opened Wrappers
  import opened Events
  import opened Reducer

  type Digest = string

  /** Sixty-four zeros. */
  const GENESIS_PREV_HASH: Digest := "0000000000000000000000000000000000000000000000000000000000000000"
  const SOURCES: set<string> := {"paper", "replay", "manual"}
  const NOTE_KINDS: set<string> :=
    {"lead", "whale", "social", "signal", "verdict", "safety_report", "review", "ticket", "note"}

  /** Every field the hash covers; the type column is the payload's constructor. */
  datatype HashBody = HashBody(
    prevHash: Digest,
    seqNo: int,
    tsUtc: string,
    source: string,
    correlationId: string,
    key: string,
    payload: Payload)

  type Hasher = HashBody -> Digest

  datatype Row = Row(body: HashBody, hash: Digest) {
    function ToEvent(): Event {
      Event(body.seqNo, body.tsUtc, body.source, body.correlationId, body.payload)
    }
  }

  /** What a caller hands to `append`; no payload means it is not a mapping or fails its model. */
  datatype Entry = Entry(tsUtc: string, source: string, correlationId: string, key: string, payload: Option<Payload>)

  datatype StoreError = LedgerInconsistent | ValueError | IntegrityError

  /** A snapshot body: the folded state plus the `meta` keys its writer added. */
  datatype Snapshot = Snapshot(seqNo: int, tsUtc: string, state: LedgerState, meta: map<string, string>)

  datatype Meta = Meta(source: Option<string>, initialEquity: Option<int>, exportSeq: nat)

  // ---------------------------------------------------------------- the chain

  function HeadSeq(rows: seq<Row>): int {
    if rows == [] then 0 else rows[|rows| - 1].body.seqNo
  }

  function HeadHash(rows: seq<Row>): Digest {
    if rows == [] then GENESIS_PREV_HASH else rows[|rows| - 1].hash
  }

  /** Row `i` names the hash of the row before it and carries its own. */
  predicate Linked(h: Hasher, rows: seq<Row>, i: nat)
    requires i < |rows|
  {
    && rows[i].body.prevHash == HeadHash(rows[..i])
    && rows[i].hash == h(rows[i].body)
  }

  predicate Verifies(h: Hasher, rows: seq<Row>) {
    forall i: nat | i < |rows| :: Linked(h, rows, i)
  }

  lemma VerifiesSnoc(h: Hasher, rows: seq<Row>, r: Row)
    ensures Verifies(h, rows + [r])
            <==> Verifies(h, rows) && r.body.prevHash == HeadHash(rows) && r.hash == h(r.body)
  {
    var all := rows + [r];
    assert all[..|rows|] == rows;
    forall i: nat | i < |rows|
      ensures Linked(h, all, i) == Linked(h, rows, i)
    {
      assert all[..i] == rows[..i];
    }
    assert Linked(h, all, |rows|) == (r.body.prevHash == HeadHash(rows) && r.hash == h(r.body));
  }

  /** Two different hashed bodies among the two lists share a digest. */
  ghost predicate Collides(h: Hasher, a: seq<Row>, b: seq<Row>) {
    exists i, j | 0 <= i < |a| && 0 <= j < |b| :: a[i].body != b[j].body && h(a[i].body) == h(b[j].body)
  }

  /** Some row's digest is the genesis value. */
  ghost predicate HitsGenesis(h: Hasher, rows: seq<Row>) {
    exists i | 0 <= i < |rows| :: h(rows[i].body) == GENESIS_PREV_HASH
  }

  /**
   Tamper evidence: two row lists that verify and end in the same hash are the same in every row and
   every field, or else they exhibit a collision or a preimage of the genesis value.
   */
  lemma {:induction false} SameHeadSameHistory(h: Hasher, a: seq<Row>, b: seq<Row>)
    requires Verifies(h, a) && Verifies(h, b) && HeadHash(a) == HeadHash(b)
    ensures a == b || Collides(h, a, b) || HitsGenesis(h, a) || HitsGenesis(h, b)
    decreases |a|
  {
    if a == [] || b == [] {
      if a != [] {
        assert Linked(h, a, |a| - 1);
      }
      if b != [] {
        assert Linked(h, b, |b| - 1);
      }
    } else {
      var m, n := |a| - 1, |b| - 1;
      assert a == a[..m] + [a[m]] && b == b[..n] + [b[n]];
      VerifiesSnoc(h, a[..m], a[m]);
      VerifiesSnoc(h, b[..n], b[n]);
      if a[m].body == b[n].body {
        SameHeadSameHistory(h, a[..m], b[..n]);
        if Collides(h, a[..m], b[..n]) {
          var i, j :| 0 <= i < m && 0 <= j < n
            && a[..m][i].body != b[..n][j].body && h(a[..m][i].body) == h(b[..n][j].body);
          assert a[i].body != b[j].body && h(a[i].body) == h(b[j].body);
        }
      }
    }
  }

  /** No two different bodies among the two lists share a digest, and none has the genesis digest. */
  ghost predicate DigestsApart(h: Hasher, a: seq<Row>, b: seq<Row>) {
    !Collides(h, a, b) && !HitsGenesis(h, a) && !HitsGenesis(h, b)
  }

  /** Where the digests of the rows at hand tell them apart, one head hash is one history. */
  lemma TamperEvidence(h: Hasher, a: seq<Row>, b: seq<Row>)
    requires DigestsApart(h, a, b)
    requires Verifies(h, a) && Verifies(h, b)
    ensures HeadHash(a) == HeadHash(b) <==> a == b
  {
    if HeadHash(a) == HeadHash(b) {
      SameHeadSameHistory(h, a, b);
    }
  }

  /** What `verify` cannot see: dropping rows from the end leaves a chain that still verifies. */
  lemma TruncationVerifies(h: Hasher, rows: seq<Row>, n: nat)
    requires Verifies(h, rows) && n <= |rows|
    ensures Verifies(h, rows[..n])
    ensures n < |rows| && HeadHash(rows[..n]) == HeadHash(rows) ==> !DigestsApart(h, rows[..n], rows)
  {
    forall i: nat | i < n
      ensures Linked(h, rows[..n], i)
    {
      assert Linked(h, rows, i);
      assert rows[..n][..i] == rows[..i];
    }
    if DigestsApart(h, rows[..n], rows) {
      TamperEvidence(h, rows[..n], rows);
    }
  }

  // ---------------------------------------------------------------- appending

  predicate PayloadOk(p: Payload) {
    !p.Unknown? && (p.JournalNote? ==> p.noteKind in NOTE_KINDS)
  }

  predicate EnvelopeOk(e: Entry) {
    && e.source in SOURCES
    && e.tsUtc != "" && e.correlationId != "" && e.key != ""
    && e.payload.Some? && PayloadOk(e.payload.value)
  }

  function MakeRow(h: Hasher, seqNo: int, prevHash: Digest, e: Entry): Row
    requires e.payload.Some?
  {
    var body := HashBody(prevHash, seqNo, e.tsUtc, e.source, e.correlationId, e.key, e.payload.value);
    Row(body, h(body))
  }

  /** The table's three uniqueness constraints: seq, idempotency key and hash. */
  predicate Insertable(rows: seq<Row>, r: Row) {
    forall i | 0 <= i < |rows| ::
      rows[i].body.seqNo != r.body.seqNo && rows[i].body.key != r.body.key && rows[i].hash != r.hash
  }

  /** One append against the current head. */
  function AppendSpec(h: Hasher, rows: seq<Row>, e: Entry): Result<Row, StoreError> {
    if !EnvelopeOk(e) then Err(ValueError)
    else
      var r := MakeRow(h, HeadSeq(rows) + 1, HeadHash(rows), e);
      if Insertable(rows, r) then Ok(r) else Err(IntegrityError)
  }

  function Onto(stored: seq<Row>, r: Result<seq<Row>, StoreError>): Result<seq<Row>, StoreError> {
    match r
    case Err(error) => Err(error)
    case Ok(rest) => Ok(stored + rest)
  }

  lemma OntoTwice(a: seq<Row>, b: seq<Row>, r: Result<seq<Row>, StoreError>)
    ensures Onto(a, Onto(b, r)) == Onto(a + b, r)
    ensures Onto([], r) == r
  {
    if r.Ok? {
      assert a + (b + r.value) == a + b + r.value;
      assert [] + r.value == r.value;
    }
  }

  /** The rows that appending the entries one by one adds, or the first refusal. */
  function AppendAll(h: Hasher, rows: seq<Row>, entries: seq<Entry>): Result<seq<Row>, StoreError>
    decreases |entries|
  {
    if entries == [] then Ok([])
    else
      match AppendSpec(h, rows, entries[0])
      case Err(error) => Err(error)
      case Ok(r) => Onto([r], AppendAll(h, rows + [r], entries[1..]))
  }

  function ReadSince(rows: seq<Row>, since: int): seq<Row>
    decreases |rows|
  {
    if rows == [] then []
    else (if rows[0].body.seqNo >= since then [rows[0]] else []) + ReadSince(rows[1..], since)
  }

  function EventsOf(rows: seq<Row>): seq<Event> {
    seq(|rows|, i requires 0 <= i < |rows| => rows[i].ToEvent())
  }

  class LedgerStore {
    const h: Hasher
    var rows: seq<Row>
    var snapshots: seq<Snapshot>
    var meta: Meta
    var inconsistent: bool

    constructor (h: Hasher, meta: Meta)
      ensures this.h == h && rows == [] && snapshots == [] && this.meta == meta && !inconsistent
    {
      this.h := h;
      rows, snapshots, this.meta, inconsistent := [], [], meta, false;
    }

    method Append(e: Entry) returns (r: Result<Row, StoreError>)
      modifies this`rows
      ensures r == if inconsistent then Err(LedgerInconsistent) else AppendSpec(h, old(rows), e)
      ensures rows == if r.Ok? then old(rows) + [r.value] else old(rows)
    {
      if inconsistent {
        return Err(LedgerInconsistent);
      }
      if !EnvelopeOk(e) {
        return Err(ValueError);
      }
      var seqNo, prevHash := 1, GENESIS_PREV_HASH;
      if rows != [] {
        var head := rows[|rows| - 1];
        seqNo, prevHash := head.body.seqNo + 1, head.hash;
      }
      var row := MakeRow(h, seqNo, prevHash, e);
      if !Insertable(rows, row) {
        return Err(IntegrityError);
      }
      rows := rows + [row];
      return Ok(row);
    }

    /**
     The transaction: rows land one after another in the table, the head is read once and then
     carried along, and any refusal rolls the table back.
     */
    method AppendBatch(entries: seq<Entry>) returns (r: Result<seq<Row>, StoreError>)
      modifies this`rows
      ensures r == if entries == [] then Ok([])
                   else if inconsistent then Err(LedgerInconsistent)
                   else AppendAll(h, old(rows), entries)
      ensures rows == if r.Ok? then old(rows) + r.value else old(rows)
    {
      if entries == [] {
        return Ok([]);
      }
      if inconsistent {
        return Err(LedgerInconsistent);
      }
      var saved := rows;
      var seqNo, prevHash := 1, GENESIS_PREV_HASH;
      if rows != [] {
        var head := rows[|rows| - 1];
        seqNo, prevHash := head.body.seqNo + 1, head.hash;
      }
      var stored: seq<Row> := [];
      var i := 0;
      assert entries[0..] == entries;
      OntoTwice([], [], AppendAll(h, saved, entries));
      while i < |entries|
        invariant 0 <= i <= |entries|
        invariant rows == saved + stored
        invariant seqNo == HeadSeq(rows) + 1 && prevHash == HeadHash(rows)
        invariant AppendAll(h, saved, entries) == Onto(stored, AppendAll(h, rows, entries[i..]))
      {
        var e := entries[i];
        assert entries[i..][0] == e && entries[i..][1..] == entries[i + 1..];
        if !EnvelopeOk(e) {
          rows := saved;
          return Err(ValueError);
        }
        var row := MakeRow(h, seqNo, prevHash, e);
        if !Insertable(rows, row) {
          rows := saved;
          return Err(IntegrityError);
        }
        OntoTwice(stored, [row], AppendAll(h, rows + [row], entries[i + 1..]));
        rows := rows + [row];
        stored := stored + [row];
        seqNo, prevHash := seqNo + 1, row.hash;
        i := i + 1;
      }
      assert stored + [] == stored;
      return Ok(stored);
    }

    /** Recompute every hash in seq order; the latch follows the outcome. */
    method Verify() returns (ok: bool)
      modifies this`inconsistent
      ensures ok <==> Verifies(h, rows)
      ensures inconsistent == !ok
    {
      var expectedPrev := GENESIS_PREV_HASH;
      var i := 0;
      while i < |rows|
        invariant 0 <= i <= |rows|
        invariant expectedPrev == HeadHash(rows[..i])
        invariant forall k: nat | k < i :: Linked(h, rows, k)
      {
        var row := rows[i];
        if row.body.prevHash != expectedPrev {
          inconsistent := true;
          assert !Linked(h, rows, i);
          return false;
        }
        if h(row.body) != row.hash {
          inconsistent := true;
          assert !Linked(h, rows, i);
          return false;
        }
        expectedPrev := row.hash;
        i := i + 1;
      }
      inconsistent := false;
      return true;
    }

    /** Append-only like events: a second snapshot at one seq is refused. */
    method WriteSnapshot(snapshot: Snapshot) returns (r: Result<(), StoreError>)
      modifies this`snapshots
      ensures r.Ok? <==> forall i | 0 <= i < |old(snapshots)| :: old(snapshots)[i].seqNo != snapshot.seqNo
      ensures snapshots == if r.Ok? then old(snapshots) + [snapshot] else old(snapshots)
    {
      if exists i | 0 <= i < |snapshots| :: snapshots[i].seqNo == snapshot.seqNo {
        return Err(IntegrityError);
      }
      snapshots := snapshots + [snapshot];
      return Ok(());
    }
  }

  // ---------------------------------------------------------------- what is stored

  lemma LinkedSpelledOut(h: Hasher, rows: seq<Row>, i: nat)
    requires i < |rows|
    ensures Linked(h, rows, i)
            <==> && rows[i].hash == h(rows[i].body)
                 && (i > 0 ==> rows[i].body.prevHash == rows[i - 1].hash)
                 && (i == 0 ==> rows[0].body.prevHash
                                == "0000000000000000000000000000000000000000000000000000000000000000")
  {
    assert i > 0 ==> rows[..i][i - 1] == rows[i - 1];
  }

  /** The chain spelled out: each row's own hash is right and it names the hash before it, the first the zeros. */
  lemma VerifiesSpelledOut(h: Hasher, rows: seq<Row>)
    ensures Verifies(h, rows)
            <==> && (forall i | 0 <= i < |rows| :: rows[i].hash == h(rows[i].body))
                 && (forall i | 1 <= i < |rows| :: rows[i].body.prevHash == rows[i - 1].hash)
                 && (rows != [] ==> rows[0].body.prevHash
                                    == "0000000000000000000000000000000000000000000000000000000000000000")
  {
    hide Linked;
    if Verifies(h, rows) {
      forall i: nat | i < |rows|
        ensures rows[i].hash == h(rows[i].body)
        ensures i > 0 ==> rows[i].body.prevHash == rows[i - 1].hash
      {
        LinkedSpelledOut(h, rows, i);
      }
      if rows != [] {
        LinkedSpelledOut(h, rows, 0);
      }
    } else {
      var i: nat :| i < |rows| && !Linked(h, rows, i);
      LinkedSpelledOut(h, rows, i);
    }
  }

  /** A refused envelope: an empty text, an unknown source or a payload that its model does not accept. */
  lemma BadEnvelopeExactly(h: Hasher, rows: seq<Row>, e: Entry)
    ensures AppendSpec(h, rows, e) == Err(ValueError)
            <==> || e.tsUtc == "" || e.correlationId == "" || e.key == ""
                 || (e.source != "paper" && e.source != "replay" && e.source != "manual")
                 || e.payload.None? || e.payload.value.Unknown?
                 || (e.payload.value.JournalNote? && !KnownNoteKind(e.payload.value.noteKind))
    ensures AppendSpec(h, rows, e).Err? ==> AppendSpec(h, rows, e).error in {ValueError, IntegrityError}
  {
  }

  predicate KnownNoteKind(kind: string) {
    || kind == "lead" || kind == "whale" || kind == "social" || kind == "signal" || kind == "verdict"
    || kind == "safety_report" || kind == "review" || kind == "ticket" || kind == "note"
  }

  /** What a stored row reads back as: the entry's own fields under the next number, and nothing earlier changed. */
  lemma EntryReadsBack(h: Hasher, rows: seq<Row>, e: Entry)
    requires Sound(h, rows) && AppendSpec(h, rows, e).Ok?
    ensures
      var after := rows + [AppendSpec(h, rows, e).value];
      && EventsOf(after)[..|rows|] == EventsOf(rows) && |EventsOf(after)| == |rows| + 1
      && EventsOf(after)[|rows|] == Event(|rows| + 1, e.tsUtc, e.source, e.correlationId, e.payload.value)
      && after[|rows|].body.key == e.key
  {
    hide Verifies;
  }

  // ---------------------------------------------------------------- reachable stores

  /** Contiguous seqs from one, one row per idempotency key, and a chain that verifies. */
  ghost predicate Sound(h: Hasher, rows: seq<Row>) {
    && (forall i | 0 <= i < |rows| :: rows[i].body.seqNo == i + 1)
    && (forall i, j | 0 <= i < j < |rows| :: rows[i].body.key != rows[j].body.key)
    && Verifies(h, rows)
  }

  lemma AppendKeepsSound(h: Hasher, rows: seq<Row>, e: Entry)
    requires Sound(h, rows) && AppendSpec(h, rows, e).Ok?
    ensures Sound(h, rows + [AppendSpec(h, rows, e).value])
  {
    VerifiesSnoc(h, rows, AppendSpec(h, rows, e).value);
  }

  lemma {:induction false} AppendAllKeepsSound(h: Hasher, rows: seq<Row>, entries: seq<Entry>)
    requires Sound(h, rows) && AppendAll(h, rows, entries).Ok?
    ensures Sound(h, rows + AppendAll(h, rows, entries).value)
    ensures |AppendAll(h, rows, entries).value| == |entries|
    decreases |entries|
  {
    if entries == [] {
      assert rows + [] == rows;
    } else {
      var r := AppendSpec(h, rows, entries[0]).value;
      AppendKeepsSound(h, rows, entries[0]);
      AppendAllKeepsSound(h, rows + [r], entries[1..]);
      assert rows + ([r] + AppendAll(h, rows + [r], entries[1..]).value)
          == rows + [r] + AppendAll(h, rows + [r], entries[1..]).value;
    }
  }

  /** The table after a history of batches, refused ones leaving it as it was; `append` is a batch of one. */
  function RunBatches(h: Hasher, rows: seq<Row>, batches: seq<seq<Entry>>): seq<Row>
    decreases |batches|
  {
    if batches == [] then rows
    else
      match AppendAll(h, rows, batches[0])
      case Err(_) => RunBatches(h, rows, batches[1..])
      case Ok(added) => RunBatches(h, rows + added, batches[1..])
  }

  /** Every reachable store is sound and only ever grows. */
  lemma {:induction false} ReachableStoresAreSound(h: Hasher, rows: seq<Row>, batches: seq<seq<Entry>>)
    requires Sound(h, rows)
    ensures Sound(h, RunBatches(h, rows, batches))
    ensures rows <= RunBatches(h, rows, batches)
    decreases |batches|
  {
    if batches != [] {
      if AppendAll(h, rows, batches[0]).Ok? {
        AppendAllKeepsSound(h, rows, batches[0]);
        ReachableStoresAreSound(h, rows + AppendAll(h, rows, batches[0]).value, batches[1..]);
      } else {
        ReachableStoresAreSound(h, rows, batches[1..]);
      }
    }
  }

  predicate KeyTaken(rows: seq<Row>, key: string) {
    exists i | 0 <= i < |rows| :: rows[i].body.key == key
  }

  /** Some stored row with another body has this body's digest. */
  predicate Clashes(h: Hasher, rows: seq<Row>, body: HashBody) {
    exists i | 0 <= i < |rows| :: rows[i].body != body && h(rows[i].body) == h(body)
  }

  /** The body that appending the entry would hash. */
  function NextBody(rows: seq<Row>, e: Entry): HashBody
    requires e.payload.Some?
  {
    HashBody(HeadHash(rows), HeadSeq(rows) + 1, e.tsUtc, e.source, e.correlationId, e.key, e.payload.value)
  }

  /** On a sound store the only conflicts an append can meet are its idempotency key and a digest clash. */
  lemma AppendAcceptedExactly(h: Hasher, rows: seq<Row>, e: Entry)
    requires Sound(h, rows)
    ensures AppendSpec(h, rows, e).Ok?
            <==> EnvelopeOk(e) && !KeyTaken(rows, e.key) && !Clashes(h, rows, NextBody(rows, e))
  {
    if EnvelopeOk(e) {
      var r := MakeRow(h, HeadSeq(rows) + 1, HeadHash(rows), e);
      forall i | 0 <= i < |rows|
        ensures rows[i].body.seqNo != r.body.seqNo && rows[i].hash == h(rows[i].body)
      {
        assert Linked(h, rows, i);
      }
    }
  }

  /** No entry, appended after the ones before it, hashes to the digest of another row by then stored. */
  predicate ClashFree(h: Hasher, rows: seq<Row>, entries: seq<Entry>)
    decreases |entries|
  {
    entries != [] && entries[0].payload.Some? ==>
      && !Clashes(h, rows, NextBody(rows, entries[0]))
      && ClashFree(h, rows + [MakeRow(h, HeadSeq(rows) + 1, HeadHash(rows), entries[0])], entries[1..])
  }

  /**
   A batch lands exactly when every envelope is good, no key repeats, in the table or in the batch, and
   no digest clashes.
   */
  lemma {:induction false} BatchAcceptedExactly(h: Hasher, rows: seq<Row>, entries: seq<Entry>)
    requires Sound(h, rows)
    ensures AppendAll(h, rows, entries).Ok?
            <==> && (forall i | 0 <= i < |entries| :: EnvelopeOk(entries[i]) && !KeyTaken(rows, entries[i].key))
                 && (forall i, j | 0 <= i < j < |entries| :: entries[i].key != entries[j].key)
                 && ClashFree(h, rows, entries)
    decreases |entries|
  {
    if entries != [] {
      AppendAcceptedExactly(h, rows, entries[0]);
      if AppendSpec(h, rows, entries[0]).Ok? {
        var r := AppendSpec(h, rows, entries[0]).value;
        var grown, rest := rows + [r], entries[1..];
        AppendKeepsSound(h, rows, entries[0]);
        BatchAcceptedExactly(h, grown, rest);
        forall i | 0 <= i < |rest|
          ensures KeyTaken(grown, rest[i].key) <==> KeyTaken(rows, rest[i].key) || rest[i].key == entries[0].key
        {
          KeyTakenSnoc(rows, r, rest[i].key);
        }
        assert forall i | 0 <= i < |rest| :: rest[i] == entries[i + 1];
        assert forall i | 1 <= i < |entries| :: entries[i] == rest[i - 1];
      }
    }
  }

  lemma KeyTakenSnoc(rows: seq<Row>, r: Row, key: string)
    ensures KeyTaken(rows + [r], key) <==> KeyTaken(rows, key) || r.body.key == key
  {
    var grown := rows + [r];
    if KeyTaken(rows, key) {
      var i :| 0 <= i < |rows| && rows[i].body.key == key;
      assert grown[i].body.key == key;
    }
    if r.body.key == key {
      assert grown[|rows|].body.key == key;
    }
  }

  /** With contiguous seqs, reading from a seq is a slice of the table. */
  lemma {:induction false} ReadSinceIsSlice(rows: seq<Row>, first: int, since: int)
    requires forall i | 0 <= i < |rows| :: rows[i].body.seqNo == first + i
    requires first <= since <= first + |rows|
    ensures ReadSince(rows, since) == rows[since - first..]
    decreases |rows|
  {
    if rows != [] {
      if since == first {
        ReadAll(rows, since);
      } else {
        ReadSinceIsSlice(rows[1..], first + 1, since);
      }
    }
  }

  lemma {:induction false} ReadAll(rows: seq<Row>, since: int)
    requires forall i | 0 <= i < |rows| :: rows[i].body.seqNo >= since
    ensures ReadSince(rows, since) == rows
    decreases |rows|
  {
    if rows != [] {
      ReadAll(rows[1..], since);
      assert rows == [rows[0]] + rows[1..];
    }
  }
}
