/**
 The appliance's hash-chained audit log. The hash is a parameter; what a proof needs of it
 (no collision among the texts at hand, never the genesis value) is stated as a premise.
 */
module AuditChain {
  import opened Wrappers

  type Hash = string -> string

  const GENESIS: string := "0000000000000000000000000000000000000000000000000000000000000000"

  // A row of the chain table. `stamp` is the timestamp as text.
  datatype Row = Row(
    seqNo: nat, stamp: string, eventType: string, payload: string, prevHash: string, entryHash: string)

  // An event to log. Its payload has two encodings: with sorted keys, which is the one hashed,
  // and in insertion order, which is the one stored and later verified.
  datatype Event = Event(stamp: string, eventType: string, hashedPayload: string, storedPayload: string)

  function RawText(prev: string, stamp: string, eventType: string, payload: string): string {
    prev + stamp + eventType + payload
  }

  function RowText(r: Row): string { RawText(r.prevHash, r.stamp, r.eventType, r.payload) }

  // The hash that row i has to continue.
  function PrevOf(rows: seq<Row>, i: nat): string
    requires i <= |rows|
  {
    if i == 0 then GENESIS else rows[i - 1].entryHash
  }

  function LastHash(rows: seq<Row>): string { PrevOf(rows, |rows|) }

  predicate Intact(hash: Hash, rows: seq<Row>, i: nat)
    requires i < |rows|
  {
    var r := rows[i];
    r.prevHash == PrevOf(rows, i) && hash(RawText(PrevOf(rows, i), r.stamp, r.eventType, r.payload)) == r.entryHash
  }

  ghost predicate Accepted(hash: Hash, rows: seq<Row>) {
    forall i :: 0 <= i < |rows| ==> Intact(hash, rows, i)
  }

  // What an append inserts after reading `prev`.
  function MakeRow(hash: Hash, prev: string, e: Event, seqNo: nat): Row {
    Row(seqNo, e.stamp, e.eventType, e.storedPayload, prev,
        hash(RawText(prev, e.stamp, e.eventType, e.hashedPayload)))
  }

  predicate HashTaken(rows: seq<Row>, h: string) {
    exists i :: 0 <= i < |rows| && rows[i].entryHash == h
  }

  /******* The log object *******/

  datatype AppendError = UniqueViolation

  class AuditLog {
    const hash: Hash
    var rows: seq<Row>
    var lastSeq: nat

    constructor (hash: Hash)
      ensures this.hash == hash && rows == [] && lastSeq == 0
    {
      this.hash := hash;
      rows, lastSeq := [], 0;
    }

    method ReadLastHash() returns (h: string)
      ensures h == LastHash(rows)
    {
      h := if rows == [] then GENESIS else rows[|rows| - 1].entryHash;
    }

    method Append(e: Event) returns (r: Result<Row, AppendError>)
      modifies this
      ensures var row := MakeRow(hash, LastHash(old(rows)), e, old(lastSeq) + 1);
        if HashTaken(old(rows), row.entryHash)
        then r == Err(UniqueViolation) && rows == old(rows) && lastSeq == old(lastSeq)
        else r == Ok(row) && rows == old(rows) + [row] && lastSeq == old(lastSeq) + 1
      ensures r.Ok? ==>
        var prev := if old(rows) == [] then GENESIS else old(rows)[|old(rows)| - 1].entryHash;
        r.value == Row(old(lastSeq) + 1, e.stamp, e.eventType, e.storedPayload, prev,
                       hash(prev + e.stamp + e.eventType + e.hashedPayload))
      ensures r.Ok? <==>
        var prev := if old(rows) == [] then GENESIS else old(rows)[|old(rows)| - 1].entryHash;
        forall i :: 0 <= i < |old(rows)| ==>
          old(rows)[i].entryHash != hash(prev + e.stamp + e.eventType + e.hashedPayload)
    {
      var prev := ReadLastHash();
      var digest := hash(RawText(prev, e.stamp, e.eventType, e.hashedPayload));
      if HashTaken(rows, digest) {
        return Err(UniqueViolation);
      }
      lastSeq := lastSeq + 1;
      rows := rows + [Row(lastSeq, e.stamp, e.eventType, e.storedPayload, prev, digest)];
      r := Ok(rows[|rows| - 1]);
    }

    // The verdict: no broken row, or the number of the first broken one.
    method VerifyChain() returns (ok: bool, broken: int)
      ensures ok <==> Accepted(hash, rows)
      ensures ok ==> broken == -1
      ensures !ok ==> exists i :: 0 <= i < |rows| && FirstBroken(hash, rows, i) && broken == rows[i].seqNo
    {
      var prev := GENESIS;
      for i := 0 to |rows|
        invariant prev == PrevOf(rows, i)
        invariant forall k :: 0 <= k < i ==> Intact(hash, rows, k)
      {
        var r := rows[i];
        if r.prevHash != prev {
          assert FirstBroken(hash, rows, i);
          return false, r.seqNo;
        }
        if hash(RawText(prev, r.stamp, r.eventType, r.payload)) != r.entryHash {
          assert FirstBroken(hash, rows, i);
          return false, r.seqNo;
        }
        prev := r.entryHash;
      }
      return true, -1;
    }
  }

  ghost predicate FirstBroken(hash: Hash, rows: seq<Row>, i: nat)
    requires i < |rows|
  {
    !Intact(hash, rows, i) && forall k :: 0 <= k < i ==> Intact(hash, rows, k)
  }

  /******* Tamper evidence *******/

  ghost function Texts(rows: seq<Row>): set<string> {
    set r | r in rows :: RowText(r)
  }

  // No two of the given texts collide and none hashes to the genesis value.
  ghost predicate SoundOn(hash: Hash, texts: set<string>) {
    && (forall x, y :: x in texts && y in texts && hash(x) == hash(y) ==> x == y)
    && forall x :: x in texts ==> hash(x) != GENESIS
  }

  ghost predicate SixtyFourDigits(hash: Hash) { forall x :: |hash(x)| == 64 }

  // Same hashed text and same hashes, hence the same evidence, in one row and at every position.
  ghost predicate SameRow(x: Row, y: Row) {
    RowText(x) == RowText(y) && x.prevHash == y.prevHash && x.entryHash == y.entryHash
  }

  ghost predicate SameEvidence(a: seq<Row>, b: seq<Row>) {
    |a| == |b| && forall i :: 0 <= i < |a| ==> SameRow(a[i], b[i])
  }

  lemma AcceptedPrefix(hash: Hash, rows: seq<Row>, n: nat)
    requires Accepted(hash, rows) && n <= |rows|
    ensures Accepted(hash, rows[..n])
  {
    forall i | 0 <= i < n ensures Intact(hash, rows[..n], i) {
      assert Intact(hash, rows, i);
    }
  }

  lemma PrevLength(hash: Hash, rows: seq<Row>, i: nat)
    requires SixtyFourDigits(hash) && Accepted(hash, rows) && i <= |rows|
    ensures |PrevOf(rows, i)| == 64
  {
    if i > 0 {
      assert Intact(hash, rows, i - 1);
    }
  }

  lemma OnlyEmptyHasGenesis(hash: Hash, rows: seq<Row>, texts: set<string>)
    requires SoundOn(hash, texts) && Texts(rows) <= texts && Accepted(hash, rows)
    ensures LastHash(rows) == GENESIS <==> rows == []
  {
    if rows != [] {
      assert Intact(hash, rows, |rows| - 1) && RowText(rows[|rows| - 1]) in Texts(rows);
    }
  }

  lemma PrevFromText(x: Row, y: Row)
    requires RowText(x) == RowText(y) && |x.prevHash| == |y.prevHash|
    ensures x.prevHash == y.prevHash
  {
    assert x.prevHash == RowText(x)[..|x.prevHash|] && y.prevHash == RowText(y)[..|y.prevHash|];
  }

  // Equal last hashes carry back one row: same text, hence same previous hash.
  lemma SameLastRow(hash: Hash, a: seq<Row>, b: seq<Row>, texts: set<string>)
    requires SixtyFourDigits(hash) && SoundOn(hash, texts) && Texts(a) <= texts && Texts(b) <= texts
    requires Accepted(hash, a) && Accepted(hash, b) && LastHash(a) == LastHash(b)
    requires a != [] && b != []
    ensures RowText(a[|a| - 1]) == RowText(b[|b| - 1]) && a[|a| - 1].prevHash == b[|b| - 1].prevHash
    ensures LastHash(a[..|a| - 1]) == a[|a| - 1].prevHash && LastHash(b[..|b| - 1]) == b[|b| - 1].prevHash
  {
    var x, y := a[|a| - 1], b[|b| - 1];
    assert Intact(hash, a, |a| - 1) && RowText(x) in Texts(a);
    assert Intact(hash, b, |b| - 1) && RowText(y) in Texts(b);
    PrevLength(hash, a, |a| - 1);
    PrevLength(hash, b, |b| - 1);
    assert RowText(x) == RowText(y);
    PrevFromText(x, y);
  }

  lemma TextsOfPrefix(rows: seq<Row>, n: nat)
    requires n <= |rows|
    ensures Texts(rows[..n]) <= Texts(rows)
  {
  }

  lemma {:induction false} SameHeadSameEvidence(hash: Hash, a: seq<Row>, b: seq<Row>, texts: set<string>)
    requires SixtyFourDigits(hash) && SoundOn(hash, texts) && Texts(a) <= texts && Texts(b) <= texts
    requires Accepted(hash, a) && Accepted(hash, b) && LastHash(a) == LastHash(b)
    ensures SameEvidence(a, b)
    decreases |a|
  {
    if a == [] || b == [] {
      OnlyEmptyHasGenesis(hash, a, texts);
      OnlyEmptyHasGenesis(hash, b, texts);
    } else {
      var m, n := |a| - 1, |b| - 1;
      SameLastRow(hash, a, b, texts);
      AcceptedPrefix(hash, a, m);
      AcceptedPrefix(hash, b, n);
      TextsOfPrefix(a, m);
      TextsOfPrefix(b, n);
      SameHeadSameEvidence(hash, a[..m], b[..n], texts);
      forall i | 0 <= i < |a| ensures SameRow(a[i], b[i]) {
        if i < m {
          assert a[i] == a[..m][i] && b[i] == b[..n][i];
        }
      }
    }
  }

  // Against the retained hash of an accepted log's last entry, a table is accepted exactly when it
  // carries that log's evidence: every edit, insertion or deletion that keeps the final hash is rejected.
  lemma TamperEvident(hash: Hash, original: seq<Row>, table: seq<Row>)
    requires SixtyFourDigits(hash) && SoundOn(hash, Texts(original) + Texts(table))
    requires Accepted(hash, original) && LastHash(table) == LastHash(original)
    ensures Accepted(hash, table) <==> SameEvidence(original, table)
  {
    if Accepted(hash, table) {
      SameHeadSameEvidence(hash, original, table, Texts(original) + Texts(table));
    }
    if SameEvidence(original, table) {
      forall i | 0 <= i < |table| ensures Intact(hash, table, i) {
        assert Intact(hash, original, i);
        assert SameRow(original[i], table[i]);
        assert i > 0 ==> SameRow(original[i - 1], table[i - 1]);
        assert RowText(table[i]) == RowText(original[i]);
      }
    }
  }

  // Without that retained hash, dropping rows from the end is never noticed.
  lemma TruncationUndetected(hash: Hash, rows: seq<Row>, n: nat)
    requires Accepted(hash, rows) && n < |rows|
    ensures Accepted(hash, rows[..n]) && !SameEvidence(rows, rows[..n])
  {
    AcceptedPrefix(hash, rows, n);
  }

  // The UNIQUE index on entry_hash.
  ghost predicate UniqueHashes(rows: seq<Row>) {
    forall i, j :: 0 <= i < j < |rows| ==> rows[i].entryHash != rows[j].entryHash
  }

  // The table that keeps only the rows at the given positions.
  function Keep(rows: seq<Row>, kept: seq<nat>): (r: seq<Row>)
    requires forall i :: 0 <= i < |kept| ==> kept[i] < |rows|
    ensures |r| == |kept| && forall i :: 0 <= i < |kept| ==> r[i] == rows[kept[i]]
  {
    seq(|kept|, i requires 0 <= i < |kept| => rows[kept[i]])
  }

  // Deleting rows from an accepted log is noticed exactly when what is left is not a prefix of it.
  lemma DeletionDetectedUnlessTail(hash: Hash, rows: seq<Row>, kept: seq<nat>)
    requires Accepted(hash, rows) && UniqueHashes(rows)
    requires forall i :: 0 <= i < |rows| ==> rows[i].entryHash != GENESIS
    requires forall i :: 0 <= i < |kept| ==> kept[i] < |rows|
    requires forall i, j :: 0 <= i < j < |kept| ==> kept[i] < kept[j]
    ensures Accepted(hash, Keep(rows, kept)) <==> Keep(rows, kept) <= rows
  {
    var table := Keep(rows, kept);
    if Accepted(hash, table) {
      for i := 0 to |kept|
        invariant forall k :: 0 <= k < i ==> kept[k] == k
      {
        assert Intact(hash, table, i) && Intact(hash, rows, kept[i]);
        assert PrevOf(rows, kept[i]) == PrevOf(rows, i);
      }
    }
    if table <= rows {
      assert table == rows[..|kept|];
      AcceptedPrefix(hash, rows, |kept|);
    }
  }

  /******* Tampering without a retained hash *******/

  // Two rows of accepted tables with the same entry hash have the same evidence behind them.
  lemma SameHashSamePast(hash: Hash, a: seq<Row>, b: seq<Row>, i: nat, j: nat)
    requires SixtyFourDigits(hash) && SoundOn(hash, Texts(a) + Texts(b)) && Accepted(hash, a) && Accepted(hash, b)
    requires i < |a| && j < |b| && a[i].entryHash == b[j].entryHash
    ensures i == j && SameEvidence(a[..i + 1], b[..j + 1])
  {
    AcceptedPrefix(hash, a, i + 1);
    AcceptedPrefix(hash, b, j + 1);
    TextsOfPrefix(a, i + 1);
    TextsOfPrefix(b, j + 1);
    SameHeadSameEvidence(hash, a[..i + 1], b[..j + 1], Texts(a) + Texts(b));
  }

  // The table keeps the original's evidence for k rows; from there on its rows are linked anew and
  // none of them carries an entry hash of the original.
  ghost predicate RewrittenFrom(hash: Hash, original: seq<Row>, table: seq<Row>, k: nat) {
    && k <= |original| && k <= |table| && SameEvidence(original[..k], table[..k])
    && forall j :: k <= j < |table| ==>
         Intact(hash, table, j) && forall r :: r in original ==> r.entryHash != table[j].entryHash
  }

  // How long the two tables carry the same evidence.
  ghost function Agreement(a: seq<Row>, b: seq<Row>): (k: nat)
    ensures k <= |a| && k <= |b| && SameEvidence(a[..k], b[..k])
    ensures k < |a| && k < |b| ==> !SameRow(a[k], b[k])
  {
    if a == [] || b == [] || !SameRow(a[0], b[0]) then 0
    else
      var k := Agreement(a[1..], b[1..]);
      assert forall i :: 1 <= i < k + 1 ==> a[i] == a[1..][..k][i - 1] && b[i] == b[1..][..k][i - 1];
      k + 1
  }

  // The walk accepts exactly the tables whose rows are, from the first changed one on, all rewritten
  // and linked anew. Whatever else is edited, inserted or deleted is detected.
  lemma AcceptedIffTailRewritten(hash: Hash, original: seq<Row>, table: seq<Row>)
    requires SixtyFourDigits(hash) && SoundOn(hash, Texts(original) + Texts(table)) && Accepted(hash, original)
    ensures Accepted(hash, table) <==> exists k: nat :: RewrittenFrom(hash, original, table, k)
  {
    if Accepted(hash, table) {
      var k := Agreement(original, table);
      forall j, r | k <= j < |table| && r in original ensures r.entryHash != table[j].entryHash {
        if r.entryHash == table[j].entryHash {
          var i :| 0 <= i < |original| && original[i] == r;
          SameHashSamePast(hash, original, table, i, j);
          assert false;
        }
      }
      assert RewrittenFrom(hash, original, table, k);
    }
    if k: nat :| RewrittenFrom(hash, original, table, k) {
      forall i | 0 <= i < k ensures Intact(hash, table, i) {
        assert Intact(hash, original, i) && SameRow(original[..k][i], table[..k][i]);
        assert i > 0 ==> SameRow(original[..k][i - 1], table[..k][i - 1]);
      }
    }
  }

  // Replacing row k of an accepted log goes unnoticed exactly when the new row carries the old one's
  // evidence, or is the last one and linked and hashed anew.
  lemma ModificationDetectedUnless(hash: Hash, rows: seq<Row>, k: nat, x: Row)
    requires Accepted(hash, rows) && k < |rows| && SoundOn(hash, Texts(rows) + {RowText(x)})
    ensures Accepted(hash, rows[k := x]) <==>
      if k + 1 < |rows| then SameRow(x, rows[k]) else x.prevHash == PrevOf(rows, k) && hash(RowText(x)) == x.entryHash
  {
    var table := rows[k := x];
    assert Intact(hash, rows, k) && PrevOf(table, k) == PrevOf(rows, k) && RowText(rows[k]) in Texts(rows);
    if k + 1 < |rows| {
      assert Intact(hash, rows, k + 1);
      if Accepted(hash, table) {
        assert Intact(hash, table, k) && Intact(hash, table, k + 1);
      }
    } else if Accepted(hash, table) {
      assert Intact(hash, table, k);
    }
    if Intact(hash, table, k) && (k + 1 < |rows| ==> x.entryHash == rows[k].entryHash) {
      forall i | 0 <= i < |table| ensures Intact(hash, table, i) {
        assert Intact(hash, rows, i);
      }
    }
  }

  // Inserting a row anywhere into an accepted log goes unnoticed exactly at the end, linked and hashed.
  lemma InsertionDetectedUnlessAtEnd(hash: Hash, rows: seq<Row>, k: nat, x: Row)
    requires SixtyFourDigits(hash) && SoundOn(hash, Texts(rows) + {RowText(x)})
    requires Accepted(hash, rows) && k <= |rows|
    ensures Accepted(hash, rows[..k] + [x] + rows[k..]) <==>
      k == |rows| && x.prevHash == LastHash(rows) && hash(RowText(x)) == x.entryHash
  {
    var table := rows[..k] + [x] + rows[k..];
    assert PrevOf(table, k) == PrevOf(rows, k) && table[k] == x;
    if Accepted(hash, table) {
      assert Intact(hash, table, k);
      if k < |rows| {
        assert table[k + 1] == rows[k];
        assert Intact(hash, table, k + 1) && Intact(hash, rows, k);
        assert Texts(table) <= Texts(rows) + {RowText(x)};
        if k > 0 {
          assert table[k - 1] == rows[k - 1];
          SameHashSamePast(hash, table, table, k - 1, k);
        }
      }
    } else if k == |rows| && Intact(hash, table, k) {
      forall i | 0 <= i < |table| ensures Intact(hash, table, i) {
        assert i < k ==> Intact(hash, rows, i);
      }
    }
  }

  // The table after rebuilding its tail: one linked and hashed row per event.
  function Rechained(hash: Hash, rows: seq<Row>, events: seq<Event>): seq<Row> {
    if events == [] then rows
    else
      var before := Rechained(hash, rows, events[..|events| - 1]);
      before + [MakeRow(hash, LastHash(before), events[|events| - 1], |before| + 1)]
  }

  // What is rebuilt on top of accepted rows is accepted.
  lemma {:induction false} RechainedAccepted(hash: Hash, rows: seq<Row>, events: seq<Event>)
    requires Accepted(hash, rows) && forall e :: e in events ==> OneEncoding(e)
    ensures Accepted(hash, Rechained(hash, rows, events))
  {
    if events != [] {
      var front, e := events[..|events| - 1], events[|events| - 1];
      RechainedAccepted(hash, rows, front);
      AcceptedExtends(hash, Rechained(hash, rows, front), e);
    }
  }

  lemma {:induction false} RechainedKeeps(hash: Hash, rows: seq<Row>, events: seq<Event>)
    ensures |Rechained(hash, rows, events)| == |rows| + |events| && rows <= Rechained(hash, rows, events)
  {
    if events != [] {
      RechainedKeeps(hash, rows, events[..|events| - 1]);
    }
  }

  // A tail rebuilt that way is never noticed, wherever it starts and whatever it says.
  lemma RebuiltTailUndetected(hash: Hash, rows: seq<Row>, k: nat, events: seq<Event>)
    requires Accepted(hash, rows) && k <= |rows| && forall e :: e in events ==> OneEncoding(e)
    ensures Accepted(hash, Rechained(hash, rows[..k], events))
    ensures |Rechained(hash, rows[..k], events)| == k + |events| && rows[..k] <= Rechained(hash, rows[..k], events)
  {
    AcceptedPrefix(hash, rows, k);
    RechainedAccepted(hash, rows[..k], events);
    RechainedKeeps(hash, rows[..k], events);
  }

  lemma AcceptedExtends(hash: Hash, rows: seq<Row>, e: Event)
    requires Accepted(hash, rows) && OneEncoding(e)
    ensures Accepted(hash, rows + [MakeRow(hash, LastHash(rows), e, |rows| + 1)])
  {
    var table := rows + [MakeRow(hash, LastHash(rows), e, |rows| + 1)];
    forall i | 0 <= i < |table| ensures Intact(hash, table, i) {
      if i < |rows| {
        assert Intact(hash, rows, i);
      }
    }
  }

  // Equal texts give back equal fields exactly when the two unseparated boundaries agree.
  lemma FieldsFromText(a: Row, b: Row)
    requires RowText(a) == RowText(b) && |a.prevHash| == |b.prevHash|
    ensures (a.prevHash == b.prevHash && a.stamp == b.stamp && a.eventType == b.eventType && a.payload == b.payload)
       <==> (|a.stamp| == |b.stamp| && |a.eventType| == |b.eventType|)
  {
    if |a.stamp| == |b.stamp| && |a.eventType| == |b.eventType| {
      var p, q, t := |a.prevHash|, |a.prevHash| + |a.stamp|, RowText(a);
      assert a.prevHash == t[..p] && b.prevHash == RowText(b)[..p];
      assert a.stamp == t[p..q] && b.stamp == RowText(b)[p..q];
      assert a.eventType == t[q..q + |a.eventType|] && b.eventType == RowText(b)[q..q + |b.eventType|];
      assert a.payload == t[q + |a.eventType|..] && b.payload == RowText(b)[q + |b.eventType|..];
    }
  }

  // A one-row log and an edited copy, with another time and another event type: both are accepted.
  lemma BoundaryShiftUndetected(hash: Hash)
    ensures var h := hash(GENESIS + "1.57a{}");
            var row := Row(1, "1.5", "7a", "{}", GENESIS, h);
            var edited := Row(1, "1.57", "a", "{}", GENESIS, h);
            Accepted(hash, [row]) && Accepted(hash, [edited]) && row != edited
  {
    var h := hash(GENESIS + "1.57a{}");
    assert RawText(GENESIS, "1.5", "7a", "{}") == GENESIS + "1.57a{}";
    assert RawText(GENESIS, "1.57", "a", "{}") == GENESIS + "1.57a{}";
    var row := Row(1, "1.5", "7a", "{}", GENESIS, h);
    var edited := Row(1, "1.57", "a", "{}", GENESIS, h);
    assert Intact(hash, [row], 0) && Intact(hash, [edited], 0);
    assert row.stamp[..] != edited.stamp[..] by { assert |row.stamp| != |edited.stamp|; }
  }

  /******* Appending as a two-step protocol *******/

  // A writer that has read the last hash (when the table had `readAt` rows) and not yet inserted.
  datatype Pending = Pending(prev: string, readAt: nat, event: Event)

  // `origins` records for every row the pending append it came from.
  datatype LogState = LogState(rows: seq<Row>, pending: map<nat, Pending>, origins: seq<Pending>)

  datatype Action = Read(writer: nat, event: Event) | Insert(writer: nat)

  function Next(hash: Hash, s: LogState, a: Action): LogState {
    match a
    case Read(w, e) => s.(pending := s.pending[w := Pending(LastHash(s.rows), |s.rows|, e)])
    case Insert(w) =>
      if w !in s.pending then s
      else
        var p := s.pending[w];
        var row := MakeRow(hash, p.prev, p.event, |s.rows| + 1);
        var rest := s.pending - {w};
        if HashTaken(s.rows, row.entryHash) then s.(pending := rest)
        else LogState(s.rows + [row], rest, s.origins + [p])
  }

  function After(hash: Hash, actions: seq<Action>): LogState {
    if actions == [] then LogState([], map[], [])
    else Next(hash, After(hash, actions[..|actions| - 1]), actions[|actions| - 1])
  }

  ghost predicate ReadFrom(rows: seq<Row>, p: Pending, limit: nat) {
    p.readAt <= limit <= |rows| && p.prev == PrevOf(rows, p.readAt)
  }

  ghost predicate Inv(hash: Hash, s: LogState) {
    && |s.origins| == |s.rows|
    && (forall i :: 0 <= i < |s.rows| ==>
          s.rows[i] == MakeRow(hash, s.origins[i].prev, s.origins[i].event, i + 1) && ReadFrom(s.rows, s.origins[i], i))
    && (forall w :: w in s.pending ==> ReadFrom(s.rows, s.pending[w], |s.rows|))
    && forall i, j :: 0 <= i < j < |s.rows| ==> s.rows[i].entryHash != s.rows[j].entryHash
  }

  lemma ReadFromStays(rows: seq<Row>, row: Row, p: Pending, limit: nat)
    requires ReadFrom(rows, p, limit)
    ensures ReadFrom(rows + [row], p, limit) && ReadFrom(rows + [row], p, |rows| + 1)
  {
  }

  lemma NextKeepsInv(hash: Hash, s: LogState, a: Action)
    requires Inv(hash, s)
    ensures Inv(hash, Next(hash, s, a))
  {
    var t := Next(hash, s, a);
    if a.Insert? && |t.rows| > |s.rows| {
      var row := t.rows[|s.rows|];
      assert t.rows == s.rows + [row];
      forall i | 0 <= i < |s.rows| ensures ReadFrom(t.rows, t.origins[i], i) {
        assert t.origins[i] == s.origins[i];
        ReadFromStays(s.rows, row, s.origins[i], i);
      }
      forall w | w in s.pending
        ensures ReadFrom(t.rows, s.pending[w], |s.rows|) && ReadFrom(t.rows, s.pending[w], |t.rows|)
      {
        ReadFromStays(s.rows, row, s.pending[w], |s.rows|);
      }
    }
  }

  lemma {:induction false} RunsKeepInv(hash: Hash, actions: seq<Action>)
    ensures Inv(hash, After(hash, actions))
  {
    if actions != [] {
      RunsKeepInv(hash, actions[..|actions| - 1]);
      NextKeepsInv(hash, After(hash, actions[..|actions| - 1]), actions[|actions| - 1]);
    }
  }

  // Row i was inserted right after the row its writer had read, and its payload has one encoding.
  ghost predicate Undisturbed(s: LogState, i: nat)
    requires i < |s.origins|
  {
    s.origins[i].readAt == i && s.origins[i].event.hashedPayload == s.origins[i].event.storedPayload
  }

  // The text append hashed for row i, and the text verify_chain hashes for it.
  ghost function HashedText(p: Pending): string {
    RawText(p.prev, p.event.stamp, p.event.eventType, p.event.hashedPayload)
  }

  ghost function StoredText(p: Pending): string {
    RawText(p.prev, p.event.stamp, p.event.eventType, p.event.storedPayload)
  }

  lemma PayloadFromText(prefix: string, x: string, y: string)
    requires prefix + x == prefix + y
    ensures x == y
  {
    assert x == (prefix + x)[|prefix|..] && y == (prefix + y)[|prefix|..];
  }

  // The premises on the hash for one state: no row hashes to the genesis value, and hashing tells
  // the two texts of row i apart.
  ghost predicate HashFits(hash: Hash, s: LogState, i: nat)
    requires i < |s.origins|
  {
    && (forall k :: 0 <= k < |s.rows| ==> s.rows[k].entryHash != GENESIS)
    && (hash(HashedText(s.origins[i])) == hash(StoredText(s.origins[i])) ==>
          HashedText(s.origins[i]) == StoredText(s.origins[i]))
  }

  lemma VerdictInState(hash: Hash, s: LogState, i: nat)
    requires Inv(hash, s) && i < |s.rows| && HashFits(hash, s, i)
    ensures Intact(hash, s.rows, i) <==> Undisturbed(s, i)
  {
    var p := s.origins[i];
    assert s.rows[i] == MakeRow(hash, p.prev, p.event, i + 1) && ReadFrom(s.rows, p, i);
    if p.readAt < i {
      assert PrevOf(s.rows, p.readAt) != PrevOf(s.rows, i);
    } else if hash(HashedText(p)) == hash(StoredText(p)) {
      PayloadFromText(p.prev + p.event.stamp + p.event.eventType, p.event.hashedPayload, p.event.storedPayload);
    }
  }

  // In every interleaving of appenders, verification breaks at exactly the rows whose append
  // overlapped another insert or whose stored text differs from the hashed one.
  lemma InterleavingVerdict(hash: Hash, actions: seq<Action>)
    ensures var s := After(hash, actions);
      && |s.origins| == |s.rows|
      && forall i :: 0 <= i < |s.rows| && HashFits(hash, s, i) ==> (Intact(hash, s.rows, i) <==> Undisturbed(s, i))
  {
    var s := After(hash, actions);
    RunsKeepInv(hash, actions);
    forall i | 0 <= i < |s.rows| && HashFits(hash, s, i) ensures Intact(hash, s.rows, i) <==> Undisturbed(s, i) {
      VerdictInState(hash, s, i);
    }
  }

  /******* One appender at a time *******/

  // One append call that nobody interrupts.
  function AppendOnce(hash: Hash, s: LogState, e: Event): LogState {
    var row := MakeRow(hash, LastHash(s.rows), e, |s.rows| + 1);
    var rest := s.pending - {0};
    if HashTaken(s.rows, row.entryHash) then s.(pending := rest)
    else LogState(s.rows + [row], rest, s.origins + [Pending(LastHash(s.rows), |s.rows|, e)])
  }

  lemma AppendIsReadThenInsert(hash: Hash, s: LogState, e: Event)
    ensures AppendOnce(hash, s, e) == Next(hash, Next(hash, s, Read(0, e)), Insert(0))
  {
    var p := Pending(LastHash(s.rows), |s.rows|, e);
    assert s.pending[0 := p] - {0} == s.pending - {0};
  }

  function SerialLog(hash: Hash, events: seq<Event>): LogState {
    if events == [] then LogState([], map[], [])
    else AppendOnce(hash, SerialLog(hash, events[..|events| - 1]), events[|events| - 1])
  }

  ghost predicate ReadInTurn(s: LogState) {
    s.pending == map[] && |s.origins| == |s.rows| && forall i :: 0 <= i < |s.origins| ==> s.origins[i].readAt == i
  }

  lemma AppendKeepsInv(hash: Hash, s: LogState, e: Event)
    requires Inv(hash, s) && ReadInTurn(s)
    ensures Inv(hash, AppendOnce(hash, s, e)) && ReadInTurn(AppendOnce(hash, s, e))
  {
    AppendIsReadThenInsert(hash, s, e);
    NextKeepsInv(hash, s, Read(0, e));
    NextKeepsInv(hash, Next(hash, s, Read(0, e)), Insert(0));
    assert AppendOnce(hash, s, e).pending == map[];
  }

  lemma {:induction false} SerialKeepsInv(hash: Hash, events: seq<Event>)
    ensures Inv(hash, SerialLog(hash, events)) && ReadInTurn(SerialLog(hash, events))
  {
    if events != [] {
      var front, e := events[..|events| - 1], events[|events| - 1];
      SerialKeepsInv(hash, front);
      AppendKeepsInv(hash, SerialLog(hash, front), e);
    }
  }

  ghost predicate OneEncoding(e: Event) { e.hashedPayload == e.storedPayload }

  // A log written by serialised appends is broken exactly at the entries whose two payload encodings
  // differ, so the row verify_chain reports is the first such entry, numbered from 1.
  lemma SerialVerdict(hash: Hash, events: seq<Event>)
    ensures var s := SerialLog(hash, events);
      && |s.origins| == |s.rows|
      && (forall i :: 0 <= i < |s.rows| ==> s.rows[i].seqNo == i + 1)
      && ((forall i :: 0 <= i < |s.rows| ==> HashFits(hash, s, i)) ==>
            && (forall i :: 0 <= i < |s.rows| ==> (FirstBroken(hash, s.rows, i) <==> FirstDifference(s.origins, i)))
            && (Accepted(hash, s.rows) <==> forall i :: 0 <= i < |s.rows| ==> OneEncoding(s.origins[i].event)))
  {
    SerialKeepsInv(hash, events);
    VerdictInTurn(hash, SerialLog(hash, events));
  }

  lemma VerdictInTurn(hash: Hash, s: LogState)
    requires Inv(hash, s) && ReadInTurn(s)
    ensures forall i :: 0 <= i < |s.rows| ==> s.rows[i].seqNo == i + 1
    ensures (forall i :: 0 <= i < |s.rows| ==> HashFits(hash, s, i)) ==>
      && (forall i :: 0 <= i < |s.rows| ==> (FirstBroken(hash, s.rows, i) <==> FirstDifference(s.origins, i)))
      && (Accepted(hash, s.rows) <==> forall i :: 0 <= i < |s.rows| ==> OneEncoding(s.origins[i].event))
  {
    if forall i :: 0 <= i < |s.rows| ==> HashFits(hash, s, i) {
      forall i | 0 <= i < |s.rows| ensures Intact(hash, s.rows, i) <==> OneEncoding(s.origins[i].event) {
        VerdictInState(hash, s, i);
      }
      VerdictsAgree(hash, s.rows, s.origins);
    }
  }

  lemma VerdictsAgree(hash: Hash, rows: seq<Row>, origins: seq<Pending>)
    requires |origins| == |rows|
    requires forall i :: 0 <= i < |rows| ==> (Intact(hash, rows, i) <==> OneEncoding(origins[i].event))
    ensures forall i :: 0 <= i < |rows| ==> (FirstBroken(hash, rows, i) <==> FirstDifference(origins, i))
    ensures Accepted(hash, rows) <==> forall i :: 0 <= i < |rows| ==> OneEncoding(origins[i].event)
  {
  }

  ghost predicate FirstDifference(origins: seq<Pending>, i: nat)
    requires i < |origins|
  {
    !OneEncoding(origins[i].event) && forall k :: 0 <= k < i ==> OneEncoding(origins[k].event)
  }

  // The text that append hashes for event e on top of log s.
  ghost function TextOn(s: LogState, e: Event): string {
    RawText(LastHash(s.rows), e.stamp, e.eventType, e.hashedPayload)
  }

  // Every text hashed while the events are appended one after the other is among `texts`.
  ghost predicate SerialTextsIn(hash: Hash, events: seq<Event>, texts: set<string>) {
    forall k :: 0 <= k < |events| ==> TextOn(SerialLog(hash, events[..k]), events[k]) in texts
  }

  // Row i records event i, and its hashed text is among `texts`.
  ghost predicate Recorded(s: LogState, events: seq<Event>, texts: set<string>) {
    && |s.rows| == |events| && |s.origins| == |events|
    && forall i :: 0 <= i < |events| ==> s.origins[i].event == events[i] && HashedText(s.origins[i]) in texts
  }

  lemma RecordedOnce(hash: Hash, s: LogState, events: seq<Event>, e: Event, texts: set<string>)
    requires SixtyFourDigits(hash) && SoundOn(hash, texts) && Inv(hash, s) && ReadInTurn(s)
    requires Recorded(s, events, texts) && TextOn(s, e) in texts
    ensures Recorded(AppendOnce(hash, s, e), events + [e], texts)
  {
    NewHashIsFresh(hash, s, e, texts);
  }

  lemma SerialRecords(hash: Hash, events: seq<Event>, k: nat, texts: set<string>)
    requires SixtyFourDigits(hash) && SoundOn(hash, texts) && k < |events|
    requires Recorded(SerialLog(hash, events[..k]), events[..k], texts)
    requires TextOn(SerialLog(hash, events[..k]), events[k]) in texts
    ensures Recorded(SerialLog(hash, events[..k + 1]), events[..k + 1], texts)
  {
    SerialKeepsInv(hash, events[..k]);
    RecordedOnce(hash, SerialLog(hash, events[..k]), events[..k], events[k], texts);
    assert events[..k + 1][..k] == events[..k] && events[..k + 1] == events[..k] + [events[k]];
  }

  // The UNIQUE index never refuses a serialised append: event k becomes row k.
  lemma SerialNeverRefused(hash: Hash, events: seq<Event>, texts: set<string>)
    requires SixtyFourDigits(hash) && SoundOn(hash, texts) && SerialTextsIn(hash, events, texts)
    ensures Recorded(SerialLog(hash, events), events, texts)
  {
    for k := 0 to |events|
      invariant Recorded(SerialLog(hash, events[..k]), events[..k], texts)
    {
      SerialRecords(hash, events, k, texts);
    }
    assert events[..|events|] == events;
  }

  lemma NewHashIsFresh(hash: Hash, s: LogState, e: Event, texts: set<string>)
    requires SixtyFourDigits(hash) && SoundOn(hash, texts) && Inv(hash, s)
    requires forall i :: 0 <= i < |s.rows| ==> HashedText(s.origins[i]) in texts && s.origins[i].readAt == i
    requires TextOn(s, e) in texts
    ensures !HashTaken(s.rows, hash(TextOn(s, e)))
  {
    var text := TextOn(s, e);
    forall j | 0 <= j < |s.rows| ensures s.rows[j].entryHash != hash(text) {
      var p := s.origins[j];
      assert s.rows[j] == MakeRow(hash, p.prev, p.event, j + 1) && ReadFrom(s.rows, p, j);
      PrevDistinct(hash, s, j, texts);
      TextsDiffer(p, Pending(LastHash(s.rows), |s.rows|, e));
    }
  }

  lemma TextsDiffer(p: Pending, q: Pending)
    requires |p.prev| == |q.prev| && p.prev != q.prev
    ensures HashedText(p) != HashedText(q)
  {
    var n := |p.prev|;
    assert HashedText(p)[..n] == p.prev && HashedText(q)[..n] == q.prev;
  }

  lemma PrevDistinct(hash: Hash, s: LogState, j: nat, texts: set<string>)
    requires SixtyFourDigits(hash) && SoundOn(hash, texts) && Inv(hash, s) && j < |s.rows|
    requires forall i :: 0 <= i < |s.rows| ==> HashedText(s.origins[i]) in texts
    ensures PrevOf(s.rows, j) != LastHash(s.rows) && |PrevOf(s.rows, j)| == |LastHash(s.rows)| == 64
  {
    var last := |s.rows| - 1;
    assert s.rows[last].entryHash == hash(HashedText(s.origins[last]));
    if j > 0 {
      assert s.rows[j - 1].entryHash == hash(HashedText(s.origins[j - 1]));
    }
  }

  // The actions of serialised appends, and the proof that the serial log is one of the interleavings.
  function Serial(events: seq<Event>): seq<Action> {
    if events == [] then []
    else Serial(events[..|events| - 1]) + [Read(0, events[|events| - 1]), Insert(0)]
  }

  lemma AfterTwo(hash: Hash, actions: seq<Action>, a: Action, b: Action)
    ensures After(hash, actions + [a, b]) == Next(hash, Next(hash, After(hash, actions), a), b)
  {
    var all := actions + [a, b];
    assert all[..|all| - 1] == actions + [a];
    assert (actions + [a])[..|actions|] == actions;
  }

  lemma {:induction false} SerialIsAnInterleaving(hash: Hash, events: seq<Event>)
    ensures After(hash, Serial(events)) == SerialLog(hash, events)
  {
    if events != [] {
      var front, e := events[..|events| - 1], events[|events| - 1];
      SerialIsAnInterleaving(hash, front);
      AfterTwo(hash, Serial(front), Read(0, e), Insert(0));
      AppendIsReadThenInsert(hash, SerialLog(hash, front), e);
    }
  }
}
