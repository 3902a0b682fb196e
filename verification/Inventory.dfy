/** Inventory sync: upserting discovered VMs into the workloads table. */
module Inventory {
  import opened Wrappers

  // A VM as reported; `name` and `platform` have defaults.
  datatype Vm = Vm(
    name: Option<string>, platform: Option<string>, osType: Option<string>, objectId: Option<string>,
    moref: Option<string>, isProtected: bool, lastBackup: Option<int>)

  datatype Row = Row(
    appliance: int, objectId: Option<string>, name: string, platform: string, osType: Option<string>,
    moref: Option<string>, isProtected: bool, lastBackupAt: Option<int>)

  function Inserted(appliance: int, vm: Vm): Row {
    Row(appliance, vm.objectId, vm.name.GetOr("unknown"), vm.platform.GetOr("vmware"), vm.osType, vm.moref,
        vm.isProtected, vm.lastBackup)
  }

  // A conflicting insert sets these three columns and keeps the others.
  function Overwritten(r: Row, vm: Vm): Row {
    r.(name := vm.name.GetOr("unknown"), isProtected := vm.isProtected, lastBackupAt := vm.lastBackup)
  }

  predicate Matches(r: Row, appliance: int, id: string) {
    r.appliance == appliance && r.objectId == Some(id)
  }

  // The position of the row that conflicts with (appliance, id), or the number of rows.
  function Find(rows: seq<Row>, appliance: int, id: string): (i: nat)
    ensures i <= |rows|
    ensures i < |rows| ==> Matches(rows[i], appliance, id)
    ensures forall k :: 0 <= k < i ==> !Matches(rows[k], appliance, id)
  {
    if rows == [] || Matches(rows[0], appliance, id) then 0
    else
      var i := Find(rows[1..], appliance, id);
      assert forall k :: 1 <= k < 1 + i ==> rows[k] == rows[1..][k - 1];
      1 + i
  }

  function Upsert(rows: seq<Row>, appliance: int, vm: Vm): seq<Row> {
    if vm.objectId.None? then rows + [Inserted(appliance, vm)]
    else
      var i := Find(rows, appliance, vm.objectId.value);
      if i < |rows| then rows[i := Overwritten(rows[i], vm)] else rows + [Inserted(appliance, vm)]
  }

  function Synced(rows: seq<Row>, appliance: int, vms: seq<Vm>): seq<Row> {
    if vms == [] then rows
    else Upsert(Synced(rows, appliance, vms[..|vms| - 1]), appliance, vms[|vms| - 1])
  }

  class WorkloadTable {
    var rows: seq<Row>

    constructor ()
      ensures rows == []
    {
      rows := [];
    }

    method AcceptInventorySync(appliance: int, vms: seq<Vm>) returns (upserted: nat)
      modifies this
      ensures rows == Synced(old(rows), appliance, vms)
      ensures upserted == |vms|
    {
      upserted := 0;
      assert vms[..|vms|] == vms;
      while upserted < |vms|
        invariant upserted <= |vms|
        invariant rows == Synced(old(rows), appliance, vms[..upserted])
      {
        assert vms[..upserted + 1][..upserted] == vms[..upserted];
        var vm := vms[upserted];
        if vm.objectId.Some? && Find(rows, appliance, vm.objectId.value) < |rows| {
          var i := Find(rows, appliance, vm.objectId.value);
          rows := rows[i := Overwritten(rows[i], vm)];
        } else {
          rows := rows + [Inserted(appliance, vm)];
        }
        upserted := upserted + 1;
      }
    }
  }

  /******* Uniqueness and isolation *******/

  // The partial unique index on (appliance_id, veeam_object_id).
  ghost predicate UniqueIds(rows: seq<Row>) {
    forall i, j :: 0 <= i < j < |rows| && rows[i].objectId.Some? && rows[i].appliance == rows[j].appliance
      ==> rows[i].objectId != rows[j].objectId
  }

  // One sync only adds rows of its own appliance at the end, and keeps every row's identity; rows of
  // other appliances and rows without an id are kept as they are.
  ghost predicate OnlyTouches(rows: seq<Row>, after: seq<Row>, appliance: int) {
    && |rows| <= |after|
    && (forall i :: |rows| <= i < |after| ==> after[i].appliance == appliance)
    && (forall i :: 0 <= i < |rows| ==>
          after[i].appliance == rows[i].appliance && after[i].objectId == rows[i].objectId)
    && forall i :: 0 <= i < |rows| && (rows[i].appliance != appliance || rows[i].objectId == None) ==>
         after[i] == rows[i]
  }

  lemma {:induction false} SyncKeepsUnique(rows: seq<Row>, appliance: int, vms: seq<Vm>)
    requires UniqueIds(rows)
    ensures UniqueIds(Synced(rows, appliance, vms)) && OnlyTouches(rows, Synced(rows, appliance, vms), appliance)
  {
    if vms != [] {
      SyncKeepsUnique(rows, appliance, vms[..|vms| - 1]);
      UpsertKeepsUnique(Synced(rows, appliance, vms[..|vms| - 1]), appliance, vms[|vms| - 1]);
    }
  }

  lemma UpsertKeepsUnique(rows: seq<Row>, appliance: int, vm: Vm)
    requires UniqueIds(rows)
    ensures UniqueIds(Upsert(rows, appliance, vm)) && OnlyTouches(rows, Upsert(rows, appliance, vm), appliance)
  {
  }

  datatype Sync = Sync(appliance: int, vms: seq<Vm>)

  function AfterSyncs(syncs: seq<Sync>): seq<Row> {
    if syncs == [] then []
    else
      var last := syncs[|syncs| - 1];
      Synced(AfterSyncs(syncs[..|syncs| - 1]), last.appliance, last.vms)
  }

  // Over every sequence of syncs there is at most one row per appliance and object id, and every id
  // reported in the last one has its row.
  lemma {:induction false} AlwaysUnique(syncs: seq<Sync>)
    ensures UniqueIds(AfterSyncs(syncs))
    ensures syncs != [] ==>
      var last := syncs[|syncs| - 1];
      SeenIds(last.vms) <= KnownIds(AfterSyncs(syncs), last.appliance)
  {
    if syncs != [] {
      var last := syncs[|syncs| - 1];
      AlwaysUnique(syncs[..|syncs| - 1]);
      SyncKeepsUnique(AfterSyncs(syncs[..|syncs| - 1]), last.appliance, last.vms);
      SyncedIds(AfterSyncs(syncs[..|syncs| - 1]), last.appliance, last.vms);
    }
  }

  /******* Growth *******/

  ghost function KnownIds(rows: seq<Row>, appliance: int): set<string> {
    set i | 0 <= i < |rows| && rows[i].appliance == appliance && rows[i].objectId.Some? :: rows[i].objectId.value
  }

  ghost function SeenIds(vms: seq<Vm>): set<string> {
    set vm | vm in vms && vm.objectId.Some? :: vm.objectId.value
  }

  function Unidentified(vms: seq<Vm>): nat {
    if vms == [] then 0 else Unidentified(vms[..|vms| - 1]) + if vms[|vms| - 1].objectId.None? then 1 else 0
  }

  lemma FoundIffKnown(rows: seq<Row>, appliance: int, id: string)
    ensures Find(rows, appliance, id) < |rows| <==> id in KnownIds(rows, appliance)
  {
    if id in KnownIds(rows, appliance) {
      var k :| 0 <= k < |rows| && rows[k].appliance == appliance && rows[k].objectId == Some(id);
      assert Matches(rows[k], appliance, id);
    }
  }

  lemma UpsertIds(rows: seq<Row>, appliance: int, vm: Vm)
    ensures KnownIds(Upsert(rows, appliance, vm), appliance)
         == KnownIds(rows, appliance) + if vm.objectId.Some? then {vm.objectId.value} else {}
    ensures |Upsert(rows, appliance, vm)| == |rows|
      + if vm.objectId.Some? && vm.objectId.value in KnownIds(rows, appliance) then 0 else 1
  {
    var after := Upsert(rows, appliance, vm);
    if vm.objectId.Some? {
      FoundIffKnown(rows, appliance, vm.objectId.value);
      var i := Find(rows, appliance, vm.objectId.value);
      if i < |rows| {
        IdsUnderUpdate(rows, i, Overwritten(rows[i], vm), appliance);
      }
    }
    if |after| == |rows| + 1 {
      IdsUnderAppend(rows, Inserted(appliance, vm), appliance);
    }
  }

  lemma IdsUnderUpdate(rows: seq<Row>, i: nat, r: Row, appliance: int)
    requires i < |rows| && r.appliance == rows[i].appliance && r.objectId == rows[i].objectId
    ensures KnownIds(rows[i := r], appliance) == KnownIds(rows, appliance)
  {
    var after := rows[i := r];
    assert forall k :: 0 <= k < |rows| ==>
      after[k].appliance == rows[k].appliance && after[k].objectId == rows[k].objectId;
  }

  lemma IdsUnderAppend(rows: seq<Row>, r: Row, appliance: int)
    requires r.appliance == appliance
    ensures KnownIds(rows + [r], appliance)
         == KnownIds(rows, appliance) + if r.objectId.Some? then {r.objectId.value} else {}
  {
    var after := rows + [r];
    assert forall k :: 0 <= k < |rows| ==> after[k] == rows[k];
    assert after[|rows|] == r;
  }

  lemma SeenAppend(vms: seq<Vm>, vm: Vm)
    ensures SeenIds(vms + [vm]) == SeenIds(vms) + if vm.objectId.Some? then {vm.objectId.value} else {}
  {
    assert forall x :: x in vms + [vm] <==> x in vms || x == vm;
  }

  lemma CountNewId(known: set<string>, seen: set<string>, id: string)
    ensures |(seen + {id}) - known| == |seen - known| + if id in known + seen then 0 else 1
  {
    if id in known + seen {
      assert (seen + {id}) - known == seen - known;
    } else {
      assert (seen + {id}) - known == (seen - known) + {id};
    }
  }

  ghost predicate IdsSynced(rows: seq<Row>, after: seq<Row>, appliance: int, vms: seq<Vm>) {
    && KnownIds(after, appliance) == KnownIds(rows, appliance) + SeenIds(vms)
    && |after| == |rows| + |SeenIds(vms) - KnownIds(rows, appliance)| + Unidentified(vms)
  }

  lemma UnidentifiedAppend(vms: seq<Vm>, vm: Vm)
    ensures Unidentified(vms + [vm]) == Unidentified(vms) + if vm.objectId.None? then 1 else 0
  {
    assert (vms + [vm])[..|vms|] == vms;
  }

  lemma IdsSyncedOnce(rows: seq<Row>, before: seq<Row>, appliance: int, vms: seq<Vm>, vm: Vm)
    requires IdsSynced(rows, before, appliance, vms)
    ensures IdsSynced(rows, Upsert(before, appliance, vm), appliance, vms + [vm])
  {
    UpsertIds(before, appliance, vm);
    SeenAppend(vms, vm);
    UnidentifiedAppend(vms, vm);
    match vm.objectId
    case Some(id) => CountNewId(KnownIds(rows, appliance), SeenIds(vms), id);
    case None => assert SeenIds(vms + [vm]) == SeenIds(vms);
  }

  lemma {:induction false} SyncedIds(rows: seq<Row>, appliance: int, vms: seq<Vm>)
    ensures IdsSynced(rows, Synced(rows, appliance, vms), appliance, vms)
  {
    if vms != [] {
      var front, vm := vms[..|vms| - 1], vms[|vms| - 1];
      SyncedIds(rows, appliance, front);
      IdsSyncedOnce(rows, Synced(rows, appliance, front), appliance, front, vm);
      assert vms == front + [vm];
    }
  }

  // The table grows by exactly the newly seen ids and the VMs reported without one.
  lemma GrowsByNewIds(rows: seq<Row>, appliance: int, vms: seq<Vm>)
    ensures |Synced(rows, appliance, vms)| - |rows| == |SeenIds(vms) - KnownIds(rows, appliance)| + Unidentified(vms)
  {
    SyncedIds(rows, appliance, vms);
  }

  /******* Repeating a sync *******/

  // The last report of an id in the inventory.
  function LastReport(vms: seq<Vm>, id: string): Option<Vm> {
    if vms == [] then None
    else if vms[|vms| - 1].objectId == Some(id) then Some(vms[|vms| - 1])
    else LastReport(vms[..|vms| - 1], id)
  }

  // Whether the row carries the reported columns of its appliance's last report of its id.
  ghost predicate UpToDate(r: Row, appliance: int, vms: seq<Vm>) {
    r.appliance == appliance && r.objectId.Some? && LastReport(vms, r.objectId.value).Some? ==>
      r == Overwritten(r, LastReport(vms, r.objectId.value).value)
  }

  lemma {:induction false} SyncBringsUpToDate(rows: seq<Row>, appliance: int, vms: seq<Vm>)
    requires UniqueIds(rows)
    ensures forall i :: 0 <= i < |Synced(rows, appliance, vms)| ==>
      UpToDate(Synced(rows, appliance, vms)[i], appliance, vms)
  {
    if vms != [] {
      var front, vm := vms[..|vms| - 1], vms[|vms| - 1];
      var before, after := Synced(rows, appliance, front), Synced(rows, appliance, vms);
      SyncBringsUpToDate(rows, appliance, front);
      SyncKeepsUnique(rows, appliance, front);
      SyncKeepsUnique(rows, appliance, vms);
      forall i | 0 <= i < |after| ensures UpToDate(after[i], appliance, vms) {
        if i < |before| && after[i] == before[i] && after[i].objectId != vm.objectId {
          assert UpToDate(before[i], appliance, front);
        }
      }
    }
  }

  /******* The table after a sync *******/

  // The first report of an id in the inventory.
  function FirstReport(vms: seq<Vm>, id: string): Option<Vm> {
    if vms == [] then None
    else
      var earlier := FirstReport(vms[..|vms| - 1], id);
      if earlier.Some? then earlier
      else if vms[|vms| - 1].objectId == Some(id) then Some(vms[|vms| - 1]) else None
  }

  lemma {:induction false} ReportsAreSeen(vms: seq<Vm>, id: string)
    ensures FirstReport(vms, id).Some? <==> id in SeenIds(vms)
    ensures LastReport(vms, id).Some? <==> id in SeenIds(vms)
  {
    if vms != [] {
      ReportsAreSeen(vms[..|vms| - 1], id);
      SeenAppend(vms[..|vms| - 1], vms[|vms| - 1]);
      assert vms == vms[..|vms| - 1] + [vms[|vms| - 1]];
    }
  }

  ghost function NameOf(vm: Vm): string { if vm.name == None then "unknown" else vm.name.value }

  ghost function PlatformOf(vm: Vm): string { if vm.platform == None then "vmware" else vm.platform.value }

  // The row that the sync makes of an earlier one: a later report of its id refreshes name, protection
  // and last backup.
  ghost function Refreshed(r: Row, appliance: int, vms: seq<Vm>): Row {
    if r.appliance == appliance && r.objectId.Some? && LastReport(vms, r.objectId.value).Some? then
      var last := LastReport(vms, r.objectId.value).value;
      Row(r.appliance, r.objectId, NameOf(last), r.platform, r.osType, r.moref, last.isProtected, last.lastBackup)
    else r
  }

  // A row that the sync adds: of a VM without an id, or of an id's first report with what its last one refreshes.
  ghost predicate IsAdded(r: Row, appliance: int, vms: seq<Vm>) {
    match r.objectId
    case None =>
      exists vm :: vm in vms && vm.objectId == None
        && r == Row(appliance, None, NameOf(vm), PlatformOf(vm), vm.osType, vm.moref, vm.isProtected, vm.lastBackup)
    case Some(id) =>
      FirstReport(vms, id).Some? && LastReport(vms, id).Some?
      && var first, last := FirstReport(vms, id).value, LastReport(vms, id).value;
         r == Row(appliance, Some(id), NameOf(last), PlatformOf(first), first.osType, first.moref,
                  last.isProtected, last.lastBackup)
  }

  ghost predicate SyncedTable(rows: seq<Row>, after: seq<Row>, appliance: int, vms: seq<Vm>) {
    && |rows| <= |after|
    && (forall i :: 0 <= i < |rows| ==> after[i] == Refreshed(rows[i], appliance, vms))
    && forall i :: |rows| <= i < |after| ==> IsAdded(after[i], appliance, vms)
  }

  // How one more report changes what becomes of a row.
  lemma RefreshedByOne(r: Row, appliance: int, vms: seq<Vm>, vm: Vm)
    ensures Refreshed(r, appliance, vms + [vm]) ==
      if r.appliance == appliance && r.objectId.Some? && vm.objectId == r.objectId
      then Overwritten(Refreshed(r, appliance, vms), vm) else Refreshed(r, appliance, vms)
  {
    assert (vms + [vm])[..|vms|] == vms;
  }

  lemma AddedByOne(r: Row, appliance: int, vms: seq<Vm>, vm: Vm)
    requires IsAdded(r, appliance, vms)
    ensures if r.objectId.Some? && vm.objectId == r.objectId then IsAdded(Overwritten(r, vm), appliance, vms + [vm])
            else IsAdded(r, appliance, vms + [vm])
  {
    assert (vms + [vm])[..|vms|] == vms;
    if r.objectId == None {
      var v :| v in vms && v.objectId == None
        && r == Row(appliance, None, NameOf(v), PlatformOf(v), v.osType, v.moref, v.isProtected, v.lastBackup);
      assert v in vms + [vm];
    }
  }

  lemma NewlyAdded(appliance: int, vms: seq<Vm>, vm: Vm)
    requires vm.objectId.Some? ==> FirstReport(vms, vm.objectId.value) == None
    ensures IsAdded(Inserted(appliance, vm), appliance, vms + [vm])
  {
    assert (vms + [vm])[..|vms|] == vms && vm in vms + [vm];
  }

  lemma UpsertTable(rows: seq<Row>, before: seq<Row>, appliance: int, vms: seq<Vm>, vm: Vm)
    requires SyncedTable(rows, before, appliance, vms) && UniqueIds(before)
    requires forall i :: |rows| <= i < |before| ==> before[i].appliance == appliance
    requires vm.objectId.Some? && FirstReport(vms, vm.objectId.value).Some? ==>
      Find(before, appliance, vm.objectId.value) < |before|
    ensures SyncedTable(rows, Upsert(before, appliance, vm), appliance, vms + [vm])
  {
    var after := Upsert(before, appliance, vm);
    forall i | 0 <= i < |before|
      ensures after[i] == if vm.objectId.Some? && Matches(before[i], appliance, vm.objectId.value)
                          then Overwritten(before[i], vm) else before[i]
    {
      if vm.objectId.Some? && Matches(before[i], appliance, vm.objectId.value) {
        var k := Find(before, appliance, vm.objectId.value);
        assert k <= i && !(k < i);
      }
    }
    forall i | 0 <= i < |rows| ensures after[i] == Refreshed(rows[i], appliance, vms + [vm]) {
      RefreshedByOne(rows[i], appliance, vms, vm);
    }
    forall i | |rows| <= i < |after| ensures IsAdded(after[i], appliance, vms + [vm]) {
      if i < |before| {
        AddedByOne(before[i], appliance, vms, vm);
      } else {
        NewlyAdded(appliance, vms, vm);
      }
    }
  }

  lemma ReportedIsFound(rows: seq<Row>, appliance: int, vms: seq<Vm>, id: string)
    requires FirstReport(vms, id).Some?
    ensures Find(Synced(rows, appliance, vms), appliance, id) < |Synced(rows, appliance, vms)|
  {
    ReportsAreSeen(vms, id);
    SyncedIds(rows, appliance, vms);
    FoundIffKnown(Synced(rows, appliance, vms), appliance, id);
  }

  lemma SyncedUnfolds(rows: seq<Row>, appliance: int, vms: seq<Vm>, vm: Vm)
    ensures Synced(rows, appliance, vms + [vm]) == Upsert(Synced(rows, appliance, vms), appliance, vm)
  {
    assert (vms + [vm])[..|vms|] == vms;
  }

  lemma SyncMakesOneMore(rows: seq<Row>, appliance: int, vms: seq<Vm>, vm: Vm)
    requires UniqueIds(rows) && SyncedTable(rows, Synced(rows, appliance, vms), appliance, vms)
    ensures SyncedTable(rows, Synced(rows, appliance, vms + [vm]), appliance, vms + [vm])
  {
    SyncKeepsUnique(rows, appliance, vms);
    if vm.objectId.Some? && FirstReport(vms, vm.objectId.value).Some? {
      ReportedIsFound(rows, appliance, vms, vm.objectId.value);
    }
    UpsertTable(rows, Synced(rows, appliance, vms), appliance, vms, vm);
    SyncedUnfolds(rows, appliance, vms, vm);
  }

  // What a sync makes of every row, and what the rows are that it adds.
  lemma SyncMakes(rows: seq<Row>, appliance: int, vms: seq<Vm>)
    requires UniqueIds(rows)
    ensures SyncedTable(rows, Synced(rows, appliance, vms), appliance, vms)
  {
    for n := 0 to |vms|
      invariant SyncedTable(rows, Synced(rows, appliance, vms[..n]), appliance, vms[..n])
    {
      SyncMakesOneMore(rows, appliance, vms[..n], vms[n]);
      assert vms[..n + 1] == vms[..n] + [vms[n]];
    }
    assert vms[..|vms|] == vms;
  }

  // `after` differs from `r` in the reported columns at most, and only when the inventory names r's id.
  ghost predicate OnlyReported(r: Row, after: Row, appliance: int, vms: seq<Vm>) {
    && after.appliance == r.appliance && after.objectId == r.objectId && after.platform == r.platform
    && after.osType == r.osType && after.moref == r.moref
    && (after == r || (r.appliance == appliance && r.objectId.Some? && LastReport(vms, r.objectId.value).Some?))
  }

  ghost predicate Repeats(rows: seq<Row>, after: seq<Row>, appliance: int, vms: seq<Vm>) {
    |after| == |rows| && forall i :: 0 <= i < |rows| ==> OnlyReported(rows[i], after[i], appliance, vms)
  }

  lemma RepeatOnce(rows: seq<Row>, before: seq<Row>, appliance: int, vms: seq<Vm>, vm: Vm)
    requires Repeats(rows, before, appliance, vms)
    requires vm.objectId.Some? && Find(before, appliance, vm.objectId.value) < |before|
    ensures Repeats(rows, Upsert(before, appliance, vm), appliance, vms + [vm])
  {
    var k, after := Find(before, appliance, vm.objectId.value), Upsert(before, appliance, vm);
    assert (vms + [vm])[..|vms|] == vms;
    forall i | 0 <= i < |rows| ensures OnlyReported(rows[i], after[i], appliance, vms + [vm]) {
      assert OnlyReported(rows[i], before[i], appliance, vms);
      assert i != k ==> after[i] == before[i];
    }
  }

  lemma {:induction false} RepeatTouchesReported(rows: seq<Row>, appliance: int, vms: seq<Vm>)
    requires SeenIds(vms) <= KnownIds(rows, appliance) && Unidentified(vms) == 0
    ensures Repeats(rows, Synced(rows, appliance, vms), appliance, vms)
  {
    if vms != [] {
      var front, vm := vms[..|vms| - 1], vms[|vms| - 1];
      var before := Synced(rows, appliance, front);
      assert vms == front + [vm];
      SeenAppend(front, vm);
      RepeatTouchesReported(rows, appliance, front);
      SyncedIds(rows, appliance, front);
      FoundIffKnown(before, appliance, vm.objectId.value);
      RepeatOnce(rows, before, appliance, front, vm);
    }
  }

  // A second sync of the same inventory inserts each VM without an id once more, and nothing else.
  lemma RepeatInsertsUnidentified(rows: seq<Row>, appliance: int, vms: seq<Vm>)
    ensures |Synced(Synced(rows, appliance, vms), appliance, vms)| == |Synced(rows, appliance, vms)| + Unidentified(vms)
  {
    var once := Synced(rows, appliance, vms);
    SyncedIds(rows, appliance, vms);
    GrowsByNewIds(once, appliance, vms);
    assert SeenIds(vms) - KnownIds(once, appliance) == {};
  }

  // Sending the same inventory twice leaves the table as sending it once, exactly when every VM has an id.
  lemma SyncTwiceIsSyncOnce(rows: seq<Row>, appliance: int, vms: seq<Vm>)
    requires UniqueIds(rows)
    ensures Synced(Synced(rows, appliance, vms), appliance, vms) == Synced(rows, appliance, vms)
       <==> Unidentified(vms) == 0
  {
    RepeatInsertsUnidentified(rows, appliance, vms);
    if Unidentified(vms) == 0 {
      var once := Synced(rows, appliance, vms);
      var twice := Synced(once, appliance, vms);
      SyncKeepsUnique(rows, appliance, vms);
      SyncedIds(rows, appliance, vms);
      RepeatTouchesReported(once, appliance, vms);
      SyncBringsUpToDate(rows, appliance, vms);
      SyncBringsUpToDate(once, appliance, vms);
      forall i | 0 <= i < |once| ensures twice[i] == once[i] {
        assert UpToDate(once[i], appliance, vms) && UpToDate(twice[i], appliance, vms);
        assert OnlyReported(once[i], twice[i], appliance, vms);
      }
    }
  }

  // For instance a single VM without an id.
  lemma UnidentifiedDuplicates()
    ensures var vm := Vm(None, None, None, None, None, false, None);
      |Synced([], 1, [vm])| == 1 && |Synced(Synced([], 1, [vm]), 1, [vm])| == 2
  {
    var vm := Vm(None, None, None, None, None, false, None);
    assert [vm][..0] == [];
  }
}
