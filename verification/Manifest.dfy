/** The manifest of a LEVELED store: a log of table changes that recovery replays. */
module Manifest {
  import opened Common

  const LEVELS := 7

  /** Table ids per level, oldest first. */
  type Levels = seq<seq<nat>>

  /** An open table: the number in its file name, and `sst_id_`, which is a `uint32_t`. */
  datatype Table = Table(fileId: nat, sstId: nat)

  function OpenTable(id: nat): Table {
    Table(id, id % 0x1_0000_0000)
  }

  function OpenLevel(ids: seq<nat>): (r: seq<Table>)
    ensures |r| == |ids| && forall i :: 0 <= i < |ids| ==> r[i] == OpenTable(ids[i])
  {
    seq(|ids|, i requires 0 <= i < |ids| => OpenTable(ids[i]))
  }

  function SstLevel(tables: seq<Table>): (r: seq<nat>)
    ensures |r| == |tables| && forall i :: 0 <= i < |tables| ==> r[i] == tables[i].sstId
  {
    seq(|tables|, i requires 0 <= i < |tables| => tables[i].sstId)
  }

  /** The tables in memory, per level: opened by id, and listed by `sst_id()`. */
  function OpenAll(levels: Levels): (r: seq<seq<Table>>)
    ensures |r| == |levels| && forall i :: 0 <= i < |levels| ==> r[i] == OpenLevel(levels[i])
  {
    seq(|levels|, i requires 0 <= i < |levels| => OpenLevel(levels[i]))
  }

  function SstIds(open: seq<seq<Table>>): (r: Levels)
    ensures |r| == |open| && forall i :: 0 <= i < |open| ==> r[i] == SstLevel(open[i])
  {
    seq(|open|, i requires 0 <= i < |open| => SstLevel(open[i]))
  }

  /** A table of a record; the id is kept in an `int`. */
  datatype Info = Info(id: int, level: nat)

  datatype Record =
    | Compaction(added: seq<Info>, deleted: seq<Info>, nextId: nat)
    | NewMemtable(memtableId: nat)
    | Snapshot(tables: Levels, nextId: nat)

  // ----- ids in records -----

  /** `uint64_t` stored as `int`, and back. */
  function StoreId(id: nat): (x: int)
    ensures -0x8000_0000 <= x < 0x8000_0000
  {
    (id + 0x8000_0000) % 0x1_0000_0000 - 0x8000_0000
  }

  function LoadId(x: int): nat
    requires x >= -0x8000_0000
  {
    if x >= 0 then x else x + 0x1_0000_0000_0000_0000
  }

  /** What an id has become once it was recorded. */
  function Recorded(id: nat): nat {
    LoadId(StoreId(id))
  }

  /** An id survives being recorded exactly when it fits a non-negative `int`, or is that close to 2^64. */
  lemma IdRoundTrip(id: nat)
    requires id < 0x1_0000_0000_0000_0000
    ensures Recorded(id) == id <==> id < 0x8000_0000 || id >= 0xFFFF_FFFF_8000_0000
  {
  }

  /** The low 32 bits of an id survive in any case. */
  lemma RecordedLowBits(id: nat)
    ensures Recorded(id) % 0x1_0000_0000 == id % 0x1_0000_0000
  {
    var x := StoreId(id);
    assert (x - id) % 0x1_0000_0000 == 0;
    if x < 0 {
      assert Recorded(id) == id + 0x1_0000_0000 * ((x - id) / 0x1_0000_0000 + 0x1_0000_0000);
    } else {
      assert Recorded(id) == id + 0x1_0000_0000 * ((x - id) / 0x1_0000_0000);
    }
  }

  // ----- what a log means -----

  function NoTables(): (l: Levels)
    ensures |l| == LEVELS
  {
    seq(LEVELS, _ => [])
  }

  /** A level of the store, and an id that is an `int`. */
  predicate InfoOk(info: Info) {
    info.level < LEVELS && -0x8000_0000 <= info.id < 0x8000_0000
  }

  predicate InfosOk(infos: seq<Info>) {
    forall i :: 0 <= i < |infos| ==> InfoOk(infos[i])
  }

  function AddTable(l: Levels, info: Info): (r: Levels)
    requires |l| == LEVELS && InfoOk(info)
    ensures |r| == LEVELS
  {
    l[info.level := l[info.level] + [LoadId(info.id)]]
  }

  function AddTables(l: Levels, infos: seq<Info>): (r: Levels)
    requires |l| == LEVELS && InfosOk(infos)
    ensures |r| == LEVELS
  {
    if infos == [] then l else AddTable(AddTables(l, infos[..|infos| - 1]), infos[|infos| - 1])
  }

  /** `std::find`. */
  function IndexOf(s: seq<nat>, x: nat): (i: nat)
    ensures i <= |s| && (i < |s| ==> s[i] == x)
    ensures forall j :: 0 <= j < i ==> s[j] != x
  {
    if s == [] || s[0] == x then 0 else 1 + IndexOf(s[1..], x)
  }

  /** The id of a deleted table is looked up as `uint32_t`; erasing at the end is undefined. */
  function DeleteTable(l: Levels, info: Info): (r: Option<Levels>)
    requires |l| == LEVELS && info.level < LEVELS
    ensures r.Some? ==> |r.value| == LEVELS
  {
    var level := l[info.level];
    var at := IndexOf(level, info.id % 0x1_0000_0000);
    if at == |level| then None else Some(l[info.level := level[..at] + level[at + 1..]])
  }

  function DeleteTables(l: Levels, infos: seq<Info>): (r: Option<Levels>)
    requires |l| == LEVELS && InfosOk(infos)
    ensures r.Some? ==> |r.value| == LEVELS
  {
    if infos == [] then Some(l)
    else
      var r := DeleteTables(l, infos[..|infos| - 1]);
      if r.None? then None else DeleteTable(r.value, infos[|infos| - 1])
  }

  /** A deletion is defined exactly when its level has the id, and then takes out one occurrence and nothing else. */
  lemma DeleteTakesOne(l: Levels, info: Info)
    requires |l| == LEVELS && info.level < LEVELS
    ensures var id := info.id % 0x1_0000_0000;
      var r := DeleteTable(l, info);
      && (r.Some? <==> id in l[info.level])
      && (r.Some? ==>
            && multiset(r.value[info.level]) == multiset(l[info.level]) - multiset{id}
            && r.value == l[info.level := r.value[info.level]])
  {
    var id, level := info.id % 0x1_0000_0000, l[info.level];
    var at := IndexOf(level, id);
    hide IndexOf;
    if at < |level| {
      var left, right := level[..at], level[at + 1..];
      assert level == left + [id] + right;
      assert multiset(level) == multiset(left) + multiset{id} + multiset(right);
    }
  }

  predicate Shaped(records: seq<Record>) {
    forall i :: 0 <= i < |records| ==>
      match records[i]
      case Compaction(added, deleted, _) => InfosOk(added) && InfosOk(deleted)
      case Snapshot(tables, _) => |tables| == LEVELS
      case NewMemtable(_) => true
  }

  /** The tables the compaction records leave: each adds, then deletes; none when a deletion is undefined. */
  function Replay(records: seq<Record>): (r: Option<Levels>)
    requires Shaped(records)
    ensures r.Some? ==> |r.value| == LEVELS
  {
    if records == [] then Some(NoTables())
    else
      var l, last := Replay(records[..|records| - 1]), records[|records| - 1];
      if l.Some? && last.Compaction? then DeleteTables(AddTables(l.value, last.added), last.deleted) else l
  }

  predicate RecordsOk(records: seq<Record>) {
    Shaped(records) && Replay(records).Some?
  }

  function Replayed(records: seq<Record>): (r: Levels)
    requires RecordsOk(records)
    ensures |r| == LEVELS
  {
    Replay(records).value
  }

  /** The log with one more record that only deletes `info`. */
  function Deleting(records: seq<Record>, info: Info, nextId: nat): seq<Record> {
    records + [Compaction([], [info], nextId)]
  }

  /** A deletion can be replayed exactly when the records before it leave the id on its level. */
  lemma DeletionDefinedIff(records: seq<Record>, info: Info, nextId: nat)
    requires Shaped(records) && InfoOk(info)
    ensures Shaped(Deleting(records, info, nextId))
    ensures RecordsOk(Deleting(records, info, nextId))
       <==> RecordsOk(records) && info.id % 0x1_0000_0000 in Replayed(records)[info.level]
  {
    var log := Deleting(records, info, nextId);
    assert log[..|records|] == records && log[|records|] == Compaction([], [info], nextId);
    if RecordsOk(records) {
      var l := Replayed(records);
      assert [info][..0] == [];
      assert DeleteTables(l, [info]) == DeleteTable(l, info);
      assert Replay(log) == DeleteTable(l, info);
      DeleteTakesOne(l, info);
    }
  }

  /** A snapshot at the start of a log adds nothing to what its records leave. */
  lemma {:induction false} SnapshotNotReplayed(snapshot: Record, records: seq<Record>)
    requires snapshot.Snapshot? && |snapshot.tables| == LEVELS && Shaped(records)
    ensures Shaped([snapshot] + records) && Replay([snapshot] + records) == Replay(records)
    decreases |records|
  {
    hide AddTables, DeleteTables;
    var log := [snapshot] + records;
    if records == [] {
      assert log[..0] == [];
    } else {
      var init := records[..|records| - 1];
      SnapshotNotReplayed(snapshot, init);
      assert log[..|log| - 1] == [snapshot] + init;
    }
  }

  /** Deletions do not reach the tables of the snapshot: one of which the records leave no entry makes the log unreadable. */
  lemma SnapshotTableCannotBeDeleted(snapshot: Record, records: seq<Record>, info: Info, nextId: nat)
    requires snapshot.Snapshot? && |snapshot.tables| == LEVELS && Shaped(records)
    requires InfoOk(info)
    requires RecordsOk(records) ==> info.id % 0x1_0000_0000 !in Replayed(records)[info.level]
    ensures Shaped([snapshot] + Deleting(records, info, nextId))
    ensures !RecordsOk([snapshot] + Deleting(records, info, nextId))
  {
    DeletionDefinedIff(records, info, nextId);
    SnapshotNotReplayed(snapshot, Deleting(records, info, nextId));
  }

  /** Ids as records leave them: none is between 2^31 and 2^32. */
  ghost predicate Kept(l: Levels) {
    forall i, j :: 0 <= i < |l| && 0 <= j < |l[i]| ==> l[i][j] < 0x8000_0000 || l[i][j] >= 0xFFFF_FFFF_8000_0000
  }

  lemma {:induction false} AddedKept(l: Levels, infos: seq<Info>)
    requires |l| == LEVELS && Kept(l) && InfosOk(infos)
    ensures Kept(AddTables(l, infos))
  {
    if infos != [] {
      AddedKept(l, infos[..|infos| - 1]);
    }
  }

  lemma {:induction false} DeletedKept(l: Levels, infos: seq<Info>)
    requires |l| == LEVELS && Kept(l) && InfosOk(infos)
    ensures DeleteTables(l, infos).Some? ==> Kept(DeleteTables(l, infos).value)
  {
    if infos != [] {
      DeletedKept(l, infos[..|infos| - 1]);
    }
  }

  lemma {:induction false} ReplayKept(records: seq<Record>)
    requires Shaped(records)
    ensures Replay(records).Some? ==> Kept(Replay(records).value)
  {
    hide AddTables, DeleteTables;
    if records != [] {
      var init, last := records[..|records| - 1], records[|records| - 1];
      ReplayKept(init);
      if Replay(init).Some? && last.Compaction? {
        AddedKept(Replay(init).value, last.added);
        DeletedKept(AddTables(Replay(init).value, last.added), last.deleted);
      }
    }
  }

  /** A table whose id does not fit a non-negative `int` cannot be deleted, not even right after the record that added it. */
  lemma HighIdCannotBeDeleted(records: seq<Record>, info: Info, nextId: nat)
    requires Shaped(records) && InfoOk(info) && info.id < 0
    ensures !RecordsOk(Deleting(records, info, nextId))
    ensures var log := Deleting(records + [Compaction([info], [], nextId)], info, nextId);
      Shaped(log) && !RecordsOk(log)
  {
    var added := records + [Compaction([info], [], nextId)];
    NeverLeft(records, info);
    NeverLeft(added, info);
    DeletionDefinedIff(records, info, nextId);
    DeletionDefinedIff(added, info, nextId);
  }

  lemma NeverLeft(records: seq<Record>, info: Info)
    requires Shaped(records) && InfoOk(info) && info.id < 0
    ensures RecordsOk(records) ==> info.id % 0x1_0000_0000 !in Replayed(records)[info.level]
  {
    hide Replay;
    ReplayKept(records);
    assert info.id % 0x1_0000_0000 == info.id + 0x1_0000_0000;
  }

  /** The last snapshot of the log. */
  function LastSnapshot(records: seq<Record>): Option<Record> {
    if records == [] then None
    else if records[|records| - 1].Snapshot? then Some(records[|records| - 1])
    else LastSnapshot(records[..|records| - 1])
  }

  lemma {:induction false} LastSnapshotOk(records: seq<Record>)
    requires Shaped(records)
    ensures LastSnapshot(records).Some? ==>
      LastSnapshot(records).value.Snapshot? && |LastSnapshot(records).value.tables| == LEVELS
  {
    if records != [] {
      LastSnapshotOk(records[..|records| - 1]);
    }
  }

  function Join(a: Levels, b: Levels): (r: Levels)
    requires |a| == LEVELS && |b| == LEVELS
    ensures |r| == LEVELS
  {
    seq(LEVELS, i requires 0 <= i < LEVELS => a[i] + b[i])
  }

  function LastCounter(records: seq<Record>, start: nat): nat {
    if records == [] then start
    else if records[|records| - 1].Compaction? then records[|records| - 1].nextId
    else LastCounter(records[..|records| - 1], start)
  }

  datatype Tables = Tables(levels: Levels, nextId: nat)

  /** The snapshot's tables followed by those of the compaction records, whatever their order in the log. */
  function Meaning(records: seq<Record>): (t: Tables)
    requires RecordsOk(records)
    ensures |t.levels| == LEVELS
  {
    LastSnapshotOk(records);
    var s := LastSnapshot(records);
    var base := if s.Some? then s.value.tables else NoTables();
    Tables(Join(base, Replayed(records)), LastCounter(records, if s.Some? then s.value.nextId else 0))
  }

  /** Recording a build appends what becomes of its id to level 0 and moves the counter. */
  lemma BuildRecorded(records: seq<Record>, id: nat)
    requires RecordsOk(records)
    ensures var r := Compaction([Info(StoreId(id), 0)], [], id + 1);
      var before := Meaning(records);
      && RecordsOk(records + [r])
      && Meaning(records + [r]) == Tables(before.levels[0 := before.levels[0] + [Recorded(id)]], id + 1)
  {
    hide StoreId, LoadId, Replay, Join, LastSnapshot, LastCounter, AddTable, Shaped;
    var r := Compaction([Info(StoreId(id), 0)], [], id + 1);
    LastSnapshotOk(records);
    BuildReplayed(records, id);
    RecordKept(records, r);
    var s := LastSnapshot(records);
    JoinGrows(if s.Some? then s.value.tables else NoTables(), Replayed(records), Recorded(id));
  }

  lemma BuildReplayed(records: seq<Record>, id: nat)
    requires RecordsOk(records)
    ensures var log := records + [Compaction([Info(StoreId(id), 0)], [], id + 1)];
      var l := Replayed(records);
      Shaped(log) && Replay(log) == Some(l[0 := l[0] + [Recorded(id)]])
  {
    hide StoreId, LoadId, IndexOf;
    var info := Info(StoreId(id), 0);
    var log := records + [Compaction([info], [], id + 1)];
    var l := Replayed(records);
    assert log[..|records|] == records && log[|records|] == Compaction([info], [], id + 1);
    assert [info][..0] == [];
    assert AddTables(l, []) == l;
    assert AddTables(l, [info]) == AddTable(l, info);
  }

  /** A compaction record leaves the last snapshot and sets the counter. */
  lemma RecordKept(records: seq<Record>, r: Record)
    requires r.Compaction?
    ensures LastSnapshot(records + [r]) == LastSnapshot(records)
    ensures forall start :: LastCounter(records + [r], start) == r.nextId
  {
    assert (records + [r])[..|records|] == records;
  }

  lemma JoinGrows(a: Levels, b: Levels, x: nat)
    requires |a| == LEVELS && |b| == LEVELS
    ensures Join(a, b[0 := b[0] + [x]]) == Join(a, b)[0 := Join(a, b)[0] + [x]]
  {
    assert a[0] + (b[0] + [x]) == (a[0] + b[0]) + [x];
  }

  /** A memtable record changes nothing. */
  lemma MemtableRecorded(records: seq<Record>, id: nat)
    requires RecordsOk(records)
    ensures RecordsOk(records + [NewMemtable(id)]) && Meaning(records + [NewMemtable(id)]) == Meaning(records)
  {
    assert (records + [NewMemtable(id)])[..|records|] == records;
  }

  /** The first log means no tables. */
  lemma FirstLog()
    ensures RecordsOk([NewMemtable(0)]) && Meaning([NewMemtable(0)]) == Tables(NoTables(), 0)
  {
    MemtableRecorded([], 0);
    assert [] + [NewMemtable(0)] == [NewMemtable(0)];
    assert Join(NoTables(), NoTables()) == NoTables();
  }

  /** A fresh log that starts with a snapshot means that snapshot. */
  lemma SnapshotLog(t: Tables, memtableId: nat)
    requires |t.levels| == LEVELS
    ensures var log := [Snapshot(t.levels, t.nextId), NewMemtable(memtableId)];
      RecordsOk(log) && Meaning(log) == t
  {
    var snap, mem := Snapshot(t.levels, t.nextId), NewMemtable(memtableId);
    var log := [snap, mem];
    assert log[..1] == [snap] && [snap][..0] == [];
    assert Replayed([]) == NoTables() && LastCounter([], t.nextId) == t.nextId;
    assert Replayed([snap]) == NoTables() && LastCounter([snap], t.nextId) == t.nextId;
    assert LastSnapshot([snap]) == Some(snap);
    assert LastSnapshot(log) == Some(snap);
    assert forall i :: 0 <= i < LEVELS ==> Join(t.levels, NoTables())[i] == t.levels[i];
  }

  /** How many tables and deletions wait in records for the next snapshot. */
  function Pending(records: seq<Record>): nat {
    if records == [] then 0
    else Pending(records[..|records| - 1]) + if records[|records| - 1].Compaction? then 1 else 0
  }

  lemma PendingSnoc(records: seq<Record>, r: Record)
    ensures Pending(records + [r]) == Pending(records) + if r.Compaction? then 1 else 0
  {
    assert (records + [r])[..|records|] == records;
  }

  // ----- the files -----

  /** The directory: the number in CURRENT, and the manifest files by number. It outlives the store. */
  class Disk {
    var current: Option<nat>
    var files: map<nat, seq<Record>>
    ghost var issued: set<nat>  // every table id handed out so far

    constructor ()
      ensures current == None && files == map[] && issued == {} && Valid()
    {
      current, files, issued := None, map[], {};
    }

    ghost predicate Valid()
      reads this
    {
      && (current.Some? ==> current.value in files && RecordsOk(files[current.value]))
      && (forall id :: id in issued ==> id < Logged().nextId)
    }

    /** What recovery would rebuild. */
    ghost function Logged(): (t: Tables)
      reads this
      requires current.Some? ==> current.value in files && RecordsOk(files[current.value])
      ensures |t.levels| == LEVELS
    {
      if current == None then Tables(NoTables(), 0) else Meaning(files[current.value])
    }

    ghost function Waiting(): nat
      reads this
    {
      if current.Some? && current.value in files then Pending(files[current.value]) else 0
    }
  }

  class Store {
    const disk: Disk
    var levels: seq<seq<Table>>
    var sstableId: nat
    var memtableId: nat
    var mfSeq: nat

    /** The store writes to the current manifest and counts as it does. */
    ghost predicate Valid()
      reads this, disk
    {
      && disk.Valid() && disk.current == Some(mfSeq)
      && |levels| == LEVELS && disk.Logged().nextId == sstableId
    }

    /** Opening the store again would open the same files. */
    ghost predicate Reopens()
      reads this, disk
      requires Valid()
    {
      OpenAll(disk.Logged().levels) == levels
    }

    /** `open` of the manifest: an empty directory gets a first file with one memtable record. */
    static method OpenManifest(disk: Disk) returns (mfSeq: nat)
      requires disk.Valid()
      modifies disk
      ensures disk.Valid() && disk.current == Some(mfSeq)
      ensures disk.Logged() == old(disk.Logged()) && disk.issued == old(disk.issued)
      ensures disk.Waiting() == old(disk.Waiting())
    {
      hide Meaning, RecordsOk;
      if disk.current.Some? {
        return disk.current.value;
      }
      FirstLog();
      mfSeq := 0;
      disk.current := Some(0);
      disk.files := disk.files[0 := [NewMemtable(0)]];
      PendingSnoc([], NewMemtable(0));
      assert [] + [NewMemtable(0)] == [NewMemtable(0)];
      assert disk.Logged() == old(disk.Logged());
    }

    /** `recover` of the manifest: the last snapshot and all compaction records, in order. */
    static method ReadLog(records: seq<Record>) returns (snapshot: Option<Record>, compactions: seq<Record>)
      requires Shaped(records)
      ensures snapshot == LastSnapshot(records)
      ensures Shaped(compactions) && forall i :: 0 <= i < |compactions| ==> compactions[i].Compaction?
      ensures Replay(compactions) == Replay(records)
      ensures forall start :: LastCounter(compactions, start) == LastCounter(records, start)
      ensures |compactions| == Pending(records)
    {
      hide AddTables, DeleteTables;
      snapshot, compactions := None, [];
      for i := 0 to |records|
        invariant snapshot == LastSnapshot(records[..i])
        invariant Shaped(compactions) && forall k :: 0 <= k < |compactions| ==> compactions[k].Compaction?
        invariant Replay(compactions) == Replay(records[..i]) && |compactions| == Pending(records[..i])
        invariant forall start :: LastCounter(compactions, start) == LastCounter(records[..i], start)
      {
        assert records[..i + 1][..i] == records[..i];
        if records[i].Compaction? {
          assert (compactions + [records[i]])[..|compactions|] == compactions;
          compactions := compactions + [records[i]];
        } else if records[i].Snapshot? {
          snapshot := Some(records[i]);
        }
      }
      assert records[..|records|] == records;
    }

    /** One record of `recover_from_manifest_records`: its tables are added, then its deleted ones erased. */
    static method ApplyRecord(before: Levels, r: Record) returns (tables: Option<Levels>)
      requires |before| == LEVELS && r.Compaction? && InfosOk(r.added) && InfosOk(r.deleted)
      ensures tables == DeleteTables(AddTables(before, r.added), r.deleted)
    {
      hide IndexOf, LoadId;
      var l := before;
      for j := 0 to |r.added|
        invariant l == AddTables(before, r.added[..j])
      {
        assert r.added[..j + 1][..j] == r.added[..j];
        l := AddTable(l, r.added[j]);
      }
      assert r.added[..|r.added|] == r.added;
      ghost var full := l;
      for j := 0 to |r.deleted|
        invariant |l| == LEVELS && DeleteTables(full, r.deleted[..j]) == Some(l)
      {
        assert r.deleted[..j + 1][..j] == r.deleted[..j];
        var next := DeleteTable(l, r.deleted[j]);
        if next.None? {
          UndefinedStays(full, r.deleted, j + 1);
          return None;
        }
        l := next.value;
      }
      assert r.deleted[..|r.deleted|] == r.deleted;
      tables := Some(l);
    }

    /** `recover_from_manifest_records`: the tables the records leave, and the last counter. */
    static method ReplayRecords(records: seq<Record>, start: nat) returns (tables: Option<Levels>, nextId: nat)
      requires Shaped(records) && forall i :: 0 <= i < |records| ==> records[i].Compaction?
      ensures tables == Replay(records)
      ensures tables.Some? ==> nextId == LastCounter(records, start)
    {
      hide AddTables, DeleteTables;
      tables, nextId := Some(NoTables()), start;
      for i := 0 to |records|
        invariant tables.Some? && tables == Replay(records[..i]) && nextId == LastCounter(records[..i], start)
      {
        assert records[..i + 1][..i] == records[..i];
        nextId := records[i].nextId;
        tables := ApplyRecord(tables.value, records[i]);
        if tables.None? {
          UndefinedReplay(records, i + 1);
          return;
        }
      }
      assert records[..|records|] == records;
    }

    /** `load_manifest_sstable`: each level of memory is extended by the tables opened for the loaded ids. */
    static method LoadTables(levels: seq<seq<Table>>, loaded: Levels) returns (r: seq<seq<Table>>)
      requires |levels| == LEVELS && |loaded| == LEVELS
      ensures |r| == LEVELS && forall k :: 0 <= k < LEVELS ==> r[k] == levels[k] + OpenLevel(loaded[k])
    {
      hide OpenTable;
      r := levels;
      for i := 0 to LEVELS
        invariant |r| == LEVELS
        invariant forall k :: 0 <= k < LEVELS ==> r[k] == if k < i then levels[k] + OpenLevel(loaded[k]) else levels[k]
      {
        for j := 0 to |loaded[i]|
          invariant |r| == LEVELS && r[i] == levels[i] + OpenLevel(loaded[i])[..j]
          invariant forall k :: 0 <= k < LEVELS && k != i ==>
            r[k] == if k < i then levels[k] + OpenLevel(loaded[k]) else levels[k]
        {
          r := r[i := r[i] + [OpenTable(loaded[i][j])]];
        }
      }
    }

    /** Opening a store opens exactly the tables the log means and takes over its counter. When there are records
        to replay, a new manifest then lists the tables by `sst_id()`. */
    constructor (disk: Disk)
      requires disk.Valid()
      modifies disk
      ensures Valid() && this.disk == disk
      ensures levels == OpenAll(old(disk.Logged().levels)) && sstableId == old(disk.Logged().nextId)
      ensures disk.Waiting() == 0 && disk.issued == old(disk.issued)
      ensures disk.Logged().levels == if old(disk.Waiting()) == 0 then old(disk.Logged().levels) else SstIds(levels)
    {
      hide Replay, LastCounter, OpenLevel, OpenTable, SstLevel, Pending;
      this.disk := disk;
      var seqNo := OpenManifest(disk);
      var records := disk.files[seqNo];
      var snapshot, compactions := ReadLog(records);
      LastSnapshotOk(records);
      var none: seq<seq<Table>> := seq(LEVELS, _ => []);
      var tables, counter := none, 0;
      ghost var base := if snapshot.Some? then snapshot.value.tables else NoTables();
      if snapshot.Some? {
        counter := snapshot.value.nextId;
        tables := LoadTables(tables, snapshot.value.tables);
      }
      var replayed, nextId := ReplayRecords(compactions, counter);
      ghost var loaded := tables;
      tables := LoadTables(tables, replayed.value);
      OpenedJoin(base, replayed.value, loaded, tables);
      levels, sstableId, memtableId, mfSeq := tables, nextId, 0, seqNo;
      new;
      assert disk.Logged().nextId == sstableId && OpenAll(disk.Logged().levels) == levels;
      if compactions != [] {
        WriteSnapshot();
      }
    }

    /** `write_manifest_snapshot` and `redirect`: a new file with a snapshot, then CURRENT, then the old file goes.
        The snapshot lists the tables by `sst_id()`. */
    method WriteSnapshot()
      requires Valid()
      modifies this`mfSeq, disk
      ensures Valid() && levels == old(levels) && sstableId == old(sstableId)
      ensures disk.Logged().levels == SstIds(levels) && disk.Waiting() == 0
      ensures disk.issued == old(disk.issued) && mfSeq == old(mfSeq) + 1 && old(mfSeq) !in disk.files
    {
      hide Replay, LastCounter, Meaning, RecordsOk, SstIds, Pending;
      var previous := mfSeq;
      mfSeq := mfSeq + 1;
      SnapshotLog(Tables(SstIds(levels), sstableId), memtableId);
      disk.files := disk.files[mfSeq := [Snapshot(SstIds(levels), sstableId), NewMemtable(memtableId)]];
      disk.current := Some(mfSeq);
      disk.files := disk.files - {previous};
      assert disk.Logged() == Tables(SstIds(levels), sstableId);
      NothingPending(Snapshot(SstIds(levels), sstableId), NewMemtable(memtableId));
    }

    method Push(r: Record)
      requires disk.current == Some(mfSeq) && mfSeq in disk.files
      modifies disk`files
      ensures disk.files == old(disk.files)[mfSeq := old(disk.files)[mfSeq] + [r]]
    {
      disk.files := disk.files[mfSeq := disk.files[mfSeq] + [r]];
    }

    /** The LEVELED branch of `build_sstable`, and the memtable record that follows it: memory gets the table, the log
        what becomes of its id in a record. */
    method BuildTable() returns (id: nat)
      requires Valid()
      modifies this`levels, this`sstableId, this`memtableId, disk
      ensures Valid()
      ensures id == old(sstableId) && id !in old(disk.issued) && disk.issued == old(disk.issued) + {id}
      ensures levels == old(levels)[0 := old(levels)[0] + [OpenTable(id)]] && sstableId == id + 1
      ensures disk.Logged().levels == old(disk.Logged().levels)[0 := old(disk.Logged().levels)[0] + [Recorded(id)]]
      ensures disk.Waiting() == old(disk.Waiting()) + 1
      ensures old(Reopens()) ==> (Reopens() <==> Recorded(id) == id)
    {
      hide Replay, LastCounter, Meaning, RecordsOk, StoreId, Recorded, Pending, OpenAll;
      id := sstableId;
      sstableId := sstableId + 1;
      levels := levels[0 := levels[0] + [OpenTable(id)]];
      ghost var records := disk.files[mfSeq];
      ghost var logged := disk.Logged().levels;
      BuildRecorded(records, id);
      PendingSnoc(records, Compaction([Info(StoreId(id), 0)], [], sstableId));
      Push(Compaction([Info(StoreId(id), 0)], [], sstableId));
      memtableId := memtableId + 1;
      MemtableRecorded(disk.files[mfSeq], memtableId);
      PendingSnoc(disk.files[mfSeq], NewMemtable(memtableId));
      Push(NewMemtable(memtableId));
      disk.issued := disk.issued + {id};
      SameEnd(logged, id, Recorded(id));
    }
  }

  lemma NothingPending(a: Record, b: Record)
    requires !a.Compaction? && !b.Compaction?
    ensures Pending([a, b]) == 0
  {
    assert [a, b][..1] == [a] && [a][..0] == [];
    assert Pending([a]) == 0;
  }

  /** Loading two lists one after the other opens their join. */
  lemma OpenedJoin(a: Levels, b: Levels, first: seq<seq<Table>>, both: seq<seq<Table>>)
    requires |a| == |b| == |first| == |both| == LEVELS
    requires forall k :: 0 <= k < LEVELS ==> first[k] == OpenLevel(a[k]) && both[k] == first[k] + OpenLevel(b[k])
    ensures both == OpenAll(Join(a, b))
  {
    hide OpenTable;
    forall k | 0 <= k < LEVELS ensures both[k] == OpenLevel(a[k] + b[k]) {
      assert OpenLevel(a[k] + b[k]) == OpenLevel(a[k]) + OpenLevel(b[k]);
    }
  }

  /** Opening the table of `y` after those of `l` gives that of `x` exactly when the two are the same. */
  lemma SameEnd(l: Levels, x: nat, y: nat)
    requires |l| == LEVELS
    ensures var open := OpenAll(l);
      OpenAll(l[0 := l[0] + [y]]) == open[0 := open[0] + [OpenTable(x)]] <==> y == x
  {
    var open := OpenAll(l);
    var a, b := OpenAll(l[0 := l[0] + [y]]), open[0 := open[0] + [OpenTable(x)]];
    assert a[0] == OpenLevel(l[0] + [y]) && OpenLevel(l[0] + [y])[|l[0]|] == OpenTable(y) && b[0][|l[0]|] == OpenTable(x);
    assert OpenLevel(l[0] + [y]) == open[0] + [OpenTable(y)];
    assert forall i :: 0 < i < LEVELS ==> a[i] == b[i];
    if y == x {
      assert a == b;
    }
  }

  lemma {:induction false} UndefinedStays(l: Levels, infos: seq<Info>, n: nat)
    requires |l| == LEVELS && InfosOk(infos) && n <= |infos| && DeleteTables(l, infos[..n]).None?
    ensures DeleteTables(l, infos).None?
    decreases |infos| - n
  {
    if n < |infos| {
      assert infos[..n + 1][..n] == infos[..n];
      UndefinedStays(l, infos, n + 1);
    } else {
      assert infos[..n] == infos;
    }
  }

  lemma {:induction false} UndefinedReplay(records: seq<Record>, n: nat)
    requires Shaped(records) && n <= |records| && Replay(records[..n]).None?
    ensures Replay(records).None?
    decreases |records| - n
  {
    if n < |records| {
      assert records[..n + 1][..n] == records[..n];
      UndefinedReplay(records, n + 1);
    } else {
      assert records[..n] == records;
    }
  }

  // ----- runs -----

  datatype Op = Build | Restart

  function Builds(ops: seq<Op>): nat {
    if ops == [] then 0 else Builds(ops[..|ops| - 1]) + if ops[|ops| - 1] == Build then 1 else 0
  }

  /** How many of the builds were before the last restart, and before the last but one. */
  function Reloaded(ops: seq<Op>): (n: nat)
    ensures n <= Builds(ops)
  {
    if ops == [] then 0
    else if ops[|ops| - 1] == Restart then Builds(ops)
    else Reloaded(ops[..|ops| - 1])
  }

  function ReloadedTwice(ops: seq<Op>): (n: nat)
    ensures n <= Reloaded(ops)
  {
    if ops == [] then 0
    else if ops[|ops| - 1] == Restart then Reloaded(ops[..|ops| - 1])
    else ReloadedTwice(ops[..|ops| - 1])
  }

  /** The file id of the table built as number `i`: its own, once reloaded what a record kept, later what a snapshot kept. */
  function FileId(i: nat, once: nat, twice: nat): nat {
    if i < twice then i % 0x1_0000_0000 else if i < once then Recorded(i) else i
  }

  /** The file ids of `n` tables, of which the first `once` were reloaded, and the first `twice` more than once. */
  function FileIds(n: nat, once: nat, twice: nat): (s: seq<nat>)
    ensures |s| == n && forall i :: 0 <= i < n ==> s[i] == FileId(i, once, twice)
  {
    seq(n, i requires 0 <= i < n => FileId(i, once, twice))
  }

  lemma FileIdsGrow(n: nat, once: nat, twice: nat)
    requires twice <= once <= n
    ensures FileIds(n, once, twice) + [n] == FileIds(n + 1, once, twice)
    ensures FileIds(n, n, once) + [Recorded(n)] == FileIds(n + 1, n + 1, once)
    ensures OpenLevel(FileIds(n + 1, once, twice)) == OpenLevel(FileIds(n, once, twice)) + [OpenTable(n)]
    ensures FileIds(n, n, n) == SstLevel(OpenLevel(FileIds(n, n, once)))
  {
    hide Recorded, OpenTable;
    assert FileIds(n, n, n) == SstLevel(OpenLevel(FileIds(n, n, once))) by {
      forall i | 0 <= i < n ensures OpenTable(FileId(i, n, once)).sstId == i % 0x1_0000_0000 {
        SstIdAlways(i, n, once);
      }
    }
  }

  /** Whatever happened to a table, its `sst_id()` is its number cut to 32 bits. */
  lemma SstIdAlways(i: nat, once: nat, twice: nat)
    ensures OpenTable(FileId(i, once, twice)).sstId == i % 0x1_0000_0000
  {
    hide Recorded;
    RecordedLowBits(i);
  }

  /** The `sst_id()` of the table built as number `i`. */
  function SstId(i: nat, once: nat, twice: nat): nat {
    OpenTable(FileId(i, once, twice)).sstId
  }

  /** The `sst_id()`s are the build numbers, and no two of them are equal, exactly up to 2^32 tables. */
  lemma SstIdsRightIff(n: nat, once: nat, twice: nat)
    ensures (forall i: nat :: i < n ==> SstId(i, once, twice) == i) <==> n <= 0x1_0000_0000
    ensures (forall i: nat, j: nat :: i < j < n ==> SstId(i, once, twice) != SstId(j, once, twice)) <==> n <= 0x1_0000_0000
  {
    hide OpenTable, FileId;
    forall i: nat ensures SstId(i, once, twice) == i % 0x1_0000_0000 {
      SstIdAlways(i, once, twice);
    }
    hide SstId;
    if n > 0x1_0000_0000 {
      assert SstId(0x1_0000_0000, once, twice) == 0 == SstId(0, once, twice);
    }
  }

  /** A table is looked for in its own file exactly when it was never reloaded, its id survives a record and it was
      reloaded once, or its id survives a snapshot and it was reloaded more often. */
  lemma FileRightIff(i: nat, once: nat, twice: nat)
    requires twice <= once && i < 0x1_0000_0000_0000_0000
    ensures FileId(i, once, twice) == i <==>
      if i >= once then true
      else if i >= twice then i < 0x8000_0000 || i >= 0xFFFF_FFFF_8000_0000
      else i < 0x1_0000_0000
  {
    IdRoundTrip(i);
  }

  /** All tables are, exactly when none beyond 2^32 was reloaded twice and none from 2^31 on just once. */
  lemma FilesRightIff(n: nat, once: nat, twice: nat)
    requires twice <= once <= n <= 0xFFFF_FFFF_8000_0000
    ensures (forall i :: 0 <= i < n ==> FileIds(n, once, twice)[i] == i)
       <==> twice <= 0x1_0000_0000 && (once <= 0x8000_0000 || once == twice)
  {
    hide FileId, Recorded;
    forall i: nat | i < n
      ensures FileIds(n, once, twice)[i] == i <==>
        if i >= once then true else if i >= twice then i < 0x8000_0000 else i < 0x1_0000_0000
    {
      FileRightIff(i, once, twice);
    }
    if twice > 0x1_0000_0000 {
      assert FileIds(n, once, twice)[0x1_0000_0000] != 0x1_0000_0000;
    } else if once > 0x8000_0000 && once != twice {
      assert FileIds(n, once, twice)[once - 1] != once - 1;
    }
  }

  ghost function Below(n: nat): (s: set<nat>)
    ensures forall i :: i in s <==> 0 <= i < n
  {
    if n == 0 then {} else Below(n - 1) + {n - 1}
  }

  /** A store whose tables are all on level 0. */
  function OneLevel<T>(tables: seq<T>): (r: seq<seq<T>>)
    ensures |r| == LEVELS && r[0] == tables
  {
    seq(LEVELS, i => if i == 0 then tables else [])
  }

  lemma OneLevelGrows<T>(tables: seq<T>, t: T)
    ensures OneLevel(tables)[0 := OneLevel(tables)[0] + [t]] == OneLevel(tables + [t])
  {
  }

  lemma OneLevelOpened(ids: seq<nat>)
    ensures OpenAll(OneLevel(ids)) == OneLevel(OpenLevel(ids))
    ensures SstIds(OneLevel(OpenLevel(ids))) == OneLevel(SstLevel(OpenLevel(ids)))
    ensures OneLevel<nat>([]) == NoTables()
  {
    hide OpenTable;
  }

  /** The store after `n` builds, `once` of them before the last restart and `twice` before the last but one. */
  ghost predicate Describes(store: Store, n: nat, once: nat, twice: nat)
    reads store, store.disk
  {
    && twice <= once <= n && store.Valid()
    && store.sstableId == n && store.disk.issued == Below(n)
    && (store.disk.Waiting() == 0 ==> once == n)
    && store.levels == OneLevel(OpenLevel(FileIds(n, once, twice)))
    && store.disk.Logged().levels == OneLevel(FileIds(n, n, once))
  }

  method BuildStep(store: Store, ghost n: nat, ghost once: nat, ghost twice: nat)
    requires Describes(store, n, once, twice)
    modifies store, store.disk
    ensures Describes(store, n + 1, once, twice)
  {
    hide Meaning, RecordsOk, Recorded, FileIds, OneLevel, OpenLevel, OpenTable;
    var id := store.BuildTable();
    FileIdsGrow(n, once, twice);
    OneLevelGrows(OpenLevel(FileIds(n, once, twice)), OpenTable(n));
    OneLevelGrows(FileIds(n, n, once), Recorded(n));
  }

  method RestartStep(store: Store, ghost n: nat, ghost once: nat, ghost twice: nat) returns (reopened: Store)
    requires Describes(store, n, once, twice)
    modifies store.disk
    ensures fresh(reopened) && reopened.disk == store.disk && Describes(reopened, n, n, once)
  {
    hide Meaning, RecordsOk, FileIds, OneLevel, OpenLevel, SstLevel, OpenAll, SstIds;
    FileIdsGrow(n, once, twice);
    OneLevelOpened(FileIds(n, n, once));
    reopened := new Store(store.disk);
  }

  /** After any run of builds and restarts: the counter is the number of builds, every id below it was issued once, and
      level 0 lists the tables in build order, in memory and in the log with the file ids that their reloads left them. */
  method RunStore(disk: Disk, ops: seq<Op>) returns (store: Store)
    requires disk.current == None && disk.issued == {} && disk.Valid()
    modifies disk
    ensures store.Valid() && store.disk == disk
    ensures store.sstableId == Builds(ops) && disk.issued == Below(Builds(ops))
    ensures store.levels == OneLevel(OpenLevel(FileIds(Builds(ops), Reloaded(ops), ReloadedTwice(ops))))
    ensures disk.Logged().levels == OneLevel(FileIds(Builds(ops), Builds(ops), Reloaded(ops)))
  {
    hide OneLevel, OpenLevel, FileIds, Builds, Reloaded, ReloadedTwice;
    store := RunOps(disk, ops);
  }

  method RunOps(disk: Disk, ops: seq<Op>) returns (store: Store)
    requires disk.current == None && disk.issued == {} && disk.Valid()
    modifies disk
    ensures fresh(store) && store.disk == disk && Describes(store, Builds(ops), Reloaded(ops), ReloadedTwice(ops))
  {
    hide Describes, Disk.Valid, Builds, Reloaded, ReloadedTwice;
    store := OpenEmpty(disk);
    NothingCounted();
    for i := 0 to |ops|
      invariant store.disk == disk && fresh(store)
      invariant Describes(store, Builds(ops[..i]), Reloaded(ops[..i]), ReloadedTwice(ops[..i]))
    {
      CountOp(ops[..i], ops[i]);
      assert ops[..i + 1] == ops[..i] + [ops[i]];
      ghost var n, once, twice := Builds(ops[..i]), Reloaded(ops[..i]), ReloadedTwice(ops[..i]);
      if ops[i] == Build {
        BuildStep(store, n, once, twice);
      } else {
        store := RestartStep(store, n, once, twice);
      }
    }
    assert ops[..|ops|] == ops;
  }

  lemma NothingCounted()
    ensures Builds([]) == 0 && Reloaded([]) == 0 && ReloadedTwice([]) == 0
  {
  }

  lemma CountOp(ops: seq<Op>, op: Op)
    ensures Builds(ops + [op]) == Builds(ops) + if op == Build then 1 else 0
    ensures Reloaded(ops + [op]) == if op == Build then Reloaded(ops) else Builds(ops)
    ensures ReloadedTwice(ops + [op]) == if op == Build then ReloadedTwice(ops) else Reloaded(ops)
  {
    assert (ops + [op])[..|ops|] == ops;
  }

  method OpenEmpty(disk: Disk) returns (store: Store)
    requires disk.current == None && disk.issued == {} && disk.Valid()
    modifies disk
    ensures fresh(store) && store.disk == disk && Describes(store, 0, 0, 0)
  {
    hide Meaning, RecordsOk, NoTables, OneLevel, OpenAll;
    OneLevelOpened([]);
    store := new Store(disk);
    assert FileIds(0, 0, 0) == [] && OpenLevel([]) == [];
  }

  // ----- runs that go wrong -----

  /** `n` builds. */
  function JustBuilds(n: nat): seq<Op> {
    seq(n, _ => Build)
  }

  lemma {:induction false} JustBuildsCount(n: nat)
    ensures Builds(JustBuilds(n)) == n && Reloaded(JustBuilds(n)) == 0 && ReloadedTwice(JustBuilds(n)) == 0
  {
    if n > 0 {
      JustBuildsCount(n - 1);
      assert JustBuilds(n)[..n - 1] == JustBuilds(n - 1);
    }
  }

  /** After 2^31 + 1 builds, one restart looks for the last table in the wrong file, and a second one finds it again. */
  lemma WrongFileOnce()
    ensures var once := JustBuilds(0x8000_0001) + [Restart];
      && Builds(once) == 0x8000_0001
      && FileId(0x8000_0000, Reloaded(once), ReloadedTwice(once)) == 0xFFFF_FFFF_8000_0000
      && var twice := once + [Restart];
         FileId(0x8000_0000, Reloaded(twice), ReloadedTwice(twice)) == 0x8000_0000
  {
    hide JustBuilds;
    JustBuildsCount(0x8000_0001);
    CountOp(JustBuilds(0x8000_0001), Restart);
    CountOp(JustBuilds(0x8000_0001) + [Restart], Restart);
  }

  /** After 2^32 + 1 builds and no restart, the first and the last table have the same `sst_id()`. */
  lemma SstIdTwice()
    ensures var ops := JustBuilds(0x1_0000_0001);
      && Builds(ops) == 0x1_0000_0001
      && OpenTable(FileId(0x1_0000_0000, Reloaded(ops), ReloadedTwice(ops))) == Table(0x1_0000_0000, 0)
      && OpenTable(FileId(0, Reloaded(ops), ReloadedTwice(ops))) == Table(0, 0)
  {
    hide JustBuilds;
    JustBuildsCount(0x1_0000_0001);
  }
}
