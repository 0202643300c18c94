/** The byte quota of the log directory (`server/logging_config.py`): which files belong to the
    active log's family, and which archives are evicted when the family outgrows the quota. */
module LogQuota {
  import opened PyText
  import opened Sorting

  /** A directory entry with the answers the file system gives about it: `size` and `mtime` are
      `None` when that `stat` call fails, `stuck` says that `unlink` fails. */
  datatype Entry = Entry(name: string, regular: bool, size: Option<nat>, mtime: Option<int>, stuck: bool)

  datatype Outcome = Evicted(deleted: nat) | StatFailed

  ghost predicate DistinctNames(entries: seq<Entry>) {
    forall i, j :: 0 <= i < j < |entries| ==> entries[i].name != entries[j].name
  }

  /** The active log itself and every name that continues it after a dot. */
  predicate InFamily(name: string, active: string) {
    name == active || active + "." <= name
  }

  /** A name that goes on without a dot belongs to another log. */
  lemma FamilyExactly(name: string, active: string)
    ensures InFamily(name, active) <==> name == active || exists rest :: name == active + "." + rest
    ensures forall rest :: name == active + rest && rest != "" && rest[0] != '.' ==> !InFamily(name, active)
  {
    if active + "." <= name {
      assert name == active + "." + name[|active| + 1..];
      assert name[|active|] == '.';
    }
  }

  predicate IsLogFile(e: Entry, active: string) {
    e.regular && InFamily(e.name, active)
  }

  predicate IsMeasured(e: Entry, active: string) {
    IsLogFile(e, active) && e.size.Some?
  }

  predicate IsArchive(e: Entry, active: string) {
    IsMeasured(e, active) && e.name != active
  }

  /** An archive is a regular file of the family with a readable size, other than the active log. */
  lemma ArchiveExactly(e: Entry, active: string)
    ensures IsArchive(e, active) <==> e.regular && e.size.Some? && exists rest :: e.name == active + "." + rest
    ensures IsMeasured(e, active) <==>
      e.regular && e.size.Some? && (e.name == active || exists rest :: e.name == active + "." + rest)
  {
    FamilyExactly(e.name, active);
  }

  function Where(entries: seq<Entry>, keep: Entry -> bool): (r: seq<Entry>)
    ensures forall e :: e in r <==> e in entries && keep(e)
  {
    if entries == [] then []
    else if keep(entries[0]) then [entries[0]] + Where(entries[1..], keep)
    else Where(entries[1..], keep)
  }

  /** Selecting goes file by file, in order. */
  lemma {:induction false} WhereAppend(a: seq<Entry>, b: seq<Entry>, keep: Entry -> bool)
    ensures Where(a + b, keep) == Where(a, keep) + Where(b, keep)
  {
    if a == [] {
      assert a + b == b;
    } else {
      assert (a + b)[1..] == a[1..] + b;
      WhereAppend(a[1..], b, keep);
    }
  }

  /** The files of the family, one by one, in directory order. */
  lemma LogFilesExactly(entries: seq<Entry>, e: Entry, active: string)
    ensures LogFiles([], active) == []
    ensures LogFiles(entries + [e], active) == LogFiles(entries, active)
      + if e.regular && (e.name == active || exists rest :: e.name == active + "." + rest) then [e] else []
  {
    var keep := IsLogFileFor(active);
    WhereAppend(entries, [e], keep);
    assert [e][1..] == [];
    FamilyExactly(e.name, active);
  }

  function IsLogFileFor(active: string): Entry -> bool {
    e => IsLogFile(e, active)
  }

  function IsMeasuredFor(active: string): Entry -> bool {
    e => IsMeasured(e, active)
  }

  function NamedOther(active: string): Entry -> bool {
    (e: Entry) => e.name != active
  }

  function LogFiles(entries: seq<Entry>, active: string): seq<Entry> {
    Where(entries, IsLogFileFor(active))
  }

  function Measured(entries: seq<Entry>, active: string): seq<Entry> {
    Where(entries, IsMeasuredFor(active))
  }

  function NotActive(files: seq<Entry>, active: string): seq<Entry> {
    Where(files, NamedOther(active))
  }

  function Archives(entries: seq<Entry>, active: string): seq<Entry> {
    NotActive(Measured(entries, active), active)
  }

  function SizeOf(e: Entry): nat {
    if e.size.Some? then e.size.value else 0
  }

  function Bytes(files: seq<Entry>): nat {
    if files == [] then 0 else SizeOf(files[0]) + Bytes(files[1..])
  }

  function Spare(gone: seq<Entry>): Entry -> bool {
    e => e !in gone
  }

  /** What is left of a directory once `gone` has been unlinked. */
  function Without(entries: seq<Entry>, gone: seq<Entry>): seq<Entry> {
    Where(entries, Spare(gone))
  }

  function Age(e: Entry): int {
    if e.mtime.Some? then e.mtime.value else 0
  }

  /** Some `stat` call of the sort key fails, which ends the sort before anything is deleted. */
  predicate AgeUnreadable(files: seq<Entry>) {
    exists k :: 0 <= k < |files| && files[k].mtime.None?
  }

  lemma UnreadableExactly(entries: seq<Entry>, active: string)
    ensures AgeUnreadable(Archives(entries, active)) <==> exists e :: e in entries && IsArchive(e, active) && e.mtime.None?
  {
    var archives := Archives(entries, active);
    if e :| e in entries && IsArchive(e, active) && e.mtime.None? {
      assert e in archives;
      var k :| 0 <= k < |archives| && archives[k] == e;
    }
    if AgeUnreadable(archives) {
      var k :| 0 <= k < |archives| && archives[k].mtime.None?;
      assert archives[k] in archives;
    }
  }

  /** The order of `key=mtime`. */
  predicate Older(a: Entry, b: Entry) { Age(a) <= Age(b) }

  lemma OlderIsOrder()
    ensures TotalOrder(Older)
  {
  }

  predicate OldestFirst(files: seq<Entry>) { Sorted(Older, files) }

  function ByAge(files: seq<Entry>): seq<Entry> { Sort(Older, files) }

  /** The files deleted from `queue` when `total` bytes are measured, in the order of deletion. */
  function Victims(queue: seq<Entry>, total: int, maxBytes: int): seq<Entry> {
    if queue == [] || total <= maxBytes then []
    else if queue[0].stuck then Victims(queue[1..], total, maxBytes)
    else [queue[0]] + Victims(queue[1..], total - SizeOf(queue[0]), maxBytes)
  }

  function EvictedFrom(entries: seq<Entry>, active: string, maxBytes: int): seq<Entry> {
    Victims(ByAge(Archives(entries, active)), Bytes(Measured(entries, active)), maxBytes)
  }

  // ---------------------------------------------------------------------------------------
  // Selecting and deleting

  lemma {:induction false} MeasuredOfFamily(entries: seq<Entry>, active: string)
    ensures Measured(LogFiles(entries, active), active) == Measured(entries, active)
  {
    if entries != [] {
      MeasuredOfFamily(entries[1..], active);
      var rest := LogFiles(entries[1..], active);
      assert ([entries[0]] + rest)[1..] == rest;
    }
  }

  lemma {:induction false} WithoutNothing(entries: seq<Entry>)
    ensures Without(entries, []) == entries
  {
    if entries != [] {
      WithoutNothing(entries[1..]);
      assert entries == [entries[0]] + entries[1..];
    }
  }

  lemma {:induction false} WithoutOneMore(entries: seq<Entry>, gone: seq<Entry>, e: Entry)
    ensures Without(Without(entries, gone), [e]) == Without(entries, gone + [e])
  {
    if entries != [] {
      WithoutOneMore(entries[1..], gone, e);
      var rest := Without(entries[1..], gone);
      assert ([entries[0]] + rest)[1..] == rest;
    }
  }

  lemma {:induction false} BytesAppend(a: seq<Entry>, b: seq<Entry>)
    ensures Bytes(a + b) == Bytes(a) + Bytes(b)
  {
    if a == [] {
      assert a + b == b;
    } else {
      BytesAppend(a[1..], b);
      assert (a + b)[1..] == a[1..] + b;
    }
  }

  lemma {:induction false} WhereKeepsNames(entries: seq<Entry>, keep: Entry -> bool)
    requires DistinctNames(entries)
    ensures DistinctNames(Where(entries, keep))
    ensures entries == [] ==> Where(entries, keep) == []
  {
    if entries != [] {
      var rest := entries[1..];
      WhereKeepsNames(rest, keep);
      var r := Where(rest, keep);
      forall j | 0 <= j < |r| ensures r[j].name != entries[0].name {
        assert r[j] in rest;
        var k :| 0 <= k < |rest| && rest[k] == r[j];
        assert entries[k + 1] == rest[k];
      }
    }
  }

  lemma WithoutKeepsNames(entries: seq<Entry>, gone: seq<Entry>)
    requires DistinctNames(entries)
    ensures DistinctNames(Without(entries, gone))
    ensures entries == [] ==> Without(entries, gone) == []
  {
    WhereKeepsNames(entries, Spare(gone));
  }

  /** The queue holds every file as often as it was there, older ones in front, and files of one
      age in the order they had. */
  lemma ByAgeFacts(files: seq<Entry>)
    ensures OldestFirst(ByAge(files)) && multiset(ByAge(files)) == multiset(files)
    ensures forall e :: e in ByAge(files) <==> e in files
    ensures forall e :: Alike(Older, ByAge(files), e) == Alike(Older, files, e)
    ensures Distinct(files) ==> Distinct(ByAge(files))
  {
    OlderIsOrder();
    hide TotalOrder;
    SortFacts(Older, files);
    SortKeepsElements(Older, files);
    forall e ensures Alike(Older, ByAge(files), e) == Alike(Older, files, e) {
      SortIsStable(Older, files, e);
    }
    if Distinct(files) {
      SortKeepsDistinct(Older, files);
    }
  }

  // ---------------------------------------------------------------------------------------
  // The policy

  lemma {:induction false} WhereKeepsOrder(files: seq<Entry>, keep: Entry -> bool)
    requires OldestFirst(files) && Distinct(files)
    ensures OldestFirst(Where(files, keep)) && Distinct(Where(files, keep))
  {
    if files != [] {
      var rest := files[1..];
      WhereKeepsOrder(rest, keep);
      var r := Where(rest, keep);
      forall j | 0 <= j < |r| ensures Age(files[0]) <= Age(r[j]) && files[0] != r[j] {
        assert r[j] in rest;
        var k :| 0 <= k < |rest| && rest[k] == r[j];
        assert files[k + 1] == rest[k];
      }
    }
  }

  /** Deleting distinct measured files takes exactly their bytes off the total. */
  lemma {:induction false} DeletedBytes(entries: seq<Entry>, gone: seq<Entry>, active: string)
    requires DistinctNames(entries) && Distinct(gone)
    requires forall e :: e in gone ==> e in entries && IsMeasured(e, active)
    ensures Bytes(Measured(Without(entries, gone), active)) == Bytes(Measured(entries, active)) - Bytes(gone)
  {
    if gone == [] {
      WithoutNothing(entries);
    } else {
      var n := |gone| - 1;
      var most, e := gone[..n], gone[n];
      assert gone == most + [e];
      assert forall x :: x in most ==> x in gone;
      DeletedBytes(entries, most, active);
      WithoutOneMore(entries, most, e);
      WhereKeepsNames(entries, Spare(most));
      assert e !in most by {
        assert forall k :: 0 <= k < n ==> gone[k] != gone[n];
      }
      OneDeleted(Without(entries, most), e, active);
      BytesAppend(most, [e]);
    }
  }

  lemma {:induction false} OneDeleted(entries: seq<Entry>, e: Entry, active: string)
    requires DistinctNames(entries) && e in entries && IsMeasured(e, active)
    ensures Bytes(Measured(Without(entries, [e]), active)) == Bytes(Measured(entries, active)) - SizeOf(e)
  {
    var rest := entries[1..];
    if entries[0] == e {
      assert forall x :: x in rest ==> x != e by {
        assert forall k :: 0 <= k < |rest| ==> rest[k] == entries[k + 1];
      }
      NothingToSpare(rest, [e]);
    } else {
      OneDeleted(rest, e, active);
    }
  }

  lemma {:induction false} NothingToSpare(entries: seq<Entry>, gone: seq<Entry>)
    requires forall e :: e in entries ==> e !in gone
    ensures Without(entries, gone) == entries
  {
    if entries != [] {
      NothingToSpare(entries[1..], gone);
      assert entries == [entries[0]] + entries[1..];
    }
  }

  predicate NotStuck(e: Entry) {
    !e.stuck
  }

  function Deletable(queue: seq<Entry>): seq<Entry> {
    Where(queue, NotStuck)
  }

  /** The victims are the oldest deletable archives, as many as it takes and no more. */
  lemma {:induction false} VictimsAreAShortestPrefix(queue: seq<Entry>, total: int, maxBytes: int)
    ensures var v := Victims(queue, total, maxBytes);
      && v <= Deletable(queue)
      && (total - Bytes(v) > maxBytes ==> v == Deletable(queue))
      && forall k :: 0 <= k < |v| ==> total - Bytes(v[..k]) > maxBytes
  {
    hide SizeOf, IsArchive, Age;
    if queue != [] && total > maxBytes {
      var rest := queue[1..];
      if queue[0].stuck {
        VictimsAreAShortestPrefix(rest, total, maxBytes);
      } else {
        var less := total - SizeOf(queue[0]);
        VictimsAreAShortestPrefix(rest, less, maxBytes);
        var v, w := Victims(queue, total, maxBytes), Victims(rest, less, maxBytes);
        assert v == [queue[0]] + w && v[1..] == w;
        forall k | 0 <= k < |v| ensures total - Bytes(v[..k]) > maxBytes {
          if k > 0 {
            assert v[..k] == [queue[0]] + w[..k - 1];
            BytesAppend([queue[0]], w[..k - 1]);
          }
        }
      }
    }
  }

  /** The queue the victims are taken from: every archive once, oldest first. */
  lemma QueueFacts(entries: seq<Entry>, active: string)
    requires DistinctNames(entries)
    ensures var queue := ByAge(Archives(entries, active));
      && OldestFirst(queue) && Distinct(queue)
      && OldestFirst(Deletable(queue)) && Distinct(Deletable(queue))
      && (forall e :: e in queue <==> e in entries && IsArchive(e, active))
      && forall e :: e in Deletable(queue) <==> e in entries && IsArchive(e, active) && !e.stuck
  {
    var archives := Archives(entries, active);
    WhereKeepsNames(entries, IsMeasuredFor(active));
    WhereKeepsNames(Measured(entries, active), NamedOther(active));
    ByAgeFacts(archives);
    WhereKeepsOrder(ByAge(archives), NotStuck);
  }

  /** What the quota promises, whichever deletions fail: only archives go, never the active log;
      the running total is the size of what is left; every deletion was still needed when it was
      made; nothing deletable that stays is older than something deleted; and the family stays
      too large only when no archive is left that could be deleted. */
  lemma EvictionPolicy(entries: seq<Entry>, active: string, maxBytes: int)
    requires DistinctNames(entries)
    ensures var gone := EvictedFrom(entries, active, maxBytes);
      var left := Without(entries, gone);
      && (forall e :: e in gone ==> e in entries && IsArchive(e, active) && !e.stuck)
      && (forall e :: e in entries && !IsArchive(e, active) ==> e in left)
      && Bytes(Measured(left, active)) == Bytes(Measured(entries, active)) - Bytes(gone)
      && (forall k :: 0 <= k < |gone| ==> Bytes(Measured(Without(entries, gone[..k]), active)) > maxBytes)
      && (forall g, e :: g in gone && e in left && IsArchive(e, active) && !e.stuck ==> Age(g) <= Age(e))
      && (Bytes(Measured(left, active)) > maxBytes ==> forall e :: e in left && IsArchive(e, active) ==> e.stuck)
  {
    hide Where, Bytes, Victims, ByAge;
    var queue, total := ByAge(Archives(entries, active)), Bytes(Measured(entries, active));
    var gone, deletable := Victims(queue, total, maxBytes), Deletable(queue);
    var left := Without(entries, gone);
    QueueFacts(entries, active);
    VictimsAreAShortestPrefix(queue, total, maxBytes);
    assert forall k :: 0 <= k < |gone| ==> gone[k] == deletable[k] && gone[k] in deletable;
    DeletedBytes(entries, gone, active);
    forall k | 0 <= k < |gone| ensures Bytes(Measured(Without(entries, gone[..k]), active)) > maxBytes {
      var some := gone[..k];
      assert forall j :: 0 <= j < k ==> some[j] == gone[j];
      DeletedBytes(entries, some, active);
    }
    forall g, e | g in gone && e in left && IsArchive(e, active) && !e.stuck ensures Age(g) <= Age(e) {
      assert e in deletable && e !in gone;
    }
  }

  lemma FirstVictimWasNeeded(entries: seq<Entry>, active: string, maxBytes: int)
    requires DistinctNames(entries) && EvictedFrom(entries, active, maxBytes) != []
    ensures Bytes(Measured(entries, active)) > maxBytes
    ensures exists e :: e in entries && IsArchive(e, active) && !e.stuck
  {
    var gone := EvictedFrom(entries, active, maxBytes);
    EvictionPolicy(entries, active, maxBytes);
    assert gone[0] in gone;
  }

  /** Nothing is deleted from a family within its quota, and one call settles the matter: a
      second one finds nothing more to delete. */
  lemma EnforcingTwiceChangesNothing(entries: seq<Entry>, active: string, maxBytes: int)
    requires DistinctNames(entries)
    ensures Bytes(Measured(entries, active)) <= maxBytes ==> EvictedFrom(entries, active, maxBytes) == []
    ensures var left := Without(entries, EvictedFrom(entries, active, maxBytes));
      EvictedFrom(left, active, maxBytes) == []
  {
    hide Where, Bytes, ByAge;
    var left := Without(entries, EvictedFrom(entries, active, maxBytes));
    EvictionPolicy(entries, active, maxBytes);
    WhereKeepsNames(entries, Spare(EvictedFrom(entries, active, maxBytes)));
    if EvictedFrom(left, active, maxBytes) != [] {
      FirstVictimWasNeeded(left, active, maxBytes);
    }
  }

  // ---------------------------------------------------------------------------------------
  // The directory

  class LogDir {
    var present: bool
    var entries: seq<Entry>

    ghost predicate Valid()
      reads this
    {
      DistinctNames(entries) && (!present ==> entries == [])
    }

    method IterLogFiles(active: string) returns (files: seq<Entry>)
      requires Valid()
      ensures files == LogFiles(entries, active)
    {
      if !present {
        return [];
      }
      files := [];
      var prefix := active + ".";
      var i := 0;
      while i < |entries|
        invariant i <= |entries|
        invariant files + LogFiles(entries[i..], active) == LogFiles(entries, active)
      {
        var path := entries[i];
        i := i + 1;
        if !path.regular {
          continue;
        }
        if path.name == active || prefix <= path.name {
          files := files + [path];
        }
      }
    }

    /** The first pass: the sizes that can be read, and their sum. */
    method Measure(active: string) returns (sized: seq<Entry>, total: nat)
      requires Valid()
      ensures sized == Measured(entries, active) && total == Bytes(sized)
    {
      var files := IterLogFiles(active);
      MeasuredOfFamily(entries, active);
      sized, total := [], 0;
      var i := 0;
      while i < |files|
        invariant i <= |files|
        invariant sized + Measured(files[i..], active) == Measured(files, active)
        invariant total == Bytes(sized)
      {
        var path := files[i];
        assert path in files;
        i := i + 1;
        if path.size.None? {
          continue;
        }
        BytesAppend(sized, [path]);
        sized := sized + [path];
        total := total + path.size.value;
      }
    }

    /** `Path.unlink`: the file goes, or the call fails and nothing changes. */
    method Unlink(e: Entry) returns (ok: bool)
      modifies this`entries
      ensures ok == !e.stuck
      ensures entries == if ok then Without(old(entries), [e]) else old(entries)
    {
      ok := !e.stuck;
      if ok {
        entries := Without(entries, [e]);
      }
    }

    /** The second pass: unlinks from the front of `archives` while the total is too large. */
    method EvictOldest(archives: seq<Entry>, measured: nat, maxBytes: int) returns (deleted: nat)
      requires Valid()
      modifies this`entries
      ensures Valid()
      ensures entries == Without(old(entries), Victims(archives, measured, maxBytes))
      ensures deleted == |Victims(archives, measured, maxBytes)|
    {
      hide Where, Without, SizeOf;
      var total: int, i := measured, 0;
      ghost var gone: seq<Entry> := [];
      WithoutNothing(entries);
      deleted := 0;
      while i < |archives|
        invariant i <= |archives|
        invariant deleted == |gone|
        invariant entries == Without(old(entries), gone)
        invariant gone + Victims(archives[i..], total, maxBytes) == Victims(archives, measured, maxBytes)
      {
        if total <= maxBytes {
          break;
        }
        var archive := archives[i];
        i := i + 1;
        var ok := Unlink(archive);
        if !ok {
          continue;
        }
        WithoutOneMore(old(entries), gone, archive);
        gone := gone + [archive];
        total := total - SizeOf(archive);
        deleted := deleted + 1;
      }
      assert gone == Victims(archives, measured, maxBytes);
      WithoutKeepsNames(old(entries), gone);
    }

    method EnforceQuota(active: string, maxBytes: int) returns (r: Outcome)
      requires Valid()
      modifies this`entries
      ensures Valid()
      ensures r.StatFailed? <==>
        && 0 < maxBytes < Bytes(Measured(old(entries), active))
        && exists e :: e in old(entries) && IsArchive(e, active) && e.mtime.None?
      ensures r.StatFailed? || maxBytes <= 0 ==> entries == old(entries)
      ensures maxBytes <= 0 ==> r == Evicted(0)
      ensures r.Evicted? && 0 < maxBytes ==>
                && entries == Without(old(entries), EvictedFrom(old(entries), active, maxBytes))
                && r.deleted == |EvictedFrom(old(entries), active, maxBytes)|
    {
      if maxBytes <= 0 {
        return Evicted(0);
      }
      var sized, total := Measure(active);
      if total <= maxBytes {
        WithoutNothing(entries);
        return Evicted(0);
      }
      var archives := NotActive(sized, active);
      UnreadableExactly(entries, active);
      if AgeUnreadable(archives) {
        return StatFailed;
      }
      archives := ByAge(archives);
      var deleted := EvictOldest(archives, total, maxBytes);
      return Evicted(deleted);
    }
  }
}
