/** The repository's whole-archive tests worked through the model: the edit
    log each test's builder calls leave on a fresh editor, and the counters
    and entries the commit then produces. */
module Scenarios {
  import opened Archives
  import opened Merging
  import opened Prefixes
  import opened JavaStrings
  import opened Editor
  import opened Paths
  import TreeMaps

  /** The edits of the seed archive: `add("test1.txt")`, `mkdir("foo")`,
      `mkdir("bar/")`, `add("foo/test2.txt")`, with the greeting as writer 1. */
  function SeedLog(): EditLog
  {
    EditLog([("bar/", Edit.Mkdir), ("foo/", Edit.Mkdir), ("foo/test2.txt", Edit.Put(1)), ("test1.txt", Edit.Put(1))],
            {"test1.txt", "foo/", "bar/", "foo/test2.txt"}, [])
  }

  /** The archive the seed edits write at time `t`, in key order. */
  function Seeded(t: int): seq<Entry>
  {
    [ Entry("bar/", NoData, t), Entry("foo/", NoData, t),
      Entry("foo/test2.txt", Data(1), t), Entry("test1.txt", Data(1), t) ]
  }

  /** The edit log of testNewZip: `add("test1.txt")`. */
  function NewZipLog(): EditLog
  {
    EditLog([("test1.txt", Edit.Put(1))], {"test1.txt"}, [])
  }

  /** The edit log of testRename: `rename("foo/test2.txt", "bar/new.txt")`. */
  function RenameLog(): EditLog
  {
    EditLog([("bar/new.txt", Edit.Rename("foo/test2.txt"))], {"foo/test2.txt"}, [])
  }

  /** The edit log of testMkdirExisting: `mkdir("bar")`, normalised to "bar/". */
  function MkdirExistingLog(): EditLog
  {
    EditLog([("bar/", Edit.Mkdir)], {"bar/"}, [])
  }

  /** The edit log of testEdit: `add("test2.txt")`, `add("test1.txt")`, `rmdir("foo")`, with the doubled greeting as writer 2. */
  function EditTestLog(): EditLog
  {
    EditLog([("test1.txt", Edit.Put(2)), ("test2.txt", Edit.Put(2))], {"test2.txt", "test1.txt"}, ["foo/"])
  }

  /** The pending deletes after the seed's four builder calls. */
  lemma SeedDeletes()
    ensures {} + {"test1.txt"} + {"foo/"} + {"bar/"} + {"foo/test2.txt"} == SeedLog().deletes
  {
  }

  /** `put` of a key that sorts before the first key goes in front. */
  lemma PutInFront(s: seq<(string, Edit)>, k: string, v: Edit)
    requires s != [] && Less(k, s[0].0)
    ensures TreeMaps.Put(s, k, v) == [(k, v)] + s
  {
    LessIrreflexive(k);
  }

  /** `put` of a key that sorts after the first key passes it by. */
  lemma PutPast(s: seq<(string, Edit)>, k: string, v: Edit)
    requires s != [] && Less(s[0].0, k)
    ensures TreeMaps.Put(s, k, v) == [s[0]] + TreeMaps.Put(s[1..], k, v)
  {
    LessIrreflexive(k);
    if Less(k, s[0].0) {
      LessTransitive(k, s[0].0, k);
    }
  }

  /** How the seed's keys compare under `compareTo`. */
  lemma SeedKeyOrder()
    ensures Less("bar/", "foo/") && Less("foo/", "foo/test2.txt") && Less("foo/test2.txt", "test1.txt")
    ensures Less("foo/", "test1.txt") && Less("bar/", "foo/test2.txt")
  {
    assert Less("/", "/test2.txt");
    assert Less("o/", "o/test2.txt");
    assert Less("oo/", "oo/test2.txt");
  }

  /** The TreeMap after the seed's four `put` calls, in key order. */
  lemma SeedPuts()
    ensures var a := TreeMaps.Put([], "test1.txt", Edit.Put(1));
            var b := TreeMaps.Put(a, "foo/", Edit.Mkdir);
            var c := TreeMaps.Put(b, "bar/", Edit.Mkdir);
            TreeMaps.Put(c, "foo/test2.txt", Edit.Put(1)) == SeedLog().adds
  {
    var t1, f, b, f2 := ("test1.txt", Edit.Put(1)), ("foo/", Edit.Mkdir), ("bar/", Edit.Mkdir), ("foo/test2.txt", Edit.Put(1));
    SeedKeyOrder();
    PutInFront([t1], f.0, f.1);
    PutInFront([f, t1], b.0, b.1);
    PutInFront([t1], f2.0, f2.1);
    assert [f, t1][1..] == [t1];
    PutPast([f, t1], f2.0, f2.1);
    assert [b, f, t1][1..] == [f, t1];
    PutPast([b, f, t1], f2.0, f2.1);
  }

  /** testEdit's two `put` calls leave the TreeMap in key order. */
  lemma EditTestPuts()
    ensures var a := TreeMaps.Put([], "test2.txt", Edit.Put(2));
            TreeMaps.Put(a, "test1.txt", Edit.Put(2)) == EditTestLog().adds
            && {} + {"test2.txt"} + {"test1.txt"} == EditTestLog().deletes
  {
    assert Less("test1.txt", "test2.txt");
    PutInFront([("test2.txt", Edit.Put(2))], "test1.txt", Edit.Put(2));
  }

  /** The seed's builder calls on a fresh editor leave `SeedLog()`: the
      TreeMap sorts the keys and `mkdir` normalises "foo" to "foo/". */
  method SeedEdits() returns (log: EditLog)
    ensures log == SeedLog()
  {
    var z := new ZipEditor("ziptest.zip");
    z.Add("test1.txt", 1);
    assert Normalize("foo") == "foo/";
    z.Mkdir("foo");
    assert Normalize("bar/") == "bar/";
    z.Mkdir("bar/");
    z.Add("foo/test2.txt", 1);
    SeedPuts();
    SeedDeletes();
    log := z.Log();
  }

  /** makeNewZip: the seed edits over the empty temporary file (not a zip
      archive) keep nothing, add four and delete nothing, and the file then
      holds `Seeded(t)`. */
  lemma SeedCommit(t: int)
    ensures Commit(SeedLog(), EntriesOf(Corrupt), t) == Tally(Seeded(t), 0, 4, 0)
    ensures Outcome(Corrupt, Commit(SeedLog(), EntriesOf(Corrupt), t)) == Zip(Seeded(t))
  {
    var log, a := SeedLog(), EntriesOf(Corrupt);
    assert Merge(log, a, t, 0, 4) == Nothing;
    assert Merge(log, a, t, 0, 3) == Tally([Seeded(t)[3]], 0, 1, 0);
    assert Merge(log, a, t, 0, 2) == Tally(Seeded(t)[2..], 0, 2, 0);
    assert Merge(log, a, t, 0, 1) == Tally(Seeded(t)[1..], 0, 3, 0);
    assert Merge(log, a, t, 0, 0) == Tally(Seeded(t)[0..], 0, 4, 0);
  }

  /** testNewZip's builder call `add("test1.txt")` on a fresh editor. */
  method NewZipEdits() returns (log: EditLog)
    ensures log == NewZipLog()
  {
    var z := new ZipEditor("ziptest.zip");
    z.Add("test1.txt", 1);
    log := z.Log();
  }

  /** testNewZip: over the empty temporary file nothing is kept, one entry is
      added and nothing is deleted, and the file holds just "test1.txt". */
  lemma NewZipCommit(now: int)
    ensures var r := Commit(NewZipLog(), EntriesOf(Corrupt), now);
            r == Tally([Entry("test1.txt", Data(1), now)], 0, 1, 0)
            && Outcome(Corrupt, r) == Zip([Entry("test1.txt", Data(1), now)])
  {
    var log := NewZipLog();
    assert Merge(log, [], now, 0, 1) == Nothing;
  }

  /** testRename's builder call `rename("foo/test2.txt", "bar/new.txt")`. */
  method RenameEdits() returns (log: EditLog)
    ensures log == RenameLog()
  {
    var z := new ZipEditor("ziptest.zip");
    z.Rename("foo/test2.txt", "bar/new.txt");
    log := z.Log();
  }

  /** testMkdirExisting's builder call `mkdir("bar")`. */
  method MkdirExistingEdits() returns (log: EditLog)
    ensures log == MkdirExistingLog()
  {
    var z := new ZipEditor("ziptest.zip");
    assert Normalize("bar") == "bar/";
    z.Mkdir("bar");
    log := z.Log();
  }

  /** testEdit's builder calls `add("test2.txt")`, `add("test1.txt")`,
      `rmdir("foo")`, with the doubled greeting as writer 2. */
  method EditEdits() returns (log: EditLog)
    ensures log == EditTestLog()
  {
    var z := new ZipEditor("ziptest.zip");
    z.Add("test2.txt", 2);
    z.Add("test1.txt", 2);
    assert Normalize("foo") == "foo/";
    z.Rmdir("foo");
    EditTestPuts();
    log := z.Log();
  }

  /** `rename("foo/test2.txt", "bar/new.txt")` then `process()` over the
      seeded archive: three entries kept, one added and one deleted. */
  lemma RenameCounts(t: int, now: int)
    ensures var r := Commit(RenameLog(), Seeded(t), now);
            r.keeps == 3 && r.adds == 1 && r.deletes == 1
  {
    var log := RenameLog();
    var a := Seeded(t);
    MergeAccounting(log, a, now, 0, 0);
    assert !MatchesAny([], "bar/") && !MatchesAny([], "foo/") && !MatchesAny([], "test1.txt");
    assert !Dropped(log, a[0].name) && !Dropped(log, a[1].name) && Dropped(log, a[2].name) && !Dropped(log, a[3].name);
    assert CountDropped(log, a, 4) == 0;
    assert CountDropped(log, a, 3) == 0;
    assert CountDropped(log, a, 2) == 1;
    assert CountDropped(log, a, 0) == 1;
    assert a[2].name == "foo/test2.txt";
    assert GetEntry(a, "foo/test2.txt").Some?;
    assert Produces(log, a, 0);
    assert CountProducing(log, a, 1) == 0;
  }

  /** `mkdir("bar")` then `process()`: the existing "bar/" is replaced, so
      three entries are kept, one added and one deleted. */
  lemma MkdirExistingCounts(t: int, now: int)
    ensures var r := Commit(MkdirExistingLog(), Seeded(t), now);
            r.keeps == 3 && r.adds == 1 && r.deletes == 1
  {
    var log := MkdirExistingLog();
    var a := Seeded(t);
    MergeAccounting(log, a, now, 0, 0);
    assert !MatchesAny([], "foo/") && !MatchesAny([], "foo/test2.txt") && !MatchesAny([], "test1.txt");
    assert Dropped(log, a[0].name) && !Dropped(log, a[1].name) && !Dropped(log, a[2].name) && !Dropped(log, a[3].name);
    assert CountDropped(log, a, 4) == 0;
    assert CountDropped(log, a, 3) == 0;
    assert CountDropped(log, a, 2) == 0;
    assert CountDropped(log, a, 1) == 0;
    assert CountDropped(log, a, 0) == 1;
    assert CountProducing(log, a, 1) == 0;
  }

  /** `add("test2.txt")`, `add("test1.txt")`, `rmdir("foo")` then
      `process()`: "bar/" is kept, "foo/", "foo/test2.txt" and the old
      "test1.txt" are deleted, and two entries are added. */
  lemma EditCounts(t: int, now: int)
    ensures var r := Commit(EditTestLog(), Seeded(t), now);
            r.keeps == 1 && r.adds == 2 && r.deletes == 3
  {
    var log := EditTestLog();
    var a := Seeded(t);
    MergeAccounting(log, a, now, 0, 0);
    assert !StartsWith("bar/", "foo/");
    assert StartsWith("foo/", log.rmdirs[0]) && StartsWith("foo/test2.txt", log.rmdirs[0]);
    assert !Dropped(log, a[0].name) && Dropped(log, a[1].name) && Dropped(log, a[2].name) && Dropped(log, a[3].name);
    assert CountDropped(log, a, 4) == 0;
    assert CountDropped(log, a, 3) == 1;
    assert CountDropped(log, a, 2) == 2;
    assert CountDropped(log, a, 1) == 3;
    assert CountDropped(log, a, 0) == 3;
    assert CountProducing(log, a, 2) == 0;
    assert CountProducing(log, a, 0) == 2;
  }
}
