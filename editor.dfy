/** `ZipEditor`: pending edits against one zip archive, applied in a single
    pass by `Process`, and the read-only views of the archive. The archive
    file's contents are passed in as an `ArchiveFile`, and `Process` returns
    what the file holds afterwards. */
module Editor {
  import opened JavaStrings
  import opened Wrappers
  import opened Archives
  import opened Paths
  import opened Prefixes
  import opened Steppers
  import opened Merging
  import opened Listings
  import TreeMaps

  /** The counters one `process()` run reports. */
  class ZipProcessResult {
    var keeps: nat
    var adds: nat
    var deletes: nat

    constructor ()
      ensures keeps == 0 && adds == 0 && deletes == 0
    {
      keeps, adds, deletes := 0, 0, 0;
    }

    method Keep()
      modifies this
      ensures keeps == old(keeps) + 1 && adds == old(adds) && deletes == old(deletes)
    {
      keeps := keeps + 1;
    }

    method Add()
      modifies this
      ensures adds == old(adds) + 1 && keeps == old(keeps) && deletes == old(deletes)
    {
      adds := adds + 1;
    }

    method Delete()
      modifies this
      ensures deletes == old(deletes) + 1 && keeps == old(keeps) && adds == old(adds)
    {
      deletes := deletes + 1;
    }

    /** Adds and deletes are the changes; keeps are not. */
    function Changes(): (c: nat)
      reads this
      ensures c == adds + deletes
      ensures c == 0 <==> adds == 0 && deletes == 0
    {
      adds + deletes
    }

    /** The counters as a tally with the given output. */
    function Counted(out: seq<Entry>): Tally
      reads this
    {
      Tally(out, keeps, adds, deletes)
    }
  }

  class ZipEditor {
    /** The archive's file name; its contents are the `disk` arguments. */
    const original: string
    /** The TreeMap of pending writes, by target path, in key order. */
    var adds: seq<(string, Edit)>
    /** Names of original entries to leave out. */
    var deletes: set<string>
    /** Directory prefixes whose entries are left out. */
    var rmdirs: PathPrefixMatcher

    /** What the builders maintain: the writes are in key order, every PUT
        and MKDIR target is also deleted (so it replaces an original of that
        name), MKDIR targets and rmdir prefixes are directory names. */
    ghost predicate Valid()
      reads this, rmdirs
    {
      && TreeMaps.StrictlySorted(adds)
      && WriteKeysDeleted(Log())
      && (forall e :: e in adds && e.1.Mkdir? ==> Normalize(e.0) == e.0)
      && (forall i :: 0 <= i < |rmdirs.prefixes| ==> Normalize(rmdirs.prefixes[i]) == rmdirs.prefixes[i])
    }

    /** The pending edits as the commit consumes them. */
    function Log(): EditLog
      reads this, rmdirs
    {
      EditLog(adds, deletes, rmdirs.prefixes)
    }

    constructor (original: string)
      ensures this.original == original
      ensures adds == [] && deletes == {} && fresh(rmdirs) && rmdirs.prefixes == []
      ensures Valid()
    {
      this.original := original;
      adds := [];
      deletes := {};
      rmdirs := new PathPrefixMatcher();
    }

    /** Discards every pending edit. */
    method Reset()
      modifies this
      ensures adds == [] && deletes == {} && fresh(rmdirs) && rmdirs.prefixes == []
      ensures Valid()
    {
      adds := [];
      deletes := {};
      rmdirs := new PathPrefixMatcher();
    }

    /** Writes `path` with the content `writer` supplies, replacing an
        original or pending entry of that name. */
    method Add(path: string, writer: nat)
      requires Valid()
      modifies this
      ensures Valid()
      ensures deletes == old(deletes) + {path} && rmdirs == old(rmdirs)
      ensures adds == TreeMaps.Put(old(adds), path, Edit.Put(writer))
      ensures TreeMaps.ToMap(adds) == TreeMaps.ToMap(old(adds))[path := Edit.Put(writer)]
    {
      TreeMaps.PutElements(adds, path, Edit.Put(writer));
      TreeMaps.PutSorted(adds, path, Edit.Put(writer));
      TreeMaps.PutToMap(adds, path, Edit.Put(writer));
      deletes := deletes + {path};
      adds := TreeMaps.Put(adds, path, Edit.Put(writer));
    }

    /** Creates the directory entry `path + "/"` (normalised), replacing an
        existing one. */
    method Mkdir(path: string)
      requires Valid()
      modifies this
      ensures Valid()
      ensures deletes == old(deletes) + {Normalize(path)} && rmdirs == old(rmdirs)
      ensures adds == TreeMaps.Put(old(adds), Normalize(path), Edit.Mkdir)
      ensures TreeMaps.ToMap(adds) == TreeMaps.ToMap(old(adds))[Normalize(path) := Edit.Mkdir]
    {
      var dir := Normalize(path);
      NormalizeIdempotent(path);
      TreeMaps.PutElements(adds, dir, Edit.Mkdir);
      TreeMaps.PutSorted(adds, dir, Edit.Mkdir);
      TreeMaps.PutToMap(adds, dir, Edit.Mkdir);
      deletes := deletes + {dir};
      adds := TreeMaps.Put(adds, dir, Edit.Mkdir);
    }

    /** Leaves the original entry named exactly `path` out. */
    method Delete(path: string)
      requires Valid()
      modifies this
      ensures Valid()
      ensures deletes == old(deletes) + {path} && adds == old(adds) && rmdirs == old(rmdirs)
    {
      deletes := deletes + {path};
    }

    /** Leaves every original entry under the directory `path` out. */
    method Rmdir(path: string)
      requires Valid()
      modifies rmdirs
      ensures Valid()
      ensures rmdirs.prefixes == old(rmdirs.prefixes) + [Normalize(path)]
    {
      NormalizeIdempotent(path);
      rmdirs.Add(Normalize(path));
    }

    /** Moves the original entry `from` to `to`: `from` is left out and `to`
        is written with its bytes and time. */
    method Rename(from: string, to: string)
      requires Valid()
      modifies this
      ensures Valid()
      ensures deletes == old(deletes) + {from} && rmdirs == old(rmdirs)
      ensures adds == TreeMaps.Put(old(adds), to, Edit.Rename(from))
      ensures TreeMaps.ToMap(adds) == TreeMaps.ToMap(old(adds))[to := Edit.Rename(from)]
    {
      TreeMaps.PutElements(adds, to, Edit.Rename(from));
      TreeMaps.PutSorted(adds, to, Edit.Rename(from));
      TreeMaps.PutToMap(adds, to, Edit.Rename(from));
      deletes := deletes + {from};
      adds := TreeMaps.Put(adds, to, Edit.Rename(from));
    }

    /** `zipEntries()` on an archive file: every entry in stored order, and
        nothing when the file is missing or not an archive. */
    method Entries(disk: ArchiveFile) returns (result: seq<Entry>)
      ensures result == EntriesOf(disk)
    {
      result := [];
      if disk.Zip? {
        var stepper := new EnumerationStepper(disk.entries);
        var more := stepper.HasNext();
        while more
          invariant stepper.Valid() && stepper.elements == disk.entries
          invariant more <==> stepper.Position() < |disk.entries|
          invariant result == disk.entries[..stepper.Position()]
          decreases |disk.entries| - stepper.Position()
        {
          var e := stepper.Next();
          result := result + [e];
          more := stepper.HasNext();
        }
      }
    }

    /** `entries(prefix)`: the immediate children of the normalised prefix,
        plus one synthesised marker per implied subdirectory that has no
        entry of its own. */
    method EntriesUnder(disk: ArchiveFile, prefix: string) returns (result: seq<Entry>)
      requires IsLiteralPattern(prefix)
      ensures result == Listing(Normalize(prefix), EntriesOf(disk), DirNames(EntriesOf(disk)))
      ensures forall y :: 0 <= y < |EntriesOf(disk)| && IsDirectChild(Normalize(prefix), EntriesOf(disk)[y].name)
                ==> EntriesOf(disk)[y] in result
      ensures forall y :: 0 <= y < |EntriesOf(disk)| && ImpliedDir(Normalize(prefix), EntriesOf(disk)[y].name).Some?
                ==> ImpliedDir(Normalize(prefix), EntriesOf(disk)[y].name).value in Names(result)
      ensures DistinctNames(EntriesOf(disk)) ==> DistinctNames(result)
    {
      var q := Normalize(prefix);
      var list := Entries(disk);
      result := ListChildren(q, list);
      ListingProperties(q, list);
    }

    /** The loop of `entries(prefix)` over the archive's entries, with the
        set of directory names seeded from every entry name. */
    method ListChildren(q: string, list: seq<Entry>) returns (result: seq<Entry>)
      ensures result == Listing(q, list, DirNames(list))
    {
      var directories := DirNames(list);
      ghost var goal := Listing(q, list, directories);
      result := [];
      for x := 0 to |list|
        invariant result + Listing(q, list[x..], directories) == goal
      {
        var e := list[x];
        ghost var before := result;
        ghost var known := directories;
        ListStepByMatch(q, e, directories);
        var m := MatchChild(q, e.name);
        if m.Some? {
          if !HasSuffix(m.value) {
            result := result + [e];
          } else {
            var subdir := q + m.value.segment + [Delimiter];
            if subdir !in directories {
              result := result + [Entry(subdir, NoData, e.time)];
              directories := directories + {subdir};
            }
          }
        }
        ListingLoopStep(q, list, x, known, before, goal, result, directories);
      }
      assert list[|list|..] == [];
    }

    /** `entry(path)`: the first entry named `path` or `path + "/"`;
        failing that, a directory marker for `path + "/"` with the time of
        the first entry under it; failing that, nothing. */
    method LookupEntry(disk: ArchiveFile, path: string) returns (r: Option<Entry>)
      ensures r.None? <==> forall i :: 0 <= i < |EntriesOf(disk)| ==>
                !NamesPath(path, EntriesOf(disk)[i].name) && !StartsWith(EntriesOf(disk)[i].name, Normalize(path))
      ensures r.Some? ==>
                || (exists i :: IsFirstExact(EntriesOf(disk), path, i) && r.value == EntriesOf(disk)[i])
                || (&& (forall i :: 0 <= i < |EntriesOf(disk)| ==> !NamesPath(path, EntriesOf(disk)[i].name))
                    && exists i :: IsFirstUnder(EntriesOf(disk), Normalize(path), i)
                                   && r.value == Entry(Normalize(path), NoData, EntriesOf(disk)[i].time))
    {
      var dir := Normalize(path);
      var candidate: Option<Entry> := None;
      ghost var at: nat := 0;
      if disk.Zip? {
        var es := disk.entries;
        var stepper := new EnumerationStepper(es);
        var more := stepper.HasNext();
        while more
          invariant stepper.Valid() && stepper.elements == es
          invariant more <==> stepper.Position() < |es|
          invariant forall z :: 0 <= z < stepper.Position() ==> !NamesPath(path, es[z].name)
          invariant candidate.None? ==> forall z :: 0 <= z < stepper.Position() ==> !StartsWith(es[z].name, dir)
          invariant candidate.Some? ==> at < stepper.Position() && IsFirstUnder(es, dir, at) && candidate.value == es[at]
          decreases |es| - stepper.Position()
        {
          ghost var p := stepper.Position();
          var e := stepper.Next();
          if e.name == path || e.name == dir {
            assert es[p] == e && NamesPath(path, es[p].name) && IsFirstExact(es, path, p);
            assert EntriesOf(disk) == es;
            return Some(e);
          }
          if candidate.None? && StartsWith(e.name, dir) {
            candidate := Some(e);
            at := p;
          }
          more := stepper.HasNext();
        }
      }
      if candidate.Some? {
        assert StartsWith(EntriesOf(disk)[at].name, dir);
        return Some(Entry(dir, NoData, candidate.value.time));
      }
      return None;
    }

    /** One original entry met by the cursor: counted deleted when a delete
        or an rmdir prefix covers it, otherwise copied and counted kept. */
    method Transfer(e: Entry, log: EditLog, matcher: PathPrefixMatcher, result: ZipProcessResult, written: seq<Entry>)
      returns (written': seq<Entry>)
      requires matcher.prefixes == log.rmdirs
      modifies result
      ensures result.Counted(written') == old(result.Counted(written)).Then(Pass(log, e))
    {
      var drop := e.name in log.deletes;
      if !drop {
        drop := matcher.Matches(e.name);
      }
      if drop {
        result.Delete();
        written' := written;
      } else {
        written' := written + [e];
        result.Keep();
      }
    }

    /** Edit `j` written at its place: a MKDIR as an empty entry and a PUT
        with the writer's content, both stamped `now`; a RENAME as a copy of
        its source's bytes and time, or not at all when there is no source. */
    method Write(log: EditLog, archive: seq<Entry>, now: int, j: nat, result: ZipProcessResult, written: seq<Entry>)
      returns (written': seq<Entry>)
      requires j < |log.adds|
      modifies result
      ensures result.Counted(written') == old(result.Counted(written)).Then(Emit(log, archive, now, j))
    {
      var (key, edit) := log.adds[j];
      written' := written;
      match edit
      case Mkdir =>
        written' := written + [Entry(key, NoData, now)];
        result.Add();
      case Put(w) =>
        written' := written + [Entry(key, Data(w), now)];
        result.Add();
      case Rename(from) =>
        var source := GetEntry(archive, from);
        if source.Some? {
          written' := written + [Entry(key, source.value.body, source.value.time)];
          result.Add();
        }
    }

    /** `process()`: writes the merge of the archive with the pending edits,
        reports the counters, installs the result and discards the edits.
        A RENAME needs a readable archive (the source dereferences the
        missing `ZipFile` otherwise), and no entry may be written twice
        (ZipOutputStream rejects a duplicate name). */
    method Process(disk: ArchiveFile, now: int) returns (result: ZipProcessResult, newDisk: ArchiveFile)
      requires Valid()
      requires disk.Zip? || forall e :: e in adds ==> !e.1.Rename?
      requires KeptDistinct(Log(), EntriesOf(disk))
      requires RenameTargetsFree(Log(), EntriesOf(disk))
      modifies this
      ensures fresh(result)
      ensures result.Counted(EntriesOf(newDisk)) == Commit(old(Log()), EntriesOf(disk), now)
      ensures newDisk == Outcome(disk, Commit(old(Log()), EntriesOf(disk), now))
      ensures DistinctNames(EntriesOf(newDisk))
      ensures NamesAscending(EntriesOf(disk)) ==> NamesAscending(EntriesOf(newDisk))
      ensures adds == [] && deletes == {} && fresh(rmdirs) && rmdirs.prefixes == [] && Valid()
    {
      var log := Log();
      var archive := EntriesOf(disk);
      result := new ZipProcessResult();
      var written := WriteMerged(log, disk, now, rmdirs, result);
      if result.Changes() == 0 {
        // the file just written is deleted: a fresh copy beside a readable
        // archive, or the original path itself otherwise
        newDisk := if disk.Zip? then disk else Missing;
      } else {
        // moved over the original, or already written in its place
        newDisk := Zip(written);
      }
      CommitReadsBack(log, disk, now);
      NoCollisionFromRenames(log, archive);
      MergeDistinct(log, archive, now, 0, 0);
      if NamesAscending(archive) {
        MergeAscending(log, archive, now, 0, 0);
      }
      Reset();
    }

    /** The writing pass of `process()`: for each edit in key order, the
        originals that sort before its key are copied or dropped, then the
        edit is written; the originals left over follow. */
    method WriteMerged(log: EditLog, disk: ArchiveFile, now: int, matcher: PathPrefixMatcher, result: ZipProcessResult)
      returns (written: seq<Entry>)
      requires matcher.prefixes == log.rmdirs
      requires result.keeps == 0 && result.adds == 0 && result.deletes == 0
      modifies result
      ensures result.Counted(written) == Commit(log, EntriesOf(disk), now)
    {
      var archive := EntriesOf(disk);
      ghost var goal := Commit(log, archive, now);
      var stepper: EnumerationStepper<Entry>;
      if disk.Zip? {
        stepper := new EnumerationStepper(disk.entries);
      } else {
        stepper := new EnumerationStepper.Empty();
      }
      written := [];
      assert stepper.Position() == 0 && result.Counted(written) == Nothing;
      assert Nothing.Then(goal) == goal;
      var edits := log.adds;
      for j := 0 to |edits|
        invariant stepper.Valid() && stepper.elements == archive
        invariant result.Counted(written).Then(Merge(log, archive, now, stepper.Position(), j)) == goal
      {
        written := CopyAndWrite(log, now, j, stepper, matcher, result, written, goal);
      }
      written := CopyBefore(log, now, |edits|, stepper, matcher, result, written, goal);
      MergeEnd(log, archive, now, stepper.Position(), result.Counted(written));
    }

    /** One edit's turn in the writing pass: the originals before its key,
        then the edit itself. */
    method CopyAndWrite(log: EditLog, now: int, j: nat, stepper: EnumerationStepper<Entry>, matcher: PathPrefixMatcher,
                        result: ZipProcessResult, written: seq<Entry>, ghost goal: Tally)
      returns (written': seq<Entry>)
      requires j < |log.adds|
      requires stepper.Valid() && matcher.prefixes == log.rmdirs
      requires result.Counted(written).Then(Merge(log, stepper.elements, now, stepper.Position(), j)) == goal
      modifies stepper, result
      ensures stepper.Valid()
      ensures result.Counted(written').Then(Merge(log, stepper.elements, now, stepper.Position(), j + 1)) == goal
    {
      var copied := CopyBefore(log, now, j, stepper, matcher, result, written, goal);
      ghost var before := result.Counted(copied);
      ghost var i := stepper.Position();
      written' := Write(log, stepper.elements, now, j, result, copied);
      assert stepper.Position() == i;
      EmitStep(log, stepper.elements, now, i, j, before, result.Counted(written'), goal);
    }

    /** The copy loop: the cursor's originals that sort before edit `j`'s
        key, or all that are left once the edits are written (the trailing
        loop), are copied or dropped in order. */
    method CopyBefore(log: EditLog, now: int, j: nat, stepper: EnumerationStepper<Entry>, matcher: PathPrefixMatcher,
                      result: ZipProcessResult, written: seq<Entry>, ghost goal: Tally)
      returns (written': seq<Entry>)
      requires j <= |log.adds|
      requires stepper.Valid() && matcher.prefixes == log.rmdirs
      requires result.Counted(written).Then(Merge(log, stepper.elements, now, stepper.Position(), j)) == goal
      modifies stepper, result
      ensures stepper.Valid()
      ensures result.Counted(written').Then(Merge(log, stepper.elements, now, stepper.Position(), j)) == goal
      ensures !CopiesFirst(log, stepper.elements, stepper.Position(), j)
    {
      if j < |log.adds| {
        written' := CopyLess(log, now, j, stepper, matcher, result, written, goal);
      } else {
        written' := CopyRest(log, now, stepper, matcher, result, written, goal);
      }
    }

    /** The copy loop before edit `j`: originals whose names sort before
        its key. */
    method CopyLess(log: EditLog, now: int, j: nat, stepper: EnumerationStepper<Entry>, matcher: PathPrefixMatcher,
                    result: ZipProcessResult, written: seq<Entry>, ghost goal: Tally)
      returns (written': seq<Entry>)
      requires j < |log.adds|
      requires stepper.Valid() && matcher.prefixes == log.rmdirs
      requires result.Counted(written).Then(Merge(log, stepper.elements, now, stepper.Position(), j)) == goal
      modifies stepper, result
      ensures stepper.Valid()
      ensures result.Counted(written').Then(Merge(log, stepper.elements, now, stepper.Position(), j)) == goal
      ensures !CopiesFirst(log, stepper.elements, stepper.Position(), j)
    {
      var archive := stepper.elements;
      written' := written;
      var key := log.adds[j].0;
      while !stepper.done && Less(stepper.value.name, key)
        invariant stepper.Valid() && stepper.elements == archive
        invariant result.Counted(written').Then(Merge(log, archive, now, stepper.Position(), j)) == goal
        decreases |archive| - stepper.Position()
      {
        ghost var before := result.Counted(written');
        ghost var i := stepper.Position();
        written' := Transfer(stepper.value, log, matcher, result, written');
        ghost var after := result.Counted(written');
        CopyStep(log, archive, now, i, j, before, after, goal);
        stepper.Step();
        assert stepper.Position() == i + 1 && result.Counted(written') == after;
      }
    }

    /** The trailing copy loop: every original the cursor has not reached. */
    method CopyRest(log: EditLog, now: int, stepper: EnumerationStepper<Entry>, matcher: PathPrefixMatcher,
                    result: ZipProcessResult, written: seq<Entry>, ghost goal: Tally)
      returns (written': seq<Entry>)
      requires stepper.Valid() && matcher.prefixes == log.rmdirs
      requires result.Counted(written).Then(Merge(log, stepper.elements, now, stepper.Position(), |log.adds|)) == goal
      modifies stepper, result
      ensures stepper.Valid()
      ensures result.Counted(written').Then(Merge(log, stepper.elements, now, stepper.Position(), |log.adds|)) == goal
      ensures !CopiesFirst(log, stepper.elements, stepper.Position(), |log.adds|)
    {
      var archive := stepper.elements;
      written' := written;
      while !stepper.done
        invariant stepper.Valid() && stepper.elements == archive
        invariant result.Counted(written').Then(Merge(log, archive, now, stepper.Position(), |log.adds|)) == goal
        decreases |archive| - stepper.Position()
      {
        ghost var before := result.Counted(written');
        ghost var i := stepper.Position();
        written' := Transfer(stepper.value, log, matcher, result, written');
        ghost var after := result.Counted(written');
        CopyStep(log, archive, now, i, |log.adds|, before, after, goal);
        stepper.Step();
        assert stepper.Position() == i + 1 && result.Counted(written') == after;
      }
    }
  }
}
