/** The commit algorithm of `process()`, as a specification: a single sorted
    merge of the archive's entries with the pending edits. */
module Merging {
  import opened JavaStrings
  import opened Wrappers
  import opened Archives
  import opened Prefixes
  import opened TreeMaps

  /** A pending edit. Its target path is its key in the edit log. */
  datatype Edit = Put(writer: nat) | Mkdir | Rename(from: string)

  /** The state a commit consumes: the edits in ascending key order, the
      exact-match deletions and the recursive-delete prefixes. */
  datatype EditLog = EditLog(adds: seq<(string, Edit)>, deletes: set<string>, rmdirs: seq<string>)

  /** What a stretch of the merge writes and counts (`ZipProcessResult`). */
  datatype Tally = Tally(out: seq<Entry>, keeps: nat, adds: nat, deletes: nat)
  {
    function Then(that: Tally): Tally
    {
      Tally(out + that.out, keeps + that.keeps, adds + that.adds, deletes + that.deletes)
    }
  }

  const Nothing: Tally := Tally([], 0, 0, 0)

  /** An original entry is dropped by an exact delete or by a prefix. */
  predicate Dropped(log: EditLog, name: string)
  {
    name in log.deletes || MatchesAny(log.rmdirs, name)
  }

  /** Copy-through of one original entry. */
  function Pass(log: EditLog, e: Entry): Tally
  {
    if Dropped(log, e.name) then Tally([], 0, 0, 1) else Tally([e], 1, 0, 0)
  }

  /** Edit `j` writes an entry: always for PUT and MKDIR, and for RENAME
      when the source name is in the archive being read. */
  predicate Produces(log: EditLog, archive: seq<Entry>, j: nat)
    requires j < |log.adds|
  {
    match log.adds[j].1
    case Rename(from) => GetEntry(archive, from).Some?
    case _ => true
  }

  /** Writing edit `j` at its sorted position. New entries carry the time
      `now`; a renamed entry keeps its source's bytes and time. */
  function Emit(log: EditLog, archive: seq<Entry>, now: int, j: nat): Tally
    requires j < |log.adds|
  {
    var key := log.adds[j].0;
    match log.adds[j].1
    case Mkdir => Tally([Entry(key, NoData, now)], 0, 1, 0)
    case Put(w) => Tally([Entry(key, Data(w), now)], 0, 1, 0)
    case Rename(from) =>
      match GetEntry(archive, from)
      case None => Nothing
      case Some(src) => Tally([Entry(key, src.body, src.time)], 0, 1, 0)
  }

  /** The cursor's entry goes first: it sorts strictly before the next
      edit's key, or no edit is left. */
  predicate CopiesFirst(log: EditLog, archive: seq<Entry>, i: nat, j: nat)
    requires j <= |log.adds|
  {
    i < |archive| && (j == |log.adds| || Less(archive[i].name, log.adds[j].0))
  }

  /** The merge from cursor position `i` and edit `j` on. */
  function Merge(log: EditLog, archive: seq<Entry>, now: int, i: nat, j: nat): Tally
    requires i <= |archive| && j <= |log.adds|
    decreases |archive| - i + |log.adds| - j
  {
    if CopiesFirst(log, archive, i, j) then
      Pass(log, archive[i]).Then(Merge(log, archive, now, i + 1, j))
    else if j < |log.adds| then
      Emit(log, archive, now, j).Then(Merge(log, archive, now, i, j + 1))
    else
      Nothing
  }

  lemma ThenAssociative(a: Tally, b: Tally, c: Tally)
    ensures a.Then(b).Then(c) == a.Then(b.Then(c))
  {
    assert (a.out + b.out) + c.out == a.out + (b.out + c.out);
  }

  lemma MergeCopy(log: EditLog, archive: seq<Entry>, now: int, i: nat, j: nat)
    requires i <= |archive| && j <= |log.adds|
    requires CopiesFirst(log, archive, i, j)
    ensures Merge(log, archive, now, i, j) == Pass(log, archive[i]).Then(Merge(log, archive, now, i + 1, j))
  {
  }

  lemma MergeEmit(log: EditLog, archive: seq<Entry>, now: int, i: nat, j: nat)
    requires i <= |archive| && j < |log.adds|
    requires !CopiesFirst(log, archive, i, j)
    ensures Merge(log, archive, now, i, j) == Emit(log, archive, now, j).Then(Merge(log, archive, now, i, j + 1))
  {
  }

  /** Once the cursor is done and no edit is left, nothing remains. */
  lemma MergeEnd(log: EditLog, archive: seq<Entry>, now: int, i: nat, t: Tally)
    requires i <= |archive|
    requires !CopiesFirst(log, archive, i, |log.adds|)
    ensures t.Then(Merge(log, archive, now, i, |log.adds|)) == t
  {
    assert t.out + [] == t.out;
  }

  /** A copy step of the writing loop keeps its account: what was written
      so far, then the rest of the merge, is the whole commit. */
  lemma CopyStep(log: EditLog, archive: seq<Entry>, now: int, i: nat, j: nat, before: Tally, after: Tally, goal: Tally)
    requires i <= |archive| && j <= |log.adds|
    requires CopiesFirst(log, archive, i, j)
    requires before.Then(Merge(log, archive, now, i, j)) == goal
    requires after == before.Then(Pass(log, archive[i]))
    ensures after.Then(Merge(log, archive, now, i + 1, j)) == goal
  {
    MergeCopy(log, archive, now, i, j);
    ThenAssociative(before, Pass(log, archive[i]), Merge(log, archive, now, i + 1, j));
  }

  /** Likewise for writing edit `j`. */
  lemma EmitStep(log: EditLog, archive: seq<Entry>, now: int, i: nat, j: nat, before: Tally, after: Tally, goal: Tally)
    requires i <= |archive| && j < |log.adds|
    requires !CopiesFirst(log, archive, i, j)
    requires before.Then(Merge(log, archive, now, i, j)) == goal
    requires after == before.Then(Emit(log, archive, now, j))
    ensures after.Then(Merge(log, archive, now, i, j + 1)) == goal
  {
    MergeEmit(log, archive, now, i, j);
    ThenAssociative(before, Emit(log, archive, now, j), Merge(log, archive, now, i, j + 1));
  }

  /** The whole commit. */
  function Commit(log: EditLog, archive: seq<Entry>, now: int): Tally
  {
    Merge(log, archive, now, 0, 0)
  }

  // Reference definitions the merge is measured against.

  function CountDropped(log: EditLog, archive: seq<Entry>, i: nat): nat
    requires i <= |archive|
    decreases |archive| - i
  {
    if i == |archive| then 0
    else (if Dropped(log, archive[i].name) then 1 else 0) + CountDropped(log, archive, i + 1)
  }

  function CountProducing(log: EditLog, archive: seq<Entry>, j: nat): nat
    requires j <= |log.adds|
    decreases |log.adds| - j
  {
    if j == |log.adds| then 0
    else (if Produces(log, archive, j) then 1 else 0) + CountProducing(log, archive, j + 1)
  }

  /** The original entries from `i` on that no delete touches, in order. */
  function Survivors(log: EditLog, archive: seq<Entry>, i: nat): seq<Entry>
    requires i <= |archive|
    decreases |archive| - i
  {
    if i == |archive| then []
    else (if Dropped(log, archive[i].name) then [] else [archive[i]]) + Survivors(log, archive, i + 1)
  }

  /** The entries the edits from `j` on write, in key order. */
  function Emitted(log: EditLog, archive: seq<Entry>, now: int, j: nat): seq<Entry>
    requires j <= |log.adds|
    decreases |log.adds| - j
  {
    if j == |log.adds| then [] else Emit(log, archive, now, j).out + Emitted(log, archive, now, j + 1)
  }

  /** Exactly-once accounting: every original entry from `i` on is counted
      deleted iff a delete or prefix covers it (and kept otherwise), and
      `adds` counts the PUT and MKDIR edits plus the RENAMEs whose source
      exists. */
  lemma {:induction false} MergeAccounting(log: EditLog, archive: seq<Entry>, now: int, i: nat, j: nat)
    requires i <= |archive| && j <= |log.adds|
    decreases |archive| - i + |log.adds| - j
    ensures Merge(log, archive, now, i, j).deletes == CountDropped(log, archive, i)
    ensures Merge(log, archive, now, i, j).keeps == |archive| - i - CountDropped(log, archive, i)
    ensures Merge(log, archive, now, i, j).adds == CountProducing(log, archive, j)
  {
    if CopiesFirst(log, archive, i, j) {
      MergeCopy(log, archive, now, i, j);
      MergeAccounting(log, archive, now, i + 1, j);
    } else if j < |log.adds| {
      MergeEmit(log, archive, now, i, j);
      MergeAccounting(log, archive, now, i, j + 1);
    }
  }

  /** The output holds exactly the surviving originals and the entries the
      edits write, each as often as it occurs there. */
  lemma MergeContents(log: EditLog, archive: seq<Entry>, now: int, i: nat, j: nat)
    requires i <= |archive| && j <= |log.adds|
    ensures multiset(Merge(log, archive, now, i, j).out)
         == multiset(Survivors(log, archive, i)) + multiset(Emitted(log, archive, now, j))
  {
    var m := Merge(log, archive, now, i, j).out;
    var s := Survivors(log, archive, i);
    var e := Emitted(log, archive, now, j);
    forall x | true
      ensures multiset(m)[x] == (multiset(s) + multiset(e))[x]
    {
      ContentsFrom(log, archive, now, i, j, x);
      OccurrencesMultiplicity(m, x);
      OccurrencesMultiplicity(s, x);
      OccurrencesMultiplicity(e, x);
    }
    assert multiset(m) == multiset(s) + multiset(e);
  }

  /** How often `x` occurs in `s`. */
  function Occurrences(s: seq<Entry>, x: Entry): nat
  {
    if s == [] then 0 else (if s[0] == x then 1 else 0) + Occurrences(s[1..], x)
  }

  lemma {:induction false} OccurrencesConcat(a: seq<Entry>, b: seq<Entry>, x: Entry)
    ensures Occurrences(a + b, x) == Occurrences(a, x) + Occurrences(b, x)
  {
    if a == [] {
      assert a + b == b;
    } else {
      assert (a + b)[1..] == a[1..] + b;
      OccurrencesConcat(a[1..], b, x);
    }
  }

  lemma {:induction false} OccurrencesMultiplicity(s: seq<Entry>, x: Entry)
    ensures multiset(s)[x] == Occurrences(s, x)
  {
    if s != [] {
      assert s == [s[0]] + s[1..];
      assert multiset(s) == multiset{s[0]} + multiset(s[1..]);
      OccurrencesMultiplicity(s[1..], x);
    }
  }

  /** The count of `x` in the merge from (i, j) is its count among the
      survivors plus its count among the emitted entries. */
  ghost predicate ContentsAgree(log: EditLog, archive: seq<Entry>, now: int, i: nat, j: nat, x: Entry)
    requires i <= |archive| && j <= |log.adds|
  {
    Occurrences(Merge(log, archive, now, i, j).out, x)
    == Occurrences(Survivors(log, archive, i), x) + Occurrences(Emitted(log, archive, now, j), x)
  }

  lemma {:induction false} ContentsFrom(log: EditLog, archive: seq<Entry>, now: int, i: nat, j: nat, x: Entry)
    requires i <= |archive| && j <= |log.adds|
    decreases |archive| - i + |log.adds| - j
    ensures ContentsAgree(log, archive, now, i, j, x)
  {
    if CopiesFirst(log, archive, i, j) {
      ContentsFrom(log, archive, now, i + 1, j, x);
      ContentsAfterCopy(log, archive, now, i, j, x);
    } else if j < |log.adds| {
      ContentsFrom(log, archive, now, i, j + 1, x);
      ContentsAfterEmit(log, archive, now, i, j, x);
    } else {
      ContentsAtEnd(log, archive, now, i, j, x);
    }
  }

  lemma ContentsAtEnd(log: EditLog, archive: seq<Entry>, now: int, i: nat, j: nat, x: Entry)
    requires i <= |archive| && j == |log.adds|
    requires !CopiesFirst(log, archive, i, j)
    ensures ContentsAgree(log, archive, now, i, j, x)
  {
    assert i == |archive|;
    assert Merge(log, archive, now, i, j) == Nothing;
    assert Survivors(log, archive, i) == [] && Emitted(log, archive, now, j) == [];
  }

  lemma ContentsAfterCopy(log: EditLog, archive: seq<Entry>, now: int, i: nat, j: nat, x: Entry)
    requires i < |archive| && j <= |log.adds|
    requires CopiesFirst(log, archive, i, j)
    requires ContentsAgree(log, archive, now, i + 1, j, x)
    ensures ContentsAgree(log, archive, now, i, j, x)
  {
    var p := Pass(log, archive[i]).out;
    var rest := Merge(log, archive, now, i + 1, j).out;
    MergeCopy(log, archive, now, i, j);
    assert Merge(log, archive, now, i, j).out == p + rest;
    assert Survivors(log, archive, i) == p + Survivors(log, archive, i + 1);
    OccurrencesConcat(p, rest, x);
    OccurrencesConcat(p, Survivors(log, archive, i + 1), x);
  }

  lemma ContentsAfterEmit(log: EditLog, archive: seq<Entry>, now: int, i: nat, j: nat, x: Entry)
    requires i <= |archive| && j < |log.adds|
    requires !CopiesFirst(log, archive, i, j)
    requires ContentsAgree(log, archive, now, i, j + 1, x)
    ensures ContentsAgree(log, archive, now, i, j, x)
  {
    var e := Emit(log, archive, now, j).out;
    var rest := Merge(log, archive, now, i, j + 1).out;
    MergeEmit(log, archive, now, i, j);
    assert Merge(log, archive, now, i, j).out == e + rest;
    assert Emitted(log, archive, now, j) == e + Emitted(log, archive, now, j + 1);
    OccurrencesConcat(e, rest, x);
    OccurrencesConcat(e, Emitted(log, archive, now, j + 1), x);
  }

  /** No written edit lands on the name of an original entry that is kept
      (ZipOutputStream would refuse the duplicate). */
  ghost predicate NoCollision(log: EditLog, archive: seq<Entry>)
  {
    forall k, x ::
      0 <= k < |log.adds| && 0 <= x < |archive| && Produces(log, archive, k) && !Dropped(log, archive[x].name)
      ==> archive[x].name != log.adds[k].0
  }

  /** Every name written from position (i, j) on sorts after `lo` when every
      kept original and every written edit key from there on does. */
  lemma {:induction false} MergeAbove(log: EditLog, archive: seq<Entry>, now: int, i: nat, j: nat, lo: string)
    requires i <= |archive| && j <= |log.adds|
    requires forall x :: i <= x < |archive| && !Dropped(log, archive[x].name) ==> Less(lo, archive[x].name)
    requires forall k :: j <= k < |log.adds| && Produces(log, archive, k) ==> Less(lo, log.adds[k].0)
    decreases |archive| - i + |log.adds| - j
    ensures forall x :: 0 <= x < |Merge(log, archive, now, i, j).out| ==> Less(lo, Merge(log, archive, now, i, j).out[x].name)
  {
    if CopiesFirst(log, archive, i, j) {
      MergeCopy(log, archive, now, i, j);
      MergeAbove(log, archive, now, i + 1, j, lo);
    } else if j < |log.adds| {
      MergeEmit(log, archive, now, i, j);
      MergeAbove(log, archive, now, i, j + 1, lo);
    }
  }

  /** Sorted in, sorted out: when the original names strictly ascend, the
      edit keys ascend (as a TreeMap's do) and no written edit collides with
      a kept original, the output names strictly ascend, so every edit is
      written after the originals that sort before its key and before those
      that sort after it. */
  lemma {:induction false} MergeAscending(log: EditLog, archive: seq<Entry>, now: int, i: nat, j: nat)
    requires i <= |archive| && j <= |log.adds|
    requires NamesAscending(archive)
    requires StrictlySorted(log.adds)
    requires NoCollision(log, archive)
    decreases |archive| - i + |log.adds| - j
    ensures NamesAscending(Merge(log, archive, now, i, j).out)
  {
    if CopiesFirst(log, archive, i, j) {
      MergeAscending(log, archive, now, i + 1, j);
      AscendingAfterCopy(log, archive, now, i, j);
    } else if j < |log.adds| {
      MergeAscending(log, archive, now, i, j + 1);
      AscendingAfterEmit(log, archive, now, i, j);
    }
  }

  lemma AscendingAfterCopy(log: EditLog, archive: seq<Entry>, now: int, i: nat, j: nat)
    requires i < |archive| && j <= |log.adds|
    requires CopiesFirst(log, archive, i, j)
    requires NamesAscending(archive)
    requires StrictlySorted(log.adds)
    requires NamesAscending(Merge(log, archive, now, i + 1, j).out)
    ensures NamesAscending(Merge(log, archive, now, i, j).out)
  {
    MergeCopy(log, archive, now, i, j);
    var rest := Merge(log, archive, now, i + 1, j).out;
    if Dropped(log, archive[i].name) {
      assert Merge(log, archive, now, i, j).out == rest;
    } else {
      var lo := archive[i].name;
      forall k | j <= k < |log.adds| && Produces(log, archive, k) ensures Less(lo, log.adds[k].0) {
        if k > j {
          LessTransitive(lo, log.adds[j].0, log.adds[k].0);
        }
      }
      MergeAbove(log, archive, now, i + 1, j, lo);
      assert Merge(log, archive, now, i, j).out == [archive[i]] + rest;
      AscendingCons(archive[i], rest);
    }
  }

  lemma AscendingAfterEmit(log: EditLog, archive: seq<Entry>, now: int, i: nat, j: nat)
    requires i <= |archive| && j < |log.adds|
    requires !CopiesFirst(log, archive, i, j)
    requires NamesAscending(archive)
    requires StrictlySorted(log.adds)
    requires NoCollision(log, archive)
    requires NamesAscending(Merge(log, archive, now, i, j + 1).out)
    ensures NamesAscending(Merge(log, archive, now, i, j).out)
  {
    MergeEmit(log, archive, now, i, j);
    var rest := Merge(log, archive, now, i, j + 1).out;
    var lo := log.adds[j].0;
    if Produces(log, archive, j) {
      forall x | i <= x < |archive| && !Dropped(log, archive[x].name) ensures Less(lo, archive[x].name) {
        // at x == i, the cursor entry neither sorts before lo (the merge
        // would have copied it first) nor equals it (NoCollision)
        if archive[i].name != lo {
          LessTotal(lo, archive[i].name);
          if x > i {
            LessTransitive(lo, archive[i].name, archive[x].name);
          }
        }
      }
      MergeAbove(log, archive, now, i, j + 1, lo);
      var h := Emit(log, archive, now, j).out;
      assert |h| == 1 && h[0].name == lo;
      assert Merge(log, archive, now, i, j).out == [h[0]] + rest;
      AscendingCons(h[0], rest);
    } else {
      assert Merge(log, archive, now, i, j).out == rest;
    }
  }

  lemma AscendingCons(h: Entry, rest: seq<Entry>)
    requires NamesAscending(rest)
    requires forall x :: 0 <= x < |rest| ==> Less(h.name, rest[x].name)
    ensures NamesAscending([h] + rest)
  {
    var s := [h] + rest;
    forall a, b | 0 <= a < b < |s| ensures Less(s[a].name, s[b].name) {
      assert s[b] == rest[b - 1];
      if a > 0 {
        assert s[a] == rest[a - 1];
      }
    }
  }


  /** The kept originals carry different names. */
  ghost predicate KeptDistinct(log: EditLog, archive: seq<Entry>)
  {
    forall a, b ::
      0 <= a < b < |archive| && !Dropped(log, archive[a].name) && !Dropped(log, archive[b].name)
      ==> archive[a].name != archive[b].name
  }

  /** `name` is written by no kept original from `i` on and by no
      producing edit from `j` on, so it appears nowhere in the output. */
  lemma {:induction false} MergeAvoids(log: EditLog, archive: seq<Entry>, now: int, i: nat, j: nat, n: string)
    requires i <= |archive| && j <= |log.adds|
    requires forall x :: i <= x < |archive| && !Dropped(log, archive[x].name) ==> archive[x].name != n
    requires forall k :: j <= k < |log.adds| && Produces(log, archive, k) ==> log.adds[k].0 != n
    decreases |archive| - i + |log.adds| - j
    ensures forall x :: 0 <= x < |Merge(log, archive, now, i, j).out| ==> Merge(log, archive, now, i, j).out[x].name != n
  {
    if CopiesFirst(log, archive, i, j) {
      MergeCopy(log, archive, now, i, j);
      MergeAvoids(log, archive, now, i + 1, j, n);
    } else if j < |log.adds| {
      MergeEmit(log, archive, now, i, j);
      MergeAvoids(log, archive, now, i, j + 1, n);
    }
  }

  /** No name is written twice, whatever the order of the archive: the
      condition under which ZipOutputStream accepts every entry. */
  lemma {:induction false} MergeDistinct(log: EditLog, archive: seq<Entry>, now: int, i: nat, j: nat)
    requires i <= |archive| && j <= |log.adds|
    requires StrictlySorted(log.adds)
    requires KeptDistinct(log, archive)
    requires NoCollision(log, archive)
    decreases |archive| - i + |log.adds| - j
    ensures DistinctNames(Merge(log, archive, now, i, j).out)
  {
    if CopiesFirst(log, archive, i, j) {
      MergeDistinct(log, archive, now, i + 1, j);
      DistinctAfterCopy(log, archive, now, i, j);
    } else if j < |log.adds| {
      MergeDistinct(log, archive, now, i, j + 1);
      DistinctAfterEmit(log, archive, now, i, j);
    }
  }

  lemma DistinctAfterCopy(log: EditLog, archive: seq<Entry>, now: int, i: nat, j: nat)
    requires i < |archive| && j <= |log.adds|
    requires CopiesFirst(log, archive, i, j)
    requires KeptDistinct(log, archive)
    requires NoCollision(log, archive)
    requires DistinctNames(Merge(log, archive, now, i + 1, j).out)
    ensures DistinctNames(Merge(log, archive, now, i, j).out)
  {
    MergeCopy(log, archive, now, i, j);
    var rest := Merge(log, archive, now, i + 1, j).out;
    if Dropped(log, archive[i].name) {
      assert Merge(log, archive, now, i, j).out == rest;
    } else {
      MergeAvoids(log, archive, now, i + 1, j, archive[i].name);
      assert Merge(log, archive, now, i, j).out == [archive[i]] + rest;
      DistinctCons(archive[i], rest);
    }
  }

  lemma DistinctAfterEmit(log: EditLog, archive: seq<Entry>, now: int, i: nat, j: nat)
    requires i <= |archive| && j < |log.adds|
    requires !CopiesFirst(log, archive, i, j)
    requires StrictlySorted(log.adds)
    requires NoCollision(log, archive)
    requires DistinctNames(Merge(log, archive, now, i, j + 1).out)
    ensures DistinctNames(Merge(log, archive, now, i, j).out)
  {
    MergeEmit(log, archive, now, i, j);
    var rest := Merge(log, archive, now, i, j + 1).out;
    if Produces(log, archive, j) {
      var key := log.adds[j].0;
      forall k | j + 1 <= k < |log.adds| && Produces(log, archive, k) ensures log.adds[k].0 != key {
        LessIrreflexive(key);
      }
      MergeAvoids(log, archive, now, i, j + 1, key);
      var h := Emit(log, archive, now, j).out;
      assert |h| == 1 && h[0].name == key;
      assert Merge(log, archive, now, i, j).out == [h[0]] + rest;
      DistinctCons(h[0], rest);
    } else {
      assert Merge(log, archive, now, i, j).out == rest;
    }
  }

  lemma DistinctCons(h: Entry, rest: seq<Entry>)
    requires DistinctNames(rest)
    requires forall x :: 0 <= x < |rest| ==> rest[x].name != h.name
    ensures DistinctNames([h] + rest)
  {
    var s := [h] + rest;
    forall a, b | 0 <= a < b < |s| ensures s[a].name != s[b].name {
      assert s[b] == rest[b - 1];
      if a > 0 {
        assert s[a] == rest[a - 1];
      }
    }
  }


  /** A merge that counts no add and no delete has copied the archive from
      `i` on unchanged. */
  lemma {:induction false} MergeUnchanged(log: EditLog, archive: seq<Entry>, now: int, i: nat, j: nat)
    requires i <= |archive| && j <= |log.adds|
    requires Merge(log, archive, now, i, j).adds == 0 && Merge(log, archive, now, i, j).deletes == 0
    decreases |archive| - i + |log.adds| - j
    ensures Merge(log, archive, now, i, j).out == archive[i..]
  {
    if CopiesFirst(log, archive, i, j) {
      MergeCopy(log, archive, now, i, j);
      var p := Pass(log, archive[i]);
      var rest := Merge(log, archive, now, i + 1, j);
      assert p.deletes == 0 && rest.deletes == 0 && rest.adds == 0;
      MergeUnchanged(log, archive, now, i + 1, j);
      assert p.out == [archive[i]];
      assert archive[i..] == [archive[i]] + archive[i + 1..];
    } else if j < |log.adds| {
      MergeEmit(log, archive, now, i, j);
      var e := Emit(log, archive, now, j);
      var rest := Merge(log, archive, now, i, j + 1);
      assert e.adds == 0 && rest.deletes == 0 && rest.adds == 0;
      MergeUnchanged(log, archive, now, i, j + 1);
      assert e.out == [];
      assert e.out + rest.out == rest.out;
    } else {
      assert archive[i..] == [];
    }
  }


  /** The archive file after `process()`: untouched when nothing changed and
      it was a readable archive, removed when nothing changed otherwise (the
      output file then is the original path), and the written entries when
      anything changed. */
  function Outcome(disk: ArchiveFile, t: Tally): ArchiveFile
  {
    if t.adds + t.deletes == 0 then (if disk.Zip? then disk else Missing)
    else Zip(t.out)
  }

  /** Whichever branch is taken, reading the archive after the commit gives
      exactly what the merge wrote. */
  lemma CommitReadsBack(log: EditLog, disk: ArchiveFile, now: int)
    ensures EntriesOf(Outcome(disk, Commit(log, EntriesOf(disk), now))) == Commit(log, EntriesOf(disk), now).out
  {
    var archive := EntriesOf(disk);
    var t := Commit(log, archive, now);
    if t.adds + t.deletes == 0 {
      MergeUnchanged(log, archive, now, 0, 0);
      assert archive[0..] == archive;
      assert t.out == archive;
    }
  }

  /** Every PUT and MKDIR key is also a pending delete, as `add` and
      `mkdir` record it; only RENAME targets are not. */
  ghost predicate WriteKeysDeleted(log: EditLog)
  {
    forall e :: e in log.adds && !e.1.Rename? ==> e.0 in log.deletes
  }

  /** A RENAME whose source exists does not target a kept original. */
  ghost predicate RenameTargetsFree(log: EditLog, archive: seq<Entry>)
  {
    forall k, x ::
      0 <= k < |log.adds| && 0 <= x < |archive| && log.adds[k].1.Rename? && Produces(log, archive, k)
      && !Dropped(log, archive[x].name)
      ==> archive[x].name != log.adds[k].0
  }

  /** Since PUT and MKDIR delete their key, only a RENAME can collide. */
  lemma NoCollisionFromRenames(log: EditLog, archive: seq<Entry>)
    requires WriteKeysDeleted(log)
    requires RenameTargetsFree(log, archive)
    ensures NoCollision(log, archive)
  {
    forall k, x | 0 <= k < |log.adds| && 0 <= x < |archive| && Produces(log, archive, k) && !Dropped(log, archive[x].name)
      ensures archive[x].name != log.adds[k].0
    {
      assert log.adds[k] in log.adds;
    }
  }
}
