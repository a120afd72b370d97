/** The read-only directory view of `entries(prefix)`: immediate children of
    a prefix over the flat namespace, with directory markers synthesised
    for subdirectories that only deeper entries imply. */
module Listings {
  import opened JavaStrings
  import opened Wrappers
  import opened Archives
  import opened Paths

  /** Characters with a meaning in a java.util.regex pattern outside a
      character class. */
  predicate IsRegexMeta(c: char)
  {
    c in "\\^$.|?*+()[]{}"
  }

  /** A prefix that the pattern built from it matches literally. */
  predicate IsLiteralPattern(s: string)
  {
    forall i :: 0 <= i < |s| ==> !IsRegexMeta(s[i])
  }

  /** `.` matches every character but a line terminator. */
  predicate NoLineTerminator(s: string)
  {
    forall i :: 0 <= i < |s| ==> !IsLineTerminator(s[i])
  }

  /** The groups of `^q([^/]+)(?:/(.*))?$`: group 1, and group 2 when the
      optional part took part in the match. */
  datatype ChildMatch = ChildMatch(segment: string, remainder: Option<string>)

  function Tail(m: ChildMatch): string
  {
    match m.remainder
    case None => []
    case Some(r) => [Delimiter] + r
  }

  /** `m` is a way for the pattern to match `name` in full. */
  ghost predicate IsChildMatch(q: string, name: string, m: ChildMatch)
  {
    && m.segment != []
    && Delimiter !in m.segment
    && (m.remainder.Some? ==> NoLineTerminator(m.remainder.value))
    && name == q + m.segment + Tail(m)
  }

  function FirstDelimiter(s: string): (k: nat)
    ensures k <= |s|
    ensures k < |s| ==> s[k] == Delimiter
    ensures Delimiter !in s[..k]
  {
    if s == [] || s[0] == Delimiter then 0
    else
      var k := 1 + FirstDelimiter(s[1..]);
      assert s[..k] == [s[0]] + s[1..][..k - 1];
      k
  }

  lemma {:induction false} FirstDelimiterAfter(seg: string, t: string)
    requires Delimiter !in seg
    requires t == [] || t[0] == Delimiter
    ensures FirstDelimiter(seg + t) == |seg|
  {
    if seg != [] {
      assert (seg + t)[1..] == seg[1..] + t;
      FirstDelimiterAfter(seg[1..], t);
    }
  }

  /** `Matcher.matches()` for the pattern with the literal prefix `q`: the
      segment runs to the first '/' after `q` (see MatchChildCorrect). */
  function MatchChild(q: string, name: string): Option<ChildMatch>
  {
    if !StartsWith(name, q) then None
    else
      var tail := name[|q|..];
      var k := FirstDelimiter(tail);
      if k == 0 then None
      else if k == |tail| then Some(ChildMatch(tail, None))
      else if NoLineTerminator(tail[k + 1..]) then Some(ChildMatch(tail[..k], Some(tail[k + 1..])))
      else None
  }

  /** A full match fixes both groups: group 1 ends at the first '/' after
      `q`, and group 2 is whatever follows that '/'. */
  lemma MatchDetermined(q: string, name: string, m: ChildMatch)
    requires IsChildMatch(q, name, m)
    ensures StartsWith(name, q)
    ensures FirstDelimiter(name[|q|..]) == |m.segment|
    ensures m.segment == name[|q|..][..|m.segment|]
    ensures m.remainder.None? <==> |m.segment| == |name[|q|..]|
    ensures m.remainder.Some? ==> m.remainder.value == name[|q|..][|m.segment| + 1..]
  {
    var t := m.segment + Tail(m);
    assert name == q + t;
    assert name[..|q|] == q;
    assert name[|q|..] == t;
    FirstDelimiterAfter(m.segment, Tail(m));
    assert t[..|m.segment|] == m.segment;
    if m.remainder.Some? {
      assert t[|m.segment| + 1..] == m.remainder.value;
    }
  }

  /** Whenever the pattern matches `name`, MatchChild finds that match. */
  lemma MatchChildFinds(q: string, name: string, m: ChildMatch)
    requires IsChildMatch(q, name, m)
    ensures MatchChild(q, name) == Some(m)
  {
    MatchDetermined(q, name, m);
    var tail := name[|q|..];
    var k := |m.segment|;
    assert m == ChildMatch(tail[..k], m.remainder);
    if m.remainder.None? {
      assert tail[..k] == tail;
    } else {
      assert NoLineTerminator(tail[k + 1..]);
    }
  }

  /** What MatchChild returns is a full match of the pattern. */
  lemma MatchChildSound(q: string, name: string)
    ensures MatchChild(q, name).Some? ==> IsChildMatch(q, name, MatchChild(q, name).value)
  {
    var r := MatchChild(q, name);
    if r.Some? {
      var tail := name[|q|..];
      var k := FirstDelimiter(tail);
      assert name == q + tail;
      if k == |tail| {
        assert tail + Tail(r.value) == tail;
      } else {
        assert tail == tail[..k] + ([Delimiter] + tail[k + 1..]);
      }
    }
  }

  /** MatchChild is the regular expression's verdict: it returns a match
      exactly when the pattern matches, and then the only one. */
  lemma MatchChildCorrect(q: string, name: string)
    ensures MatchChild(q, name).Some? ==> IsChildMatch(q, name, MatchChild(q, name).value)
    ensures forall m :: IsChildMatch(q, name, m) ==> MatchChild(q, name) == Some(m)
  {
    MatchChildSound(q, name);
    forall m | IsChildMatch(q, name, m) ensures MatchChild(q, name) == Some(m) {
      MatchChildFinds(q, name, m);
    }
  }

  /** Group 2 took part and is not empty: the entry lies deeper than one
      level below `q`. */
  predicate HasSuffix(m: ChildMatch)
  {
    m.remainder.Some? && m.remainder.value != []
  }

  /** `name` is `q + seg` or `q + seg + "/"`: an immediate child of `q`. */
  predicate IsDirectChild(q: string, name: string)
  {
    MatchChild(q, name).Some? && !HasSuffix(MatchChild(q, name).value)
  }

  /** The subdirectory `q + seg + "/"` that a deeper descendant implies. */
  function ImpliedDir(q: string, name: string): (r: Option<string>)
    ensures r.Some? ==> StartsWith(r.value, q) && StartsWith(name, r.value) && |q| < |r.value| < |name|
    ensures r.Some? ==> r.value[|r.value| - 1] == Delimiter
  {
    MatchChildSound(q, name);
    match MatchChild(q, name)
    case None => None
    case Some(m) =>
      if HasSuffix(m) then
        var d := q + m.segment + [Delimiter];
        assert name == d + m.remainder.value;
        Some(d)
      else None
  }

  /** The implied subdirectory is itself an immediate child of `q`. */
  lemma ImpliedDirIsChild(q: string, name: string)
    requires ImpliedDir(q, name).Some?
    ensures IsDirectChild(q, ImpliedDir(q, name).value)
  {
    MatchChildSound(q, name);
    var m := MatchChild(q, name).value;
    var d := ImpliedDir(q, name).value;
    assert IsChildMatch(q, name, m) && HasSuffix(m);
    assert d == q + m.segment + [Delimiter];
    var c := ChildMatch(m.segment, Some([]));
    assert Tail(c) == [Delimiter];
    assert IsChildMatch(q, d, c);
    MatchChildFinds(q, d, c);
    assert !HasSuffix(c);
  }

  /** The names of the explicit directory markers (`endsWith("/")`). */
  function DirNames(es: seq<Entry>): set<string>
  {
    set x | 0 <= x < |es| && EndsWith(es[x].name, [Delimiter]) :: es[x].name
  }

  /** What one entry contributes to `entries(prefix)`, given the directory
      names known so far: itself when it is an immediate child; a marker
      stamped with its time for an implied subdirectory not yet known. */
  function ListStep(q: string, e: Entry, dirs: set<string>): seq<Entry>
  {
    if IsDirectChild(q, e.name) then [e]
    else
      match ImpliedDir(q, e.name)
      case None => []
      case Some(sub) => if sub in dirs then [] else [Entry(sub, NoData, e.time)]
  }

  /** The directory names known after entry `e` has been seen. */
  function KnownAfter(q: string, e: Entry, dirs: set<string>): set<string>
  {
    if !IsDirectChild(q, e.name) && ImpliedDir(q, e.name).Some? then
      dirs + {ImpliedDir(q, e.name).value}
    else dirs
  }

  /** What the loop of `entries(prefix)` returns for entries `es`, starting
      from the known directory names `dirs`. */
  function Listing(q: string, es: seq<Entry>, dirs: set<string>): seq<Entry>
    decreases |es|
  {
    if es == [] then []
    else ListStep(q, es[0], dirs) + Listing(q, es[1..], KnownAfter(q, es[0], dirs))
  }

  lemma ListingAt(q: string, es: seq<Entry>, x: nat, dirs: set<string>)
    requires x < |es|
    ensures Listing(q, es[x..], dirs) == ListStep(q, es[x], dirs) + Listing(q, es[x + 1..], KnownAfter(q, es[x], dirs))
  {
    assert es[x..][1..] == es[x + 1..];
  }

  /** One turn of the loop of `entries(prefix)`: appending the step's
      output and recording its directory keeps the loop's account. */
  lemma ListingLoopStep(q: string, es: seq<Entry>, x: nat, dirs: set<string>, before: seq<Entry>, goal: seq<Entry>,
                        after: seq<Entry>, dirs': set<string>)
    requires x < |es|
    requires before + Listing(q, es[x..], dirs) == goal
    requires after == before + ListStep(q, es[x], dirs) && dirs' == KnownAfter(q, es[x], dirs)
    ensures after + Listing(q, es[x + 1..], dirs') == goal
  {
    ListingAt(q, es, x, dirs);
    var step := ListStep(q, es[x], dirs);
    var rest := Listing(q, es[x + 1..], dirs');
    assert (before + step) + rest == before + (step + rest);
  }

  /** The step in terms of the match itself, as the loop of
      `entries(prefix)` takes it. */
  lemma ListStepByMatch(q: string, e: Entry, dirs: set<string>)
    ensures MatchChild(q, e.name).None? ==> ListStep(q, e, dirs) == [] && KnownAfter(q, e, dirs) == dirs
    ensures MatchChild(q, e.name).Some? && !HasSuffix(MatchChild(q, e.name).value)
            ==> ListStep(q, e, dirs) == [e] && KnownAfter(q, e, dirs) == dirs
    ensures MatchChild(q, e.name).Some? && HasSuffix(MatchChild(q, e.name).value) ==>
              var sub := q + MatchChild(q, e.name).value.segment + [Delimiter];
              && ListStep(q, e, dirs) == (if sub in dirs then [] else [Entry(sub, NoData, e.time)])
              && KnownAfter(q, e, dirs) == dirs + {sub}
  {
  }

  /** Output entry `e` is accounted for by input entry `y`: it is that
      entry, an immediate child of `q`, or it is the marker of the
      subdirectory `y` implies, not explicitly present, with `y`'s time,
      and `y` is the first entry to imply it. */
  ghost predicate Explains(q: string, es: seq<Entry>, dirs: set<string>, y: nat, e: Entry)
    requires y < |es|
  {
    || (e == es[y] && IsDirectChild(q, e.name))
    || (&& ImpliedDir(q, es[y].name) == Some(e.name)
        && e == Entry(e.name, NoData, es[y].time)
        && e.name !in dirs
        && forall z :: 0 <= z < y ==> ImpliedDir(q, es[z].name) != Some(e.name))
  }

  /** An explanation from the tail of `es` carries over to `es`. */
  lemma ExplainsShift(q: string, es: seq<Entry>, dirs: set<string>, y: nat, e: Entry)
    requires es != [] && y < |es| - 1
    requires Explains(q, es[1..], KnownAfter(q, es[0], dirs), y, e)
    ensures Explains(q, es, dirs, y + 1, e)
  {
    assert es[1..][y] == es[y + 1];
    if !(e == es[y + 1] && IsDirectChild(q, e.name)) {
      forall z | 0 <= z < y + 1 ensures ImpliedDir(q, es[z].name) != Some(e.name) {
        if z > 0 {
          assert es[z] == es[1..][z - 1];
        }
      }
    }
  }

  /** Soundness and order: each listed entry comes from its own input
      entry, and the listing follows input order. */
  lemma {:induction false} ListingTrace(q: string, es: seq<Entry>, dirs: set<string>) returns (origin: seq<nat>)
    decreases |es|
    ensures |origin| == |Listing(q, es, dirs)|
    ensures forall a, b :: 0 <= a < b < |origin| ==> origin[a] < origin[b]
    ensures forall x :: 0 <= x < |origin| ==>
              origin[x] < |es| && Explains(q, es, dirs, origin[x], Listing(q, es, dirs)[x])
  {
    if es == [] {
      return [];
    }
    var dirs' := KnownAfter(q, es[0], dirs);
    var o := ListingTrace(q, es[1..], dirs');
    origin := TraceCons(q, es, dirs, o);
  }

  /** The head entry's contribution is explained by the head itself. */
  lemma HeadExplained(q: string, es: seq<Entry>, dirs: set<string>)
    requires es != [] && ListStep(q, es[0], dirs) != []
    ensures Explains(q, es, dirs, 0, ListStep(q, es[0], dirs)[0])
  {
  }

  /** A trace of the tail's listing, shifted by one, traces the tail's
      contribution within the whole listing. */
  lemma TraceShift(q: string, es: seq<Entry>, dirs: set<string>, o: seq<nat>) returns (shifted: seq<nat>)
    requires es != []
    requires |o| == |Listing(q, es[1..], KnownAfter(q, es[0], dirs))|
    requires forall a, b :: 0 <= a < b < |o| ==> o[a] < o[b]
    requires forall x :: 0 <= x < |o| ==>
               o[x] < |es| - 1 && Explains(q, es[1..], KnownAfter(q, es[0], dirs), o[x], Listing(q, es[1..], KnownAfter(q, es[0], dirs))[x])
    ensures |shifted| == |o|
    ensures forall a, b :: 0 <= a < b < |shifted| ==> shifted[a] < shifted[b]
    ensures forall x :: 0 <= x < |shifted| ==>
              0 < shifted[x] < |es| && Explains(q, es, dirs, shifted[x], Listing(q, es[1..], KnownAfter(q, es[0], dirs))[x])
  {
    var rest := Listing(q, es[1..], KnownAfter(q, es[0], dirs));
    shifted := seq(|o|, x requires 0 <= x < |o| => o[x] + 1);
    forall x | 0 <= x < |o| ensures Explains(q, es, dirs, shifted[x], rest[x]) {
      ExplainsShift(q, es, dirs, o[x], rest[x]);
    }
  }

  /** Headed by the head entry's own contribution, if any, the shifted
      trace traces the whole listing. */
  lemma TraceCons(q: string, es: seq<Entry>, dirs: set<string>, o: seq<nat>) returns (origin: seq<nat>)
    requires es != []
    requires |o| == |Listing(q, es[1..], KnownAfter(q, es[0], dirs))|
    requires forall a, b :: 0 <= a < b < |o| ==> o[a] < o[b]
    requires forall x :: 0 <= x < |o| ==>
               o[x] < |es| - 1 && Explains(q, es[1..], KnownAfter(q, es[0], dirs), o[x], Listing(q, es[1..], KnownAfter(q, es[0], dirs))[x])
    ensures |origin| == |Listing(q, es, dirs)|
    ensures forall a, b :: 0 <= a < b < |origin| ==> origin[a] < origin[b]
    ensures forall x :: 0 <= x < |origin| ==>
              origin[x] < |es| && Explains(q, es, dirs, origin[x], Listing(q, es, dirs)[x])
  {
    var shifted := TraceShift(q, es, dirs, o);
    var head := ListStep(q, es[0], dirs);
    var rest := Listing(q, es[1..], KnownAfter(q, es[0], dirs));
    assert Listing(q, es, dirs) == head + rest;
    if head == [] {
      origin := shifted;
      assert Listing(q, es, dirs) == rest;
    } else {
      HeadExplained(q, es, dirs);
      origin := TraceHead(q, es, dirs, head[0], rest, shifted);
    }
  }

  lemma TraceHead(q: string, es: seq<Entry>, dirs: set<string>, h: Entry, rest: seq<Entry>, shifted: seq<nat>)
    returns (origin: seq<nat>)
    requires es != [] && Explains(q, es, dirs, 0, h)
    requires |shifted| == |rest|
    requires forall a, b :: 0 <= a < b < |shifted| ==> shifted[a] < shifted[b]
    requires forall x :: 0 <= x < |shifted| ==> 0 < shifted[x] < |es| && Explains(q, es, dirs, shifted[x], rest[x])
    ensures |origin| == |[h] + rest|
    ensures forall a, b :: 0 <= a < b < |origin| ==> origin[a] < origin[b]
    ensures forall x :: 0 <= x < |origin| ==> origin[x] < |es| && Explains(q, es, dirs, origin[x], ([h] + rest)[x])
  {
    origin := [0] + shifted;
    TraceHeadExplains(q, es, dirs, h, rest, shifted);
    TraceHeadOrdered(shifted);
  }

  lemma TraceHeadExplains(q: string, es: seq<Entry>, dirs: set<string>, h: Entry, rest: seq<Entry>, shifted: seq<nat>)
    requires es != [] && Explains(q, es, dirs, 0, h)
    requires |shifted| == |rest|
    requires forall x :: 0 <= x < |shifted| ==> 0 < shifted[x] < |es| && Explains(q, es, dirs, shifted[x], rest[x])
    ensures forall x :: 0 <= x < |[0] + shifted| ==>
              ([0] + shifted)[x] < |es| && Explains(q, es, dirs, ([0] + shifted)[x], ([h] + rest)[x])
  {
    var origin := [0] + shifted;
    var out := [h] + rest;
    forall x | 0 <= x < |origin| ensures origin[x] < |es| && Explains(q, es, dirs, origin[x], out[x]) {
      if x == 0 {
        assert origin[0] == 0 && out[0] == h;
      } else {
        assert out[x] == rest[x - 1] && origin[x] == shifted[x - 1];
      }
    }
  }

  lemma TraceHeadOrdered(shifted: seq<nat>)
    requires forall a, b :: 0 <= a < b < |shifted| ==> shifted[a] < shifted[b]
    requires forall x :: 0 <= x < |shifted| ==> 0 < shifted[x]
    ensures forall a, b :: 0 <= a < b < |[0] + shifted| ==> ([0] + shifted)[a] < ([0] + shifted)[b]
  {
    var origin := [0] + shifted;
    forall a, b | 0 <= a < b < |origin| ensures origin[a] < origin[b] {
      assert origin[b] == shifted[b - 1];
      if a > 0 {
        assert origin[a] == shifted[a - 1];
      }
    }
  }

  function Names(es: seq<Entry>): seq<string>
  {
    if es == [] then [] else [es[0].name] + Names(es[1..])
  }

  lemma {:induction false} NamesHas(es: seq<Entry>, e: Entry)
    requires e in es
    ensures e.name in Names(es)
  {
    if es[0] != e {
      NamesHas(es[1..], e);
    }
  }

  lemma {:induction false} NamesAppend(a: seq<Entry>, b: seq<Entry>)
    ensures Names(a + b) == Names(a) + Names(b)
  {
    if a != [] {
      assert (a + b)[1..] == a[1..] + b;
      NamesAppend(a[1..], b);
    } else {
      assert a + b == b;
    }
  }

  /** Completeness: every immediate child of `q` is listed, and every
      implied subdirectory is either already known or listed by name. */
  lemma {:induction false} ListingComplete(q: string, es: seq<Entry>, dirs: set<string>)
    decreases |es|
    ensures forall y :: 0 <= y < |es| && IsDirectChild(q, es[y].name) ==> es[y] in Listing(q, es, dirs)
    ensures forall y :: 0 <= y < |es| && ImpliedDir(q, es[y].name).Some? ==>
              ImpliedDir(q, es[y].name).value in dirs || ImpliedDir(q, es[y].name).value in Names(Listing(q, es, dirs))
  {
    if es != [] {
      ListingComplete(q, es[1..], KnownAfter(q, es[0], dirs));
      CompleteCons(q, es, dirs);
    }
  }

  lemma CompleteCons(q: string, es: seq<Entry>, dirs: set<string>)
    requires es != []
    requires var rest := Listing(q, es[1..], KnownAfter(q, es[0], dirs));
      && (forall y :: 0 <= y < |es[1..]| && IsDirectChild(q, es[1..][y].name) ==> es[1..][y] in rest)
      && (forall y :: 0 <= y < |es[1..]| && ImpliedDir(q, es[1..][y].name).Some? ==>
            ImpliedDir(q, es[1..][y].name).value in KnownAfter(q, es[0], dirs)
            || ImpliedDir(q, es[1..][y].name).value in Names(rest))
    ensures forall y :: 0 <= y < |es| && IsDirectChild(q, es[y].name) ==> es[y] in Listing(q, es, dirs)
    ensures forall y :: 0 <= y < |es| && ImpliedDir(q, es[y].name).Some? ==>
              ImpliedDir(q, es[y].name).value in dirs || ImpliedDir(q, es[y].name).value in Names(Listing(q, es, dirs))
  {
    var head := ListStep(q, es[0], dirs);
    var rest := Listing(q, es[1..], KnownAfter(q, es[0], dirs));
    assert Listing(q, es, dirs) == head + rest;
    ChildrenCons(q, es, dirs, head, rest);
    ImpliedCons(q, es, dirs, head, rest);
  }

  lemma ChildrenCons(q: string, es: seq<Entry>, dirs: set<string>, head: seq<Entry>, rest: seq<Entry>)
    requires es != [] && head == ListStep(q, es[0], dirs)
    requires forall y :: 0 <= y < |es[1..]| && IsDirectChild(q, es[1..][y].name) ==> es[1..][y] in rest
    ensures forall y :: 0 <= y < |es| && IsDirectChild(q, es[y].name) ==> es[y] in head + rest
  {
    forall y | 0 <= y < |es| && IsDirectChild(q, es[y].name) ensures es[y] in head + rest {
      if y == 0 {
        assert head == [es[0]];
      } else {
        assert es[y] == es[1..][y - 1];
      }
    }
  }

  lemma ImpliedCons(q: string, es: seq<Entry>, dirs: set<string>, head: seq<Entry>, rest: seq<Entry>)
    requires es != [] && head == ListStep(q, es[0], dirs)
    requires forall y :: 0 <= y < |es[1..]| && ImpliedDir(q, es[1..][y].name).Some? ==>
               ImpliedDir(q, es[1..][y].name).value in KnownAfter(q, es[0], dirs)
               || ImpliedDir(q, es[1..][y].name).value in Names(rest)
    ensures forall y :: 0 <= y < |es| && ImpliedDir(q, es[y].name).Some? ==>
              ImpliedDir(q, es[y].name).value in dirs || ImpliedDir(q, es[y].name).value in Names(head + rest)
  {
    NamesAppend(head, rest);
    var sub0 := ImpliedDir(q, es[0].name);
    if sub0.Some? && sub0.value !in dirs {
      assert !IsDirectChild(q, es[0].name);
      assert head == [Entry(sub0.value, NoData, es[0].time)];
      assert Names(head) == [sub0.value];
    }
    forall y | 0 <= y < |es| && ImpliedDir(q, es[y].name).Some?
      ensures ImpliedDir(q, es[y].name).value in dirs || ImpliedDir(q, es[y].name).value in Names(head + rest)
    {
      if y > 0 {
        assert es[y] == es[1..][y - 1];
      }
    }
  }

  lemma DirNamesTail(es: seq<Entry>)
    requires es != []
    ensures DirNames(es[1..]) <= DirNames(es)
  {
    forall n | n in DirNames(es[1..]) ensures n in DirNames(es) {
      var x :| 0 <= x < |es[1..]| && EndsWith(es[1..][x].name, [Delimiter]) && es[1..][x].name == n;
      assert es[x + 1] == es[1..][x];
    }
  }

  /** The head entry's contribution never shares a name with the rest of the
      listing. */
  lemma HeadApart(q: string, es: seq<Entry>, dirs: set<string>, y: nat, e: Entry)
    requires DistinctNames(es)
    requires DirNames(es) <= dirs
    requires es != [] && y < |es| - 1
    requires Explains(q, es[1..], KnownAfter(q, es[0], dirs), y, e)
    requires ListStep(q, es[0], dirs) != []
    ensures ListStep(q, es[0], dirs)[0].name != e.name
  {
    var h := ListStep(q, es[0], dirs)[0];
    assert es[1..][y] == es[y + 1];
    assert EndsWith(h.name, [Delimiter]) ==> h == es[0] || h.name !in DirNames(es);
  }

  /** No name is listed twice: a marker is synthesised only for a name no
      entry has and at most once, provided the entry names are distinct and
      `dirs` holds every explicit directory name. */
  lemma {:induction false} ListingDistinct(q: string, es: seq<Entry>, dirs: set<string>)
    requires DistinctNames(es)
    requires DirNames(es) <= dirs
    decreases |es|
    ensures DistinctNames(Listing(q, es, dirs))
  {
    if es != [] {
      var dirs' := KnownAfter(q, es[0], dirs);
      var head := ListStep(q, es[0], dirs);
      var rest := Listing(q, es[1..], dirs');
      DirNamesTail(es);
      ListingDistinct(q, es[1..], dirs');
      var o := ListingTrace(q, es[1..], dirs');
      if head != [] {
        forall x | 0 <= x < |rest| ensures head[0].name != rest[x].name {
          HeadApart(q, es, dirs, o[x], rest[x]);
        }
      }
    }
  }

  /** `entries(prefix)` over the whole archive: every implied subdirectory
      is listed, as its explicit marker or as a synthesised one. */
  lemma ListingCoversImpliedDirs(q: string, es: seq<Entry>)
    ensures forall y :: 0 <= y < |es| && ImpliedDir(q, es[y].name).Some? ==>
              ImpliedDir(q, es[y].name).value in Names(Listing(q, es, DirNames(es)))
  {
    var out := Listing(q, es, DirNames(es));
    ListingComplete(q, es, DirNames(es));
    forall y | 0 <= y < |es| && ImpliedDir(q, es[y].name).Some?
      ensures ImpliedDir(q, es[y].name).value in Names(out)
    {
      var d := ImpliedDir(q, es[y].name).value;
      if d in DirNames(es) {
        var x :| 0 <= x < |es| && EndsWith(es[x].name, [Delimiter]) && es[x].name == d;
        ImpliedDirIsChild(q, es[y].name);
        NamesHas(out, es[x]);
      }
    }
  }

  /** `entry(path)` takes an entry named exactly `path` or `path + "/"`. */
  predicate NamesPath(path: string, name: string)
  {
    name == path || name == Normalize(path)
  }

  /** `i` is the first entry `entry(path)` takes as it is. */
  ghost predicate IsFirstExact(es: seq<Entry>, path: string, i: int)
  {
    && 0 <= i < |es|
    && NamesPath(path, es[i].name)
    && forall z :: 0 <= z < i ==> !NamesPath(path, es[z].name)
  }

  /** `i` is the first entry whose name starts with the directory `dir`. */
  ghost predicate IsFirstUnder(es: seq<Entry>, dir: string, i: int)
  {
    && 0 <= i < |es|
    && StartsWith(es[i].name, dir)
    && forall z :: 0 <= z < i ==> !StartsWith(es[z].name, dir)
  }

  /** The listing of the whole archive, as `entries(prefix)` returns it:
      it holds every immediate child, names every implied subdirectory, and
      repeats no name when the archive does not. */
  lemma ListingProperties(q: string, es: seq<Entry>)
    ensures forall y :: 0 <= y < |es| && IsDirectChild(q, es[y].name) ==> es[y] in Listing(q, es, DirNames(es))
    ensures forall y :: 0 <= y < |es| && ImpliedDir(q, es[y].name).Some?
              ==> ImpliedDir(q, es[y].name).value in Names(Listing(q, es, DirNames(es)))
    ensures DistinctNames(es) ==> DistinctNames(Listing(q, es, DirNames(es)))
  {
    ListingComplete(q, es, DirNames(es));
    ListingCoversImpliedDirs(q, es);
    if DistinctNames(es) {
      ListingDistinct(q, es, DirNames(es));
    }
  }
}
