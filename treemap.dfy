/** The pending-edit map is a `TreeMap<String, Edit>`: a map whose values are
    visited in ascending key order. It is modelled by its in-order view, a
    sequence of key/value pairs whose keys strictly ascend in `compareTo`
    order. */
module TreeMaps {
  import opened JavaStrings

  ghost predicate StrictlySorted<V>(s: seq<(string, V)>)
  {
    forall a, b :: 0 <= a < b < |s| ==> Less(s[a].0, s[b].0)
  }

  /** The mapping the sequence represents. */
  ghost function ToMap<V>(s: seq<(string, V)>): map<string, V>
  {
    if s == [] then map[] else ToMap(s[1..])[s[0].0 := s[0].1]
  }

  /** `TreeMap.put(k, v)`: a pending value at `k` is replaced in place,
      otherwise `(k, v)` is inserted before the first larger key. */
  function Put<V(==)>(s: seq<(string, V)>, k: string, v: V): (r: seq<(string, V)>)
    ensures (k, v) in r
    ensures |r| == |s| || |r| == |s| + 1
  {
    if s == [] then [(k, v)]
    else if s[0].0 == k then [(k, v)] + s[1..]
    else if Less(k, s[0].0) then [(k, v)] + s
    else [s[0]] + Put(s[1..], k, v)
  }

  /** `put` adds `(k, v)`, keeps every pair at another key and drops
      nothing else. */
  lemma {:induction false} PutElements<V>(s: seq<(string, V)>, k: string, v: V)
    ensures forall kv :: kv in Put(s, k, v) ==> kv == (k, v) || kv in s
    ensures forall kv :: kv in s && kv.0 != k ==> kv in Put(s, k, v)
  {
    if s != [] && s[0].0 != k && !Less(k, s[0].0) {
      PutElements(s[1..], k, v);
      assert s == [s[0]] + s[1..];
    }
  }

  /** Last writer wins: after `put`, `k` maps to `v` and every other key
      keeps its value. */
  lemma {:induction false} PutToMap<V>(s: seq<(string, V)>, k: string, v: V)
    ensures ToMap(Put(s, k, v)) == ToMap(s)[k := v]
  {
    if s == [] {
    } else if s[0].0 == k {
      PutToMapAt(s, k, v);
    } else if Less(k, s[0].0) {
      PutToMapBefore(s, k, v);
    } else {
      PutToMap(s[1..], k, v);
      PutToMapAfter(s, k, v);
    }
  }

  lemma PutToMapAt<V>(s: seq<(string, V)>, k: string, v: V)
    requires s != [] && s[0].0 == k
    ensures ToMap(Put(s, k, v)) == ToMap(s)[k := v]
  {
    var m := ToMap(s[1..]);
    assert ToMap(s) == m[k := s[0].1];
    var r := [(k, v)] + s[1..];
    assert Put(s, k, v) == r;
    assert r[1..] == s[1..];
    assert ToMap(r) == m[k := v];
  }

  lemma PutToMapBefore<V>(s: seq<(string, V)>, k: string, v: V)
    requires s != [] && s[0].0 != k && Less(k, s[0].0)
    ensures ToMap(Put(s, k, v)) == ToMap(s)[k := v]
  {
    var r := [(k, v)] + s;
    assert Put(s, k, v) == r;
    assert r[1..] == s;
    assert ToMap(r) == ToMap(s)[k := v];
  }

  lemma PutToMapAfter<V>(s: seq<(string, V)>, k: string, v: V)
    requires s != [] && s[0].0 != k && !Less(k, s[0].0)
    requires ToMap(Put(s[1..], k, v)) == ToMap(s[1..])[k := v]
    ensures ToMap(Put(s, k, v)) == ToMap(s)[k := v]
  {
    var m := ToMap(s[1..]);
    var t := Put(s[1..], k, v);
    var r := [s[0]] + t;
    assert Put(s, k, v) == r;
    assert r[1..] == t;
    assert ToMap(r) == ToMap(t)[s[0].0 := s[0].1];
    assert ToMap(s) == m[s[0].0 := s[0].1];
    UpdatesCommute(m, k, v, s[0].0, s[0].1);
  }

  lemma UpdatesCommute<V>(m: map<string, V>, a: string, x: V, b: string, y: V)
    requires a != b
    ensures m[a := x][b := y] == m[b := y][a := x]
  {
  }

  /** `put` keeps the keys in ascending order. */
  lemma {:induction false} PutSorted<V>(s: seq<(string, V)>, k: string, v: V)
    requires StrictlySorted(s)
    ensures StrictlySorted(Put(s, k, v))
  {
    if s == [] {
    } else if s[0].0 == k {
    } else if Less(k, s[0].0) {
      var r := [(k, v)] + s;
      forall a, b | 0 <= a < b < |r| ensures Less(r[a].0, r[b].0) {
        if a == 0 && b > 1 {
          LessTransitive(k, s[0].0, s[b - 1].0);
        }
      }
    } else {
      LessTotal(k, s[0].0);
      var t := Put(s[1..], k, v);
      PutSorted(s[1..], k, v);
      PutElements(s[1..], k, v);
      var r := [s[0]] + t;
      forall a, b | 0 <= a < b < |r| ensures Less(r[a].0, r[b].0) {
        if a == 0 {
          assert r[b] in t;
          if r[b] != (k, v) {
            var x :| 0 <= x < |s[1..]| && s[1..][x] == r[b];
            assert s[x + 1] == r[b];
          }
        }
      }
    }
  }
}
