/**
 * A JavaScript `Record<string, string>` built by assignments `rec[key] = value`:
 * an insertion-ordered list of entries with distinct keys. Assigning an
 * existing key replaces its value in place; a new key goes to the end.
 * `Object.keys` and `Object.values` read the keys and values in that order.
 */
module Records {

  type Dict = seq<(string, string)>

  /** `Object.keys(d)`. */
  function Keys(d: Dict): seq<string> {
    seq(|d|, i requires 0 <= i < |d| => d[i].0)
  }

  /** `Object.values(d)`. */
  function Values(d: Dict): seq<string> {
    seq(|d|, i requires 0 <= i < |d| => d[i].1)
  }

  /** The keys of a list of pairs, as a set. */
  function KeySet(d: seq<(string, string)>): set<string> {
    set i | 0 <= i < |d| :: d[i].0
  }

  predicate UniqueKeys(d: Dict) {
    forall i, j :: 0 <= i < j < |d| ==> d[i].0 != d[j].0
  }

  /** The lookup table of a list of pairs; a later pair wins over an earlier one. */
  function ToMap(d: seq<(string, string)>): map<string, string> {
    if d == [] then map[] else ToMap(d[..|d| - 1])[d[|d| - 1].0 := d[|d| - 1].1]
  }

  /** The position of key `k` in `d`. */
  function KeyIndex(d: Dict, k: string): (i: nat)
    requires k in KeySet(d)
    ensures i < |d| && d[i].0 == k
  {
    if d[0].0 == k then 0
    else
      KeySetCons(d);
      var j := KeyIndex(d[1..], k);
      assert d[1..][j] == d[j + 1];
      j + 1
  }

  /** `rec[k] = v`. */
  function Set(d: Dict, k: string, v: string): (r: Dict)
    ensures k in KeySet(d) ==> |r| == |d|
    ensures k !in KeySet(d) ==> r == d + [(k, v)]
    ensures KeySet(r) == KeySet(d) + {k}
  {
    if k in KeySet(d) then
      var r := d[KeyIndex(d, k) := (k, v)];
      assert KeySet(r) == KeySet(d) + {k} by {
        forall i | 0 <= i < |d| ensures d[i].0 in KeySet(r) { assert r[i].0 == d[i].0; }
      }
      r
    else
      var r := d + [(k, v)];
      assert r[..|r| - 1] == d;
      KeySetSnoc(r);
      r
  }

  /** On distinct keys, an assignment keeps the keys distinct and updates the table at `k`. */
  lemma SetTable(d: Dict, k: string, v: string)
    requires UniqueKeys(d)
    ensures UniqueKeys(Set(d, k, v)) && ToMap(Set(d, k, v)) == ToMap(d)[k := v]
  {
    var r := Set(d, k, v);
    if k in KeySet(d) {
      var i := KeyIndex(d, k);
      assert r == d[i := (k, v)];
      UpdateMap(d, i, v);
    } else {
      assert r[..|r| - 1] == d;
    }
  }

  /** Assigning an existing key leaves `Object.keys` as it was: the entry keeps its position. */
  lemma SetKeepsOrder(d: Dict, k: string, v: string)
    requires k in KeySet(d)
    ensures Keys(Set(d, k, v)) == Keys(d)
  {
    var r := Set(d, k, v);
    assert r == d[KeyIndex(d, k) := (k, v)];
  }

  /** Replacing the value of an entry with distinct keys updates the table at that key. */
  lemma UpdateMap(d: Dict, i: nat, v: string)
    requires UniqueKeys(d) && i < |d|
    ensures ToMap(d[i := (d[i].0, v)]) == ToMap(d)[d[i].0 := v]
  {
    var r := d[i := (d[i].0, v)];
    var m := ToMap(d)[d[i].0 := v];
    forall j | 0 <= j < |d| ensures r[j].0 == d[j].0 && (j != i ==> r[j] == d[j]) {
    }
    assert UniqueKeys(r);
    assert KeySet(r) == KeySet(d);
    ToMapKeys(d);
    ToMapKeys(r);
    assert ToMap(r).Keys == m.Keys;
    forall x | x in ToMap(r) ensures ToMap(r)[x] == m[x] {
      var j :| 0 <= j < |r| && r[j].0 == x;
      ToMapAt(r, j);
      ToMapAt(d, j);
    }
  }

  /** The record that assigning each pair of `p`, in order, to `{}` builds. */
  function Record(p: seq<(string, string)>): Dict {
    if p == [] then [] else Set(Record(p[..|p| - 1]), p[|p| - 1].0, p[|p| - 1].1)
  }

  /** One more assignment after `p` is one more `Set` on the record `p` built. */
  lemma RecordSnoc(p: seq<(string, string)>, k: string, v: string)
    ensures Record(p + [(k, v)]) == Set(Record(p), k, v)
  {
    assert (p + [(k, v)])[..|p|] == p;
  }

  /** `record[k] = v` on a record built by the assignments `p`. */
  method Assign(d: Dict, ghost p: seq<(string, string)>, k: string, v: string) returns (r: Dict)
    requires d == Record(p)
    ensures r == Record(p + [(k, v)])
  {
    r := Set(d, k, v);
    RecordSnoc(p, k, v);
  }

  lemma KeySetCons(d: seq<(string, string)>)
    requires d != []
    ensures KeySet(d) == {d[0].0} + KeySet(d[1..])
  {
    forall x | x in KeySet(d) ensures x in {d[0].0} + KeySet(d[1..]) {
      var i :| 0 <= i < |d| && d[i].0 == x;
      if i > 0 { assert d[1..][i - 1] == d[i]; }
    }
    forall x | x in KeySet(d[1..]) ensures x in KeySet(d) {
      var i :| 0 <= i < |d[1..]| && d[1..][i].0 == x;
      assert d[i + 1] == d[1..][i];
    }
  }

  lemma KeySetSnoc(d: seq<(string, string)>)
    requires d != []
    ensures KeySet(d) == KeySet(d[..|d| - 1]) + {d[|d| - 1].0}
  {
    var f := d[..|d| - 1];
    forall x | x in KeySet(d) ensures x in KeySet(f) + {d[|d| - 1].0} {
      var i :| 0 <= i < |d| && d[i].0 == x;
      if i < |d| - 1 { assert f[i] == d[i]; }
    }
  }

  /** The keys of the lookup table are exactly the keys of the pairs. */
  lemma {:induction false} ToMapKeys(d: seq<(string, string)>)
    ensures ToMap(d).Keys == KeySet(d)
  {
    if d != [] {
      ToMapKeys(d[..|d| - 1]);
      KeySetSnoc(d);
    }
  }

  /** With distinct keys, every pair is what the table holds for its key. */
  lemma {:induction false} ToMapAt(d: seq<(string, string)>, i: nat)
    requires UniqueKeys(d) && i < |d|
    ensures d[i].0 in ToMap(d) && ToMap(d)[d[i].0] == d[i].1
  {
    var f := d[..|d| - 1];
    if i < |d| - 1 {
      assert f[i] == d[i];
      ToMapAt(f, i);
    }
  }

  /** A record built by assignments has distinct keys. */
  lemma {:induction false} RecordUnique(p: seq<(string, string)>)
    ensures UniqueKeys(Record(p))
  {
    if p != [] {
      RecordUnique(p[..|p| - 1]);
      SetTable(Record(p[..|p| - 1]), p[|p| - 1].0, p[|p| - 1].1);
    }
  }

  /** The record's table is the pairs' table: the last assignment to a key wins. */
  lemma {:induction false} RecordMap(p: seq<(string, string)>)
    ensures ToMap(Record(p)) == ToMap(p)
  {
    if p != [] {
      RecordMap(p[..|p| - 1]);
      RecordUnique(p[..|p| - 1]);
      SetTable(Record(p[..|p| - 1]), p[|p| - 1].0, p[|p| - 1].1);
    }
  }

  /** The record's keys are the keys assigned. */
  lemma {:induction false} RecordKeys(p: seq<(string, string)>)
    ensures KeySet(Record(p)) == KeySet(p)
  {
    if p != [] {
      RecordKeys(p[..|p| - 1]);
      KeySetSnoc(p);
    }
  }

  lemma {:induction false} UniqueSize(d: Dict)
    requires UniqueKeys(d)
    ensures |KeySet(d)| == |d|
  {
    if d != [] {
      var f := d[..|d| - 1];
      assert UniqueKeys(f) by {
        forall i, j | 0 <= i < j < |f| ensures f[i].0 != f[j].0 {
          assert f[i] == d[i] && f[j] == d[j];
        }
      }
      UniqueSize(f);
      KeySetSnoc(d);
      forall i | 0 <= i < |f| ensures f[i].0 != d[|d| - 1].0 {
        assert f[i] == d[i];
      }
    }
  }

  /** `Object.keys(record).length` counts the distinct keys assigned. */
  lemma RecordSize(p: seq<(string, string)>)
    ensures |Record(p)| == |KeySet(p)|
    ensures |Record(p)| == 0 <==> p == []
  {
    RecordUnique(p);
    RecordKeys(p);
    UniqueSize(Record(p));
    if p != [] {
      assert p[|p| - 1].0 in KeySet(p);
    }
  }

  /** What the lookup table holds for a key: the value of the key's last pair. */
  lemma {:induction false} ToMapLast(p: seq<(string, string)>, i: nat)
    requires i < |p|
    requires forall j :: i < j < |p| ==> p[j].0 != p[i].0
    ensures p[i].0 in ToMap(p) && ToMap(p)[p[i].0] == p[i].1
  {
    if i < |p| - 1 {
      var f := p[..|p| - 1];
      assert f[i] == p[i];
      assert forall j :: i < j < |f| ==> f[j] == p[j];
      ToMapLast(f, i);
    }
  }

  /** The table of two lists one after the other: the second list's pairs win. */
  lemma {:induction false} ToMapAppend(p: seq<(string, string)>, q: seq<(string, string)>)
    ensures ToMap(p + q) == ToMap(p) + ToMap(q)
    decreases |q|
  {
    if q != [] {
      assert (p + q)[..|p + q| - 1] == p + q[..|q| - 1];
      ToMapAppend(p, q[..|q| - 1]);
    } else {
      assert p + q == p;
    }
  }
}
