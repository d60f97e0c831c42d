/**
 * The Python dictionaries the renderer reads (a row, the `data` mapping, the
 * `specs` mapping), as key/value lists in the order they are iterated, and
 * `dict.update`.
 */
module Dicts {
  import opened Wrappers

  type Dict = seq<(string, string)>

  /** Every key occurs once, as in a Python dict. */
  predicate IsDict(d: Dict)
  {
    forall i, j :: 0 <= i < j < |d| ==> d[i].0 != d[j].0
  }

  predicate HasKey(d: Dict, k: string)
  {
    exists i :: 0 <= i < |d| && d[i].0 == k
  }

  lemma HasKeyCons(d: Dict, k: string)
    requires d != []
    ensures HasKey(d, k) <==> d[0].0 == k || HasKey(d[1..], k)
  {
    if HasKey(d, k) && d[0].0 != k {
      var i :| 0 <= i < |d| && d[i].0 == k;
      assert d[1..][i - 1].0 == k;
    }
    if HasKey(d[1..], k) {
      var i :| 0 <= i < |d[1..]| && d[1..][i].0 == k;
      assert d[i + 1].0 == k;
    }
  }

  /** `d.get(k)`. */
  function Lookup(d: Dict, k: string): (r: Option<string>)
    ensures r.Some? <==> HasKey(d, k)
    ensures r.Some? ==> exists i :: 0 <= i < |d| && d[i] == (k, r.value)
    decreases |d|
  {
    if d == [] then None
    else if d[0].0 == k then
      assert d[0] == (k, d[0].1);
      Some(d[0].1)
    else
      var r := Lookup(d[1..], k);
      HasKeyCons(d, k);
      if r.Some? then
        var i :| 0 <= i < |d[1..]| && d[1..][i] == (k, r.value);
        assert d[i + 1] == (k, r.value);
        r
      else r
  }

  /**
   * `d[k] = v`: an existing key keeps its position and takes the new value; a
   * new key goes at the end.
   */
  function Set(d: Dict, k: string, v: string): (r: Dict)
    ensures |r| == if HasKey(d, k) then |d| else |d| + 1
    ensures forall i :: 0 <= i < |d| ==> r[i].0 == d[i].0
    ensures !HasKey(d, k) ==> r[|d|] == (k, v)
    decreases |d|
  {
    if d == [] then [(k, v)]
    else if d[0].0 == k then
      var r := [(k, v)] + d[1..];
      HasKeyCons(d, k);
      assert r[1..] == d[1..];
      r
    else
      var rest := Set(d[1..], k, v);
      var r := [d[0]] + rest;
      assert r[1..] == rest;
      HasKeyCons(d, k);
      r
  }

  /** After `d[k] = v`, `k` maps to `v` and every other key keeps its value. */
  lemma {:induction false} SetLookup(d: Dict, k: string, v: string, k': string)
    ensures Lookup(Set(d, k, v), k') == if k' == k then Some(v) else Lookup(d, k')
    decreases |d|
  {
    if d != [] && d[0].0 != k {
      var rest := Set(d[1..], k, v);
      SetLookup(d[1..], k, v, k');
      assert Set(d, k, v) == [d[0]] + rest;
      assert ([d[0]] + rest)[1..] == rest;
    } else if d != [] {
      assert Set(d, k, v)[1..] == d[1..];
    }
  }

  /** Setting a key keeps the keys unique. */
  lemma SetKeepsDict(d: Dict, k: string, v: string)
    requires IsDict(d)
    ensures IsDict(Set(d, k, v))
  {
    var r := Set(d, k, v);
    forall i, j | 0 <= i < j < |r| ensures r[i].0 != r[j].0 {
      assert r[i].0 == d[i].0;
      if j < |d| {
        assert r[j].0 == d[j].0;
      } else {
        assert !HasKey(d, k) && r[j].0 == k;
      }
    }
  }

  /** `d.update(e)`: the pairs of `e` are set into `d` in order. */
  function Update(d: Dict, e: Dict): Dict
    decreases |e|
  {
    if e == [] then d else Update(Set(d, e[0].0, e[0].1), e[1..])
  }

  /** After `d.update(e)` a key of `e` has `e`'s value, any other key keeps `d`'s. */
  lemma {:induction false} UpdateOverrides(d: Dict, e: Dict, k: string)
    requires IsDict(e)
    ensures Lookup(Update(d, e), k) == if HasKey(e, k) then Lookup(e, k) else Lookup(d, k)
    decreases |e|
  {
    if e != [] {
      var next := Set(d, e[0].0, e[0].1);
      assert IsDict(e[1..]);
      UpdateOverrides(next, e[1..], k);
      SetLookup(d, e[0].0, e[0].1, k);
      HasKeyCons(e, k);
    }
  }

  /**
   * `d.update(e)` keeps every key of `d` where it was, keeps keys unique and
   * only adds keys of `e`.
   */
  lemma {:induction false} UpdateKeepsOrder(d: Dict, e: Dict)
    ensures |Update(d, e)| >= |d|
    ensures forall i :: 0 <= i < |d| ==> Update(d, e)[i].0 == d[i].0
    ensures IsDict(d) ==> IsDict(Update(d, e))
    ensures forall k :: HasKey(Update(d, e), k) <==> HasKey(d, k) || HasKey(e, k)
    decreases |e|
  {
    if e != [] {
      var next := Set(d, e[0].0, e[0].1);
      if IsDict(d) {
        SetKeepsDict(d, e[0].0, e[0].1);
      }
      UpdateKeepsOrder(next, e[1..]);
      forall k ensures HasKey(Update(d, e), k) <==> HasKey(d, k) || HasKey(e, k) {
        SetLookup(d, e[0].0, e[0].1, k);
        assert Lookup(next, k).Some? <==> Lookup(d, k).Some? || k == e[0].0;
        HasKeyCons(e, k);
      }
    }
  }
}
