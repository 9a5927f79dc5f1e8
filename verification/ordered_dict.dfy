/**
 A Python `dict[str, str]`: a finite map that also remembers the order in
 which its keys were first inserted (iteration order since Python 3.7).
 */
module OrderedDict {

  /** `keys` is the iteration order and `values` the mapping itself. */
  datatype Dict = Dict(keys: seq<string>, values: map<string, string>)

  /** Every dict value satisfies this: each key is listed once, every listed
      key is mapped, and nothing else is (the map has as many entries as
      there are listed keys). */
  predicate Valid(d: Dict) {
    && (forall i, j | 0 <= i < j < |d.keys| :: d.keys[i] != d.keys[j])
    && (forall i | 0 <= i < |d.keys| :: d.keys[i] in d.values)
    && |d.values| == |d.keys|
  }

  /** `{}` */
  const Empty := Dict([], map[])

  /** `d[k] = v`: a new key is appended at the end of the iteration order;
      an existing key keeps its position and takes the new value. */
  function Put(d: Dict, k: string, v: string): (r: Dict)
    requires Valid(d)
    ensures Valid(r)
    ensures r.values == d.values[k := v]
    ensures k in d.values ==> r.keys == d.keys
    ensures k !in d.values ==> r.keys == d.keys + [k]
  {
    if k in d.values then Dict(d.keys, d.values[k := v])
    else Dict(d.keys + [k], d.values[k := v])
  }

  /** `d` without its most recently inserted key. */
  function DropLast(d: Dict): (r: Dict)
    requires Valid(d) && |d.keys| > 0
    ensures Valid(r)
    ensures r.keys == d.keys[..|d.keys| - 1]
    ensures forall i | 0 <= i < |r.keys| :: r.values[r.keys[i]] == d.values[r.keys[i]]
    ensures Put(r, d.keys[|d.keys| - 1], d.values[d.keys[|d.keys| - 1]]) == d
  {
    var n := |d.keys| - 1;
    var last := d.keys[n];
    var r := Dict(d.keys[..n], d.values - {last});
    assert d.values.Keys == r.values.Keys + {last};
    assert |d.values.Keys| == |r.values.Keys| + 1;
    assert forall i | 0 <= i < n :: r.keys[i] == d.keys[i] != last;
    assert r.keys + [last] == d.keys;
    assert r.values[last := d.values[last]] == d.values;
    r
  }

  /** The keys of a valid dict are exactly the listed keys. */
  lemma {:induction false} MappedKeysAreListed(d: Dict)
    requires Valid(d)
    ensures forall k | k in d.values :: k in d.keys
    decreases |d.keys|
  {
    if |d.keys| == 0 {
      assert d.values == map[];
    } else {
      var n := |d.keys| - 1;
      var last := d.keys[n];
      var rest := DropLast(d);
      assert d.values == rest.values[last := d.values[last]];
      MappedKeysAreListed(rest);
      forall k | k in d.values
        ensures k in d.keys
      {
        if k != last {
          assert k in rest.keys;
          var i :| 0 <= i < n && rest.keys[i] == k;
          assert d.keys[i] == k;
        }
      }
    }
  }

}
