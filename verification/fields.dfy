/** Python's insertion-ordered `dict` from `str` to `str`: the keys in the
    order they were first assigned, and the value each key holds. Assigning
    to an existing key changes its value and keeps its position; assigning
    to a new key appends it; `pop` removes the key and keeps the order of
    the rest. */
module Fields {
  import opened Wrappers
  import opened Text

  datatype Dict = Dict(keys: seq<string>, values: map<string, string>)

  /** `{}`. */
  const Empty: Dict := Dict([], map[])

  predicate Distinct(s: seq<string>) {
    forall i, j :: 0 <= i < j < |s| ==> s[i] != s[j]
  }

  /** What every Python dict satisfies: each key listed once, and listed
      exactly when it holds a value. */
  predicate Valid(d: Dict) {
    && Distinct(d.keys)
    && (forall k :: k in d.keys ==> k in d.values)
    && (forall k :: k in d.values ==> k in d.keys)
  }

  /** `d.get(k)`. */
  function Get(d: Dict, k: string): Option<string> {
    if k in d.values then Some(d.values[k]) else None
  }

  /** `d[k] = v`: `k` now holds `v`, every other key keeps its value, a key
      already present keeps its position and a new key goes last. */
  function Put(d: Dict, k: string, v: string): (r: Dict)
    ensures Get(r, k) == Some(v)
    ensures forall k' :: k' != k ==> Get(r, k') == Get(d, k')
    ensures k in d.values ==> r.keys == d.keys
    ensures k !in d.values ==> r.keys == d.keys + [k]
  {
    Dict(if k in d.values then d.keys else d.keys + [k], d.values[k := v])
  }

  /** `d[k] = v` leaves a dict a dict. */
  lemma PutValid(d: Dict, k: string, v: string)
    requires Valid(d)
    ensures Valid(Put(d, k, v))
  {
  }

  /** `d.pop(k)` with its result dropped: `k` no longer holds a value, every
      other key keeps its value, and the remaining keys keep their order. */
  function Remove(d: Dict, k: string): (r: Dict)
    ensures k !in r.values
    ensures forall k' :: k' != k ==> Get(r, k') == Get(d, k')
    ensures Valid(d) ==> Valid(r)
    ensures Valid(d) && k !in d.values ==> r == d
    ensures Valid(d) && k in d.values ==>
              var i := IndexOf(d.keys, k); r.keys == d.keys[..i] + d.keys[i + 1..]
  {
    var values := d.values - {k};
    if k in d.keys then
      var i := IndexOf(d.keys, k);
      var r := Dict(d.keys[..i] + d.keys[i + 1..], values);
      assert Valid(d) ==> Valid(r) by {
        if Valid(d) {
          CutDistinct(d.keys, i);
        }
      }
      r
    else
      Dict(d.keys, values)
  }

  /** Cutting one entry out of a list without repeats leaves a list without
      repeats that holds every other entry. */
  lemma CutDistinct(s: seq<string>, i: nat)
    requires Distinct(s) && i < |s|
    ensures var r := s[..i] + s[i + 1..];
            && Distinct(r)
            && (forall x :: x in r <==> x in s && x != s[i])
  {
    var r := s[..i] + s[i + 1..];
    assert forall j :: 0 <= j < |r| ==> r[j] == s[if j < i then j else j + 1];
    forall x | x in s && x != s[i] ensures x in r {
      var m :| 0 <= m < |s| && s[m] == x;
      assert r[if m < i then m else m - 1] == x;
    }
  }

  /** `d.items()`: the pairs in key order. */
  function Items(d: Dict): (items: seq<(string, string)>)
    requires Valid(d)
    ensures |items| == |d.keys|
    ensures forall i :: 0 <= i < |items| ==> items[i].0 == d.keys[i] && Get(d, items[i].0) == Some(items[i].1)
  {
    seq(|d.keys|, i requires 0 <= i < |d.keys| => (d.keys[i], d.values[d.keys[i]]))
  }
}
