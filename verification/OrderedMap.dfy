// A JavaScript `Map` with string keys: entries in insertion order. `set` on a present key keeps the
// entry's position, `set` on a new key appends, `delete` closes the gap.
module OrderedMap {
  import opened Wrappers

  type OMap<V> = seq<(string, V)>

  predicate Distinct<V>(m: OMap<V>) {
    forall i, j | 0 <= i < j < |m| :: m[i].0 != m[j].0
  }

  function IndexOf<V>(m: OMap<V>, k: string): (i: nat)
    ensures i <= |m|
    ensures i < |m| ==> m[i].0 == k
    ensures forall j | 0 <= j < i :: m[j].0 != k
  {
    if m == [] || m[0].0 == k then 0 else 1 + IndexOf(m[1..], k)
  }

  predicate Has<V>(m: OMap<V>, k: string) {
    IndexOf(m, k) < |m|
  }

  function Get<V>(m: OMap<V>, k: string): Option<V> {
    var i := IndexOf(m, k);
    if i < |m| then Some(m[i].1) else None
  }

  function Set<V>(m: OMap<V>, k: string, v: V): OMap<V> {
    var i := IndexOf(m, k);
    if i < |m| then m[i := (k, v)] else m + [(k, v)]
  }

  function RemoveAt<V>(m: OMap<V>, i: nat): OMap<V>
    requires i < |m|
  {
    m[..i] + m[i + 1..]
  }

  function Delete<V>(m: OMap<V>, k: string): OMap<V> {
    var i := IndexOf(m, k);
    if i < |m| then RemoveAt(m, i) else m
  }

  function KeySet<V>(m: OMap<V>): set<string> {
    set i | 0 <= i < |m| :: m[i].0
  }

  function ValuesOf<V>(m: OMap<V>): (r: seq<V>)
    ensures |r| == |m|
  {
    seq(|m|, i requires 0 <= i < |m| => m[i].1)
  }

  // The map without its order.
  ghost function Dict<V>(m: OMap<V>): map<string, V> {
    map k | k in KeySet(m) :: m[IndexOf(m, k)].1
  }

  lemma HasIffKey<V>(m: OMap<V>, k: string)
    ensures Has(m, k) <==> k in KeySet(m)
    ensures k in Dict(m) <==> Get(m, k).Some?
    ensures k in Dict(m) ==> Get(m, k) == Some(Dict(m)[k])
  {}

  lemma IndexIs<V>(m: OMap<V>, i: nat)
    requires Distinct(m) && i < |m|
    ensures IndexOf(m, m[i].0) == i
    ensures m[i].0 in Dict(m) && Dict(m)[m[i].0] == m[i].1
  {}

  lemma SetSpec<V>(m: OMap<V>, k: string, v: V)
    requires Distinct(m)
    ensures Distinct(Set(m, k, v)) && Dict(Set(m, k, v)) == Dict(m)[k := v]
    ensures |Set(m, k, v)| == |m| + if Has(m, k) then 0 else 1
    ensures forall i | 0 <= i < |m| :: Set(m, k, v)[i].0 == m[i].0 && (m[i].0 != k ==> Set(m, k, v)[i] == m[i])
    ensures !Has(m, k) ==> Set(m, k, v)[|m|] == (k, v)
  {
    var n := Set(m, k, v);
    forall x | x in KeySet(n) ensures x in Dict(m)[k := v] && Dict(n)[x] == Dict(m)[k := v][x] {
      var j := IndexOf(n, x);
      if j < |m| && x != k { IndexIs(m, j); }
    }
    forall x | x in Dict(m)[k := v] ensures x in KeySet(n) {
      var j := if x in KeySet(m) then IndexOf(m, x) else |m|;
      assert n[j].0 == x;
    }
  }

  lemma RemoveAtDistinct<V>(m: OMap<V>, i: nat)
    requires Distinct(m) && i < |m|
    ensures Distinct(RemoveAt(m, i))
  {
    var n := RemoveAt(m, i);
    assert forall j | 0 <= j < |n| :: n[j] == m[if j < i then j else j + 1];
  }

  lemma StillThere<V>(m: OMap<V>, i: nat, j: nat)
    requires i < |m| && j < |m| && i != j
    ensures Has(RemoveAt(m, i), m[j].0)
  {
    assert RemoveAt(m, i)[if j < i then j else j - 1] == m[j];
  }

  lemma CameFrom<V>(m: OMap<V>, i: nat, j: nat)
    requires Distinct(m) && i < |m| && j < |RemoveAt(m, i)|
    ensures var e := RemoveAt(m, i)[j];
      e.0 != m[i].0 && e.0 in Dict(m) && Dict(m)[e.0] == e.1
  {
    IndexIs(m, if j < i then j else j + 1);
  }

  lemma RemoveAtKeys<V>(m: OMap<V>, i: nat, x: string)
    requires Distinct(m) && i < |m|
    ensures x in Dict(RemoveAt(m, i)) <==> x in Dict(m) && x != m[i].0
    ensures x in Dict(RemoveAt(m, i)) ==> Dict(RemoveAt(m, i))[x] == Dict(m)[x]
  {
    hide Distinct, RemoveAt;
    var n := RemoveAt(m, i);
    HasIffKey(n, x);
    HasIffKey(m, x);
    if Has(n, x) { CameFrom(m, i, IndexOf(n, x)); }
    if Has(m, x) && x != m[i].0 { StillThere(m, i, IndexOf(m, x)); }
  }

  lemma RemoveAtSpec<V>(m: OMap<V>, i: nat)
    requires Distinct(m) && i < |m|
    ensures Distinct(RemoveAt(m, i)) && Dict(RemoveAt(m, i)) == Dict(m) - {m[i].0}
    ensures |RemoveAt(m, i)| == |m| - 1
  {
    hide Dict, Distinct;
    forall x ensures x in Dict(RemoveAt(m, i)) <==> x in Dict(m) - {m[i].0} { RemoveAtKeys(m, i, x); }
    forall x | x in Dict(RemoveAt(m, i)) ensures Dict(RemoveAt(m, i))[x] == (Dict(m) - {m[i].0})[x] {
      RemoveAtKeys(m, i, x);
    }
    RemoveAtDistinct(m, i);
  }

  lemma DeleteSpec<V>(m: OMap<V>, k: string)
    requires Distinct(m)
    ensures Distinct(Delete(m, k)) && Dict(Delete(m, k)) == Dict(m) - {k}
    ensures |Delete(m, k)| == |m| - if Has(m, k) then 1 else 0
  {
    if Has(m, k) { RemoveAtSpec(m, IndexOf(m, k)); } else { HasIffKey(m, k); }
  }

  lemma {:induction false} KeySetSize<V>(m: OMap<V>)
    requires Distinct(m)
    ensures |KeySet(m)| == |m|
  {
    if m != [] {
      var i := |m| - 1;
      KeySetSize(m[..i]);
      forall x ensures x in KeySet(m) <==> x in KeySet(m[..i]) || x == m[i].0 {
        if x in KeySet(m[..i]) {
          var j :| 0 <= j < i && m[..i][j].0 == x;
          assert m[j].0 == x;
        }
      }
      assert KeySet(m) == KeySet(m[..i]) + {m[i].0};
    }
  }

  lemma DictSize<V>(m: OMap<V>)
    requires Distinct(m)
    ensures |Dict(m)| == |m|
  {
    KeySetSize(m);
    assert Dict(m).Keys == KeySet(m);
  }

  lemma ConcatDistinct<V>(a: OMap<V>, b: OMap<V>)
    requires Distinct(a) && Distinct(b) && Dict(a).Keys !! Dict(b).Keys
    ensures Distinct(a + b)
  {
    var c := a + b;
    forall i, j | 0 <= i < j < |c| ensures c[i].0 != c[j].0 {
      if i < |a| <= j { IndexIs(a, i); IndexIs(b, j - |a|); }
    }
  }

  lemma ConcatAt<V>(a: OMap<V>, b: OMap<V>, k: string)
    requires Distinct(a) && Distinct(b) && Dict(a).Keys !! Dict(b).Keys
    ensures k in Dict(a + b) <==> k in Dict(a) || k in Dict(b)
    ensures k in Dict(a) ==> Dict(a + b)[k] == Dict(a)[k]
    ensures k in Dict(b) ==> Dict(a + b)[k] == Dict(b)[k]
  {
    var c := a + b;
    ConcatDistinct(a, b);
    if k in Dict(a) { IndexIs(c, IndexOf(a, k)); }
    if k in Dict(b) { IndexIs(c, |a| + IndexOf(b, k)); }
    if k in Dict(c) {
      var i := IndexOf(c, k);
      if i < |a| { IndexIs(a, i); } else { IndexIs(b, i - |a|); }
    }
  }

  lemma ConcatDict<V>(a: OMap<V>, b: OMap<V>)
    requires Distinct(a) && Distinct(b) && Dict(a).Keys !! Dict(b).Keys
    ensures Distinct(a + b) && Dict(a + b) == Dict(a) + Dict(b)
  {
    ConcatDistinct(a, b);
    forall k ensures k in Dict(a + b) <==> k in Dict(a) + Dict(b) { ConcatAt(a, b, k); }
    forall k | k in Dict(a + b) ensures Dict(a + b)[k] == (Dict(a) + Dict(b))[k] { ConcatAt(a, b, k); }
  }
}
