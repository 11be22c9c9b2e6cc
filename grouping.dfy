/** Python dicts as the scripts use them: a map together with the order in which
    its keys were first inserted, which is the order a dict iterates in. Assigning
    to a key that is already present keeps its place. The `defaultdict(list)` the
    builders and the pattern stage append to is a dict of sequences. */
module Grouping {
  import opened Common

  datatype Dict<K, V> = Dict(members: map<K, V>, order: seq<K>)

  /** The order lists every key once. */
  predicate Valid<K, V>(d: Dict<K, V>)
  {
    Distinct(d.order) && d.members.Keys == (set i | 0 <= i < |d.order| :: d.order[i])
  }

  /** Every key in the order has a value. */
  predicate Listed<K, V>(d: Dict<K, V>)
  {
    forall i | 0 <= i < |d.order| :: d.order[i] in d.members
  }

  /** An order without repeats that lists exactly the keys makes a valid dict. */
  lemma ValidOrder<K, V>(d: Dict<K, V>)
    requires Distinct(d.order) && forall k :: k in d.members <==> k in d.order
    ensures Valid(d) && Listed(d)
  {
    forall k ensures k in d.members.Keys <==> k in (set i | 0 <= i < |d.order| :: d.order[i]) {
      if k in d.members {
        var i :| 0 <= i < |d.order| && d.order[i] == k;
      }
    }
  }

  /** `d.items()` */
  function Items<K, V>(d: Dict<K, V>): (items: seq<(K, V)>)
    requires Listed(d)
    ensures |items| == |d.order|
    ensures forall i | 0 <= i < |items| :: items[i] == (d.order[i], d.members[d.order[i]])
  {
    seq(|d.order|, i requires 0 <= i < |d.order| && Listed(d) => (d.order[i], d.members[d.order[i]]))
  }

  /** `d[k] = v` */
  function Put<K(==), V>(d: Dict<K, V>, k: K, v: V): (r: Dict<K, V>)
    ensures r.members == d.members[k := v]
    ensures k in d.members ==> r.order == d.order
  {
    Dict(d.members[k := v], if k in d.members then d.order else d.order + [k])
  }

  lemma PutValid<K, V>(d: Dict<K, V>, k: K, v: V)
    requires Valid(d)
    ensures Valid(Put(d, k, v))
  {
    if k !in d.members {
      var o := d.order + [k];
      var before := set i | 0 <= i < |d.order| :: d.order[i];
      var after := set i | 0 <= i < |o| :: o[i];
      assert o[|d.order|] == k;
      assert after == before + {k} by {
        forall x | x in after ensures x in before + {k} {
          var i :| 0 <= i < |o| && o[i] == x;
          if i < |d.order| { assert d.order[i] == x; }
        }
        forall x | x in before ensures x in after {
          var i :| 0 <= i < |d.order| && d.order[i] == x;
          assert o[i] == x;
        }
      }
    }
  }

  /** The dict after assigning every pair of `es`, in order. */
  function PutAll<K(==), V>(d: Dict<K, V>, es: seq<(K, V)>): Dict<K, V>
  {
    if es == [] then d else Put(PutAll(d, es[..|es| - 1]), es[|es| - 1].0, es[|es| - 1].1)
  }

  lemma PutAllSnoc<K, V>(d: Dict<K, V>, es: seq<(K, V)>, e: (K, V))
    ensures PutAll(d, es + [e]) == Put(PutAll(d, es), e.0, e.1)
  {
    assert (es + [e])[..|es|] == es;
  }

  lemma {:induction false} PutAllValid<K, V>(d: Dict<K, V>, es: seq<(K, V)>)
    requires Valid(d)
    ensures Valid(PutAll(d, es))
  {
    if es != [] {
      PutAllValid(d, es[..|es| - 1]);
      PutValid(PutAll(d, es[..|es| - 1]), es[|es| - 1].0, es[|es| - 1].1);
    }
  }

  /** Assigning adds the keys assigned to and leaves every other entry alone. */
  lemma {:induction false} PutAllKeys<K, V>(d: Dict<K, V>, es: seq<(K, V)>)
    ensures forall k :: k in PutAll(d, es).members <==> k in d.members || k in KeysOf(es)
    ensures forall k | k in d.members && k !in KeysOf(es) :: PutAll(d, es).members[k] == d.members[k]
  {
    if es != [] {
      var init := es[..|es| - 1];
      PutAllKeys(d, init);
      assert KeysOf(es) == KeysOf(init) + [es[|es| - 1].0];
    }
  }

  /** When no key is assigned twice, each key holds its one value, and keys new to
      the dict follow the old ones in the order they were assigned. */
  lemma PutAllAt<K, V>(d: Dict<K, V>, es: seq<(K, V)>, i: nat)
    requires Distinct(KeysOf(es)) && i < |es|
    ensures es[i].0 in PutAll(d, es).members && PutAll(d, es).members[es[i].0] == es[i].1
  {
    PutAllDistinct(d, es);
  }

  lemma {:induction false} PutAllDistinct<K, V>(d: Dict<K, V>, es: seq<(K, V)>)
    requires Distinct(KeysOf(es))
    ensures forall i | 0 <= i < |es| :: es[i].0 in PutAll(d, es).members && PutAll(d, es).members[es[i].0] == es[i].1
    ensures (forall i | 0 <= i < |es| :: es[i].0 !in d.members) ==> PutAll(d, es).order == d.order + KeysOf(es)
  {
    if es != [] {
      var init := es[..|es| - 1];
      assert KeysOf(init) == KeysOf(es)[..|es| - 1];
      PutAllDistinct(d, init);
      PutAllKeys(d, init);
      var last := es[|es| - 1];
      assert last.0 !in KeysOf(init) by {
        forall i | 0 <= i < |init| ensures init[i].0 != last.0 {
          assert KeysOf(es)[i] != KeysOf(es)[|es| - 1];
        }
      }
      if forall i | 0 <= i < |es| :: es[i].0 !in d.members {
        assert last.0 !in PutAll(d, init).members;
        assert KeysOf(es) == KeysOf(init) + [last.0];
      }
    }
  }

  type Groups<K, V> = Dict<K, seq<V>>

  /** `d[k].append(v)` on a `defaultdict(list)` */
  function Add<K(==), V>(g: Groups<K, V>, k: K, v: V): Groups<K, V>
  {
    Put(g, k, (if k in g.members then g.members[k] else []) + [v])
  }

  /** The table after appending every pair of `ps`, in order, to an empty one. */
  function GroupAll<K(==), V>(ps: seq<(K, V)>): Groups<K, V>
  {
    if ps == [] then Dict(map[], [])
    else Add(GroupAll(ps[..|ps| - 1]), ps[|ps| - 1].0, ps[|ps| - 1].1)
  }

  function KeysOf<K, V>(ps: seq<(K, V)>): (ks: seq<K>)
    ensures |ks| == |ps|
    ensures forall i | 0 <= i < |ps| :: ks[i] == ps[i].0
  {
    seq(|ps|, i requires 0 <= i < |ps| => ps[i].0)
  }

  /** The values paired with `k`, in the order of `ps`. */
  function ValuesOf<K(==), V>(ps: seq<(K, V)>, k: K): seq<V>
  {
    if ps == [] then []
    else ValuesOf(ps[..|ps| - 1], k) + (if ps[|ps| - 1].0 == k then [ps[|ps| - 1].1] else [])
  }

  /** The distinct elements of `ks` in order of first occurrence. */
  function FirstSeen<K(==)>(ks: seq<K>): seq<K>
  {
    if ks == [] then []
    else
      var f := FirstSeen(ks[..|ks| - 1]);
      if ks[|ks| - 1] in f then f else f + [ks[|ks| - 1]]
  }

  lemma {:induction false} FirstSeenSpec<K>(ks: seq<K>)
    ensures Distinct(FirstSeen(ks))
    ensures forall x :: x in FirstSeen(ks) <==> x in ks
  {
    if ks != [] {
      var init := ks[..|ks| - 1];
      FirstSeenSpec(init);
      assert ks == init + [ks[|ks| - 1]];
    }
  }

  /** What the table holds after the appends: each key that occurs, with the values
      paired with it in order, and the keys in order of first occurrence. */
  lemma {:induction false} GroupAllSpec<K, V>(ps: seq<(K, V)>)
    ensures GroupAll(ps).order == FirstSeen(KeysOf(ps))
    ensures forall k :: k in GroupAll(ps).members <==> k in KeysOf(ps)
    ensures forall k | k in GroupAll(ps).members :: GroupAll(ps).members[k] == ValuesOf(ps, k)
  {
    if ps != [] {
      var init := ps[..|ps| - 1];
      GroupAllSpec(init);
      FirstSeenSpec(KeysOf(init));
      assert KeysOf(init) == KeysOf(ps)[..|ps| - 1];
      assert KeysOf(ps) == KeysOf(init) + [ps[|ps| - 1].0];
      var g := GroupAll(init);
      forall k
        ensures k in GroupAll(ps).members <==> k in KeysOf(ps)
      {
      }
      forall k | k !in g.members
        ensures ValuesOf(init, k) == []
      {
        ValuesOfAbsent(init, k);
      }
    }
  }

  lemma {:induction false} ValuesOfAbsent<K, V>(ps: seq<(K, V)>, k: K)
    requires k !in KeysOf(ps)
    ensures ValuesOf(ps, k) == []
  {
    if ps != [] {
      assert KeysOf(ps[..|ps| - 1]) == KeysOf(ps)[..|ps| - 1];
      ValuesOfAbsent(ps[..|ps| - 1], k);
    }
  }

  /** As many values as occurrences of the key. */
  lemma GroupAt<K, V>(ps: seq<(K, V)>, k: K)
    requires k in GroupAll(ps).members
    ensures GroupAll(ps).members[k] == ValuesOf(ps, k)
  {
    GroupAllSpec(ps);
  }

  /** A key is grouped exactly when some pair has it, and then holds all its values. */
  lemma GroupHas<K, V>(ps: seq<(K, V)>, k: K)
    ensures k in GroupAll(ps).members <==> ValuesOf(ps, k) != []
    ensures k in GroupAll(ps).members ==> GroupAll(ps).members[k] == ValuesOf(ps, k)
  {
    GroupAllSpec(ps);
    ValuesOfCount(ps, k);
  }

  lemma {:induction false} ValuesOfCount<K, V>(ps: seq<(K, V)>, k: K)
    ensures |ValuesOf(ps, k)| == Count(KeysOf(ps), k)
  {
    if ps != [] {
      assert KeysOf(ps[..|ps| - 1]) == KeysOf(ps)[..|ps| - 1];
      ValuesOfCount(ps[..|ps| - 1], k);
    }
  }

  lemma ValuesOfAppend<K, V>(a: seq<(K, V)>, b: seq<(K, V)>, k: K)
    ensures ValuesOf(a + b, k) == ValuesOf(a, k) + ValuesOf(b, k)
    decreases |b|
  {
    if b == [] {
      assert a + b == a;
    } else {
      assert (a + b)[..|a + b| - 1] == a + b[..|b| - 1];
      ValuesOfAppend(a, b[..|b| - 1], k);
    }
  }

  // ----- `Counter(vs).most_common(1)[0][0]`

  /** How often each position's value occurs in `vs`. */
  function Counts<T(==)>(vs: seq<T>): (cs: seq<nat>)
    ensures |cs| == |vs|
    ensures forall j | 0 <= j < |vs| :: cs[j] == Count(vs, vs[j])
  {
    seq(|vs|, j requires 0 <= j < |vs| => Count(vs, vs[j]))
  }

  /** Scans the counts from `i` on, keeping the first index of greatest count. */
  function ArgMaxFrom(cs: seq<nat>, i: nat, best: nat): (r: nat)
    requires best < |cs| && best < i
    ensures best <= r < |cs|
    decreases |cs| - i
  {
    if i >= |cs| then best
    else if cs[i] > cs[best] then ArgMaxFrom(cs, i + 1, i)
    else ArgMaxFrom(cs, i + 1, best)
  }

  /** The value a Counter reports as most common: a Counter lists its keys in order
      of first occurrence and `max` keeps the first of equal counts. */
  function MostCommon<T(==)>(vs: seq<T>): T
    requires vs != []
  {
    vs[ArgMaxFrom(Counts(vs), 1, 0)]
  }

  lemma {:induction false} ArgMaxFromSpec(cs: seq<nat>, i: nat, best: nat)
    requires best < |cs| && best < i
    requires forall j | 0 <= j < i && j < |cs| :: cs[j] <= cs[best]
    requires forall j | 0 <= j < best :: cs[j] < cs[best]
    ensures forall j | 0 <= j < |cs| :: cs[j] <= cs[ArgMaxFrom(cs, i, best)]
    ensures forall j | 0 <= j < ArgMaxFrom(cs, i, best) :: cs[j] < cs[ArgMaxFrom(cs, i, best)]
    decreases |cs| - i
  {
    if i < |cs| {
      if cs[i] > cs[best] {
        ArgMaxFromSpec(cs, i + 1, i);
      } else {
        ArgMaxFromSpec(cs, i + 1, best);
      }
    }
  }

  /** The most common value occurs in `vs`, no value occurs more often, and it
      occurs no later than any other value of the same count. */
  lemma MostCommonSpec<T>(vs: seq<T>)
    requires vs != []
    ensures MostCommon(vs) in vs
    ensures forall v | v in vs :: Count(vs, v) <= Count(vs, MostCommon(vs))
    ensures forall i | 0 <= i < |vs| && Count(vs, vs[i]) == Count(vs, MostCommon(vs)) ::
              MostCommon(vs) in vs[..i + 1]
  {
    var cs := Counts(vs);
    forall j | 0 <= j < 1 && j < |cs|
      ensures cs[j] <= cs[0]
    {
      assert j == 0;
    }
    ArgMaxFromSpec(cs, 1, 0);
    var r := ArgMaxFrom(cs, 1, 0);
    var m := vs[r];
    assert m == MostCommon(vs);
    var c := Count(vs, m);
    assert c == cs[r];
    forall v | v in vs
      ensures Count(vs, v) <= c
    {
      var j :| 0 <= j < |vs| && vs[j] == v;
      assert cs[j] <= cs[r];
    }
    forall i | 0 <= i < |vs| && Count(vs, vs[i]) == c
      ensures m in vs[..i + 1]
    {
      assert cs[i] == c;
      assert vs[..i + 1][r] == m;
    }
  }

  /** When every pair's key is the lowercase form of its value, every value stored
      under a key lowercases to that key. */
  lemma {:induction false} ValuesOfLower(ps: seq<(string, string)>, k: string)
    requires forall i | 0 <= i < |ps| :: ps[i].0 == Lower(ps[i].1)
    ensures forall v | v in ValuesOf(ps, k) :: Lower(v) == k
  {
    if ps != [] {
      ValuesOfLower(ps[..|ps| - 1], k);
    }
  }

  /** `len(set(vs))` */
  function DistinctCount<T(==)>(vs: seq<T>): nat
  {
    |set v | v in vs|
  }

  // ----- `collections.Counter`

  /** The counter after one `c[k] += 1` per element of `ks`, in order; `Counter(ks)`
      builds the same. */
  function Counted<K(==)>(ks: seq<K>): Dict<K, nat>
  {
    if ks == [] then Dict(map[], []) else Tally(Counted(ks[..|ks| - 1]), ks[|ks| - 1])
  }

  /** `c[k] += 1` on a counter: a key not yet counted starts from 0. */
  function Tally<K(==)>(c: Dict<K, nat>, k: K): Dict<K, nat>
  {
    Put(c, k, (if k in c.members then c.members[k] else 0) + 1)
  }

  /** The counter lists the distinct elements in order of first occurrence, each
      with its number of occurrences. */
  lemma {:induction false} CountedSpec<K>(ks: seq<K>)
    ensures Counted(ks).order == FirstSeen(ks)
    ensures forall k :: k in Counted(ks).members <==> k in ks
    ensures forall k | k in Counted(ks).members :: Counted(ks).members[k] == Count(ks, k)
  {
    if ks != [] {
      var init := ks[..|ks| - 1];
      CountedSpec(init);
      assert ks == init + [ks[|ks| - 1]];
      FirstSeenSpec(init);
    }
  }

  /** The sum of the values of `d` over the keys of `order`. */
  function SumOver<K>(order: seq<K>, d: map<K, nat>): nat
  {
    if order == [] then 0
    else SumOver(order[..|order| - 1], d) + (if order[|order| - 1] in d then d[order[|order| - 1]] else 0)
  }

  /** The counts of a counter add up to the number of elements counted. */
  lemma {:induction false} CountedTotal<K>(ks: seq<K>)
    ensures SumOver(Counted(ks).order, Counted(ks).members) == |ks|
  {
    if ks != [] {
      var init := ks[..|ks| - 1];
      var k := ks[|ks| - 1];
      var c := Counted(init);
      CountedTotal(init);
      CountedSpec(init);
      FirstSeenSpec(init);
      if k in c.members {
        SumOverBump(c.order, c.members, k, 1);
      } else {
        SumOverFresh(c.order, c.members, k, 1);
      }
    }
  }

  lemma {:induction false} SumOverBump<K>(order: seq<K>, d: map<K, nat>, k: K, c: nat)
    requires Distinct(order) && k in order && k in d
    ensures SumOver(order, d[k := d[k] + c]) == SumOver(order, d) + c
  {
    var n := |order| - 1;
    if order[n] == k {
      assert k !in order[..n] by {
        forall i | 0 <= i < n ensures order[..n][i] != k { assert order[i] != order[n]; }
      }
      SumOverOther(order[..n], d, k, d[k] + c);
    } else {
      assert k in order[..n] by {
        var i :| 0 <= i < |order| && order[i] == k;
        assert order[..n][i] == k;
      }
      SumOverBump(order[..n], d, k, c);
    }
  }

  lemma {:induction false} SumOverOther<K>(order: seq<K>, d: map<K, nat>, k: K, v: nat)
    requires k !in order
    ensures SumOver(order, d[k := v]) == SumOver(order, d)
  {
    if order != [] {
      SumOverOther(order[..|order| - 1], d, k, v);
    }
  }

  lemma SumOverFresh<K>(order: seq<K>, d: map<K, nat>, k: K, v: nat)
    requires k !in order
    ensures SumOver(order + [k], d[k := v]) == SumOver(order, d) + v
  {
    assert (order + [k])[..|order|] == order;
    SumOverOther(order, d, k, v);
  }

  lemma {:induction false} SumOverAppend<K>(a: seq<K>, b: seq<K>, d: map<K, nat>)
    ensures SumOver(a + b, d) == SumOver(a, d) + SumOver(b, d)
    decreases |b|
  {
    if b == [] {
      assert a + b == a;
    } else {
      var n := |b| - 1;
      assert (a + b)[..|a + b| - 1] == a + b[..n];
      SumOverAppend(a, b[..n], d);
    }
  }

  lemma CancelOne<T>(m1: multiset<T>, m2: multiset<T>, x: T)
    requires m1 + multiset{x} == m2 + multiset{x}
    ensures m1 == m2
  {
    forall y ensures m1[y] == m2[y] {
      assert (m1 + multiset{x})[y] == (m2 + multiset{x})[y];
    }
  }

  /** Taking the key at `j` out of the list takes it out of the sum. */
  lemma SumOverRemove<K>(b: seq<K>, j: nat, d: map<K, nat>)
    requires j < |b|
    ensures multiset(b) == multiset(b[..j] + b[j + 1..]) + multiset{b[j]}
    ensures SumOver(b, d) == SumOver(b[..j] + b[j + 1..], d) + SumOver([b[j]], d)
  {
    var x := b[j];
    assert b == b[..j] + ([x] + b[j + 1..]);
    SumOverAppend(b[..j], [x] + b[j + 1..], d);
    SumOverAppend([x], b[j + 1..], d);
    SumOverAppend(b[..j], b[j + 1..], d);
  }

  /** A sum over keys does not depend on the order they are listed in. */
  lemma {:induction false} SumOverPermutation<K>(a: seq<K>, b: seq<K>, d: map<K, nat>)
    requires multiset(a) == multiset(b)
    ensures SumOver(a, d) == SumOver(b, d)
    decreases |a|
  {
    if a != [] {
      var n := |a| - 1;
      var x := a[n];
      assert a == a[..n] + [x];
      assert x in multiset(b);
      var j :| 0 <= j < |b| && b[j] == x;
      var rest := b[..j] + b[j + 1..];
      SumOverRemove(b, j, d);
      SumOverRemove(a, n, d);
      assert a[..n] + a[n + 1..] == a[..n];
      CancelOne(multiset(a[..n]), multiset(rest), x);
      SumOverPermutation(a[..n], rest, d);
    }
  }
}
