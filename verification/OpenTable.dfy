/** Linear probing in a fixed table of slots. `key` says what a slot holds, if anything. */
module OpenTable {
  import opened Options
  import opened Sets

  /** The `i`th slot probed from `base`, wrapping round at the end of the table. */
  function Slot(base: nat, i: nat, n: nat): (s: nat)
    requires base < n && i < n
    ensures s < n && s == (base + i) % n
  {
    if base + i < n then base + i else WrapMod(base, i, n); base + i - n
  }

  lemma WrapMod(base: nat, i: nat, n: nat)
    requires base < n && i < n && base + i >= n
    ensures (base + i) % n == base + i - n
  {
  }

  /** How many probes from `base` reach slot `s`. */
  function Steps(base: nat, s: nat, n: nat): (i: nat)
    requires base < n && s < n
    ensures i < n && Slot(base, i, n) == s
  {
    if base <= s then s - base else s + n - base
  }

  lemma StepsOfSlot(base: nat, i: nat, n: nat)
    requires base < n && i < n
    ensures Steps(base, Slot(base, i, n), n) == i
  {
  }

  /** The first probe from `i` on that finds `k` or an empty slot; the table's size if none does. */
  function Probe<K(==), E>(t: seq<E>, key: E -> Option<K>, base: nat, k: K, i: nat): (r: nat)
    requires base < |t| && i <= |t|
    ensures i <= r <= |t|
    decreases |t| - i
  {
    if i == |t| then i
    else
      var found := key(t[Slot(base, i, |t|)]);
      if found == None || found == Some(k) then i else Probe(t, key, base, k, i + 1)
  }

  lemma {:induction false} ProbeStops<K, E>(t: seq<E>, key: E -> Option<K>, base: nat, k: K, i: nat)
    requires base < |t| && i <= |t|
    ensures var r := Probe(t, key, base, k, i);
      && (r < |t| ==> key(t[Slot(base, r, |t|)]) == None || key(t[Slot(base, r, |t|)]) == Some(k))
      && forall j :: i <= j < r ==> key(t[Slot(base, j, |t|)]).Some? && key(t[Slot(base, j, |t|)]) != Some(k)
    decreases |t| - i
  {
    if i < |t| {
      var found := key(t[Slot(base, i, |t|)]);
      if !(found == None || found == Some(k)) { ProbeStops(t, key, base, k, i + 1); }
    }
  }

  ghost predicate Holds<K, E>(t: seq<E>, key: E -> Option<K>, k: K) {
    exists s :: 0 <= s < |t| && key(t[s]) == Some(k)
  }

  /** No key twice, and no gap between a key's home and the slot that holds it. */
  ghost predicate Intact<K(!new), E>(t: seq<E>, key: E -> Option<K>, home: K -> nat)
  {
    && |t| > 0
    && (forall k :: home(k) < |t|)
    && (forall s, u :: 0 <= s < u < |t| && key(t[s]).Some? ==> key(t[s]) != key(t[u]))
    && (forall s, j :: 0 <= s < |t| && key(t[s]).Some? && 0 <= j < Steps(home(key(t[s]).value), s, |t|) ==>
          key(t[Slot(home(key(t[s]).value), j, |t|)]).Some?)
  }

  /** Probing from home decides membership: it stops at the key exactly when the table holds it. */
  lemma ProbeDecides<K(!new), E>(t: seq<E>, key: E -> Option<K>, home: K -> nat, k: K)
    requires Intact(t, key, home)
    ensures var r := Probe(t, key, home(k), k, 0);
      Holds(t, key, k) <==> r < |t| && key(t[Slot(home(k), r, |t|)]) == Some(k)
  {
    var r := Probe(t, key, home(k), k, 0);
    ProbeStops(t, key, home(k), k, 0);
    if Holds(t, key, k) {
      var s :| 0 <= s < |t| && key(t[s]) == Some(k);
      var d := Steps(home(k), s, |t|);
      assert Slot(home(k), d, |t|) == s;
      assert !(d < r);
      if r < d {
        assert key(t[Slot(home(key(t[s]).value), r, |t|)]).Some?;
      }
    }
  }

  /** The table with `k` in it once more: a new entry in the first empty slot, or the entry bumped;
      a full table without `k` stays as it is. */
  function Upsert<K(==), E>(t: seq<E>, key: E -> Option<K>, base: nat, k: K, first: E, bump: E -> E): (u: seq<E>)
    requires base < |t|
    ensures |u| == |t|
  {
    var r := Probe(t, key, base, k, 0);
    if r == |t| then t
    else
      var s := Slot(base, r, |t|);
      t[s := if key(t[s]) == None then first else bump(t[s])]
  }

  lemma UpsertIntact<K(!new), E(!new)>(t: seq<E>, key: E -> Option<K>, home: K -> nat, k: K, first: E, bump: E -> E)
    requires Intact(t, key, home) && key(first) == Some(k) && forall e :: key(bump(e)) == key(e)
    ensures Intact(Upsert(t, key, home(k), k, first, bump), key, home)
  {
    var r := Probe(t, key, home(k), k, 0);
    ProbeStops(t, key, home(k), k, 0);
    ProbeDecides(t, key, home, k);
    var u := Upsert(t, key, home(k), k, first, bump);
    if r < |t| {
      var s := Slot(home(k), r, |t|);
      StepsOfSlot(home(k), r, |t|);
      assert key(u[s]) == Some(k);
      assert forall v :: 0 <= v < |t| && v != s ==> u[v] == t[v];
    }
  }

  lemma UpsertHolds<K(!new), E(!new)>(t: seq<E>, key: E -> Option<K>, home: K -> nat, k: K, first: E, bump: E -> E,
                      q: K)
    requires Intact(t, key, home) && key(first) == Some(k) && forall e :: key(bump(e)) == key(e)
    ensures Holds(Upsert(t, key, home(k), k, first, bump), key, q)
       <==> Holds(t, key, q) || (q == k && exists s :: 0 <= s < |t| && key(t[s]) == None)
  {
    var r := Probe(t, key, home(k), k, 0);
    ProbeStops(t, key, home(k), k, 0);
    ProbeDecides(t, key, home, k);
    var u := Upsert(t, key, home(k), k, first, bump);
    if r < |t| {
      var s := Slot(home(k), r, |t|);
      assert key(u[s]) == Some(k);
      assert forall v :: 0 <= v < |t| && v != s ==> u[v] == t[v];
      if Holds(t, key, q) {
        var v :| 0 <= v < |t| && key(t[v]) == Some(q);
        assert key(u[v]) == Some(q);
      }
    } else {
      forall s | 0 <= s < |t| ensures key(t[s]) != None {
        assert Slot(home(k), Steps(home(k), s, |t|), |t|) == s;
      }
    }
  }

  // ---------------------------------------------------------------- totals over a table

  function Total<E>(t: seq<E>, f: E -> nat): nat {
    if |t| == 0 then 0 else Total(t[..|t| - 1], f) + f(t[|t| - 1])
  }

  lemma {:induction false} TotalUpdate<E>(t: seq<E>, f: E -> nat, s: nat, e: E)
    requires s < |t|
    ensures Total(t[s := e], f) == Total(t, f) - f(t[s]) + f(e)
    ensures f(t[s]) <= Total(t, f)
  {
    var n := |t| - 1;
    if s < n {
      TotalUpdate(t[..n], f, s, e);
      assert t[s := e][..n] == t[..n][s := e];
    } else {
      assert t[s := e][..n] == t[..n];
    }
  }

  lemma {:induction false} TotalSame<E>(t: seq<E>, f: E -> nat, g: E -> nat)
    requires forall i :: 0 <= i < |t| ==> f(t[i]) == g(t[i])
    ensures Total(t, f) == Total(t, g)
  {
    if |t| > 0 { TotalSame(t[..|t| - 1], f, g); }
  }

  lemma {:induction false} TotalLe<E>(t: seq<E>, f: E -> nat, g: E -> nat)
    requires forall i :: 0 <= i < |t| ==> f(t[i]) <= g(t[i])
    ensures Total(t, f) <= Total(t, g)
  {
    if |t| > 0 { TotalLe(t[..|t| - 1], f, g); }
  }

  lemma {:induction false} TotalZero<E>(t: seq<E>, f: E -> nat)
    requires forall i :: 0 <= i < |t| ==> f(t[i]) == 0
    ensures Total(t, f) == 0
  {
    if |t| > 0 { TotalZero(t[..|t| - 1], f); }
  }

  /** When `f` counts one slot only, the total is that slot's value. */
  lemma {:induction false} TotalSingle<E>(t: seq<E>, f: E -> nat, s: nat)
    requires s < |t| && forall i :: 0 <= i < |t| && i != s ==> f(t[i]) == 0
    ensures Total(t, f) == f(t[s])
  {
    var n := |t| - 1;
    if s < n { TotalSingle(t[..n], f, s); } else { TotalZero(t[..n], f); }
  }

  // ---------------------------------------------------------------- the map a table stands for

  const COUNT_LIMIT: nat := 0xFFFF

  function UpTo(x: nat): nat {
    if x <= COUNT_LIMIT then x else COUNT_LIMIT
  }

  /** One more of `k`: saturating for a known key, and a new key only while there is room. */
  function Tallied<K(==)>(m: map<K, nat>, k: K, capacity: nat): map<K, nat> {
    if k in m then m[k := UpTo(m[k] + 1)]
    else if |m| < capacity then m[k := 1]
    else m
  }

  ghost predicate Marks<K, E(!new)>(one: E -> nat, key: E -> Option<K>) {
    forall e :: one(e) == if key(e).Some? then 1 else 0
  }

  /** The table holds exactly the keys of `m`, each with its count, in as many slots. */
  ghost predicate Refines<K(!new), E>(t: seq<E>, key: E -> Option<K>, val: E -> nat, one: E -> nat, m: map<K, nat>) {
    && (forall k :: k in m <==> Holds(t, key, k))
    && (forall s :: 0 <= s < |t| && key(t[s]).Some? ==> key(t[s]).value in m && val(t[s]) == m[key(t[s]).value])
    && Total(t, one) == |m|
  }

  lemma {:induction false} FullIff<K, E(!new)>(t: seq<E>, key: E -> Option<K>, one: E -> nat)
    requires Marks(one, key)
    ensures Total(t, one) <= |t|
    ensures Total(t, one) == |t| <==> forall s :: 0 <= s < |t| ==> key(t[s]).Some?
  {
    if |t| > 0 {
      var n := |t| - 1;
      FullIff(t[..n], key, one);
      if forall s :: 0 <= s < |t| ==> key(t[s]).Some? {
        assert forall s :: 0 <= s < n ==> t[..n][s] == t[s];
      }
      if Total(t, one) == |t| {
        assert forall s :: 0 <= s < n ==> key(t[..n][s]).Some?;
        assert forall s :: 0 <= s < |t| ==> key(t[s]).Some? by {
          assert forall s :: 0 <= s < n ==> t[..n][s] == t[s];
        }
      }
    }
  }

  /** Upserting a table is tallying its map. */
  lemma UpsertRefines<K(!new), E(!new)>(t: seq<E>, key: E -> Option<K>, home: K -> nat, val: E -> nat, one: E -> nat,
                                        m: map<K, nat>, k: K, first: E, bump: E -> E)
    requires Intact(t, key, home) && Marks(one, key) && Refines(t, key, val, one, m)
    requires key(first) == Some(k) && val(first) == 1
    requires forall e :: key(bump(e)) == key(e) && val(bump(e)) == UpTo(val(e) + 1)
    ensures Refines(Upsert(t, key, home(k), k, first, bump), key, val, one, Tallied(m, k, |t|))
  {
    var r := Probe(t, key, home(k), k, 0);
    ProbeStops(t, key, home(k), k, 0);
    ProbeDecides(t, key, home, k);
    FullIff(t, key, one);
    var u, n := Upsert(t, key, home(k), k, first, bump), Tallied(m, k, |t|);
    forall q ensures q in n <==> Holds(u, key, q) {
      UpsertHolds(t, key, home, k, first, bump, q);
    }
    if r < |t| {
      var s := Slot(home(k), r, |t|);
      TotalUpdate(t, one, s, u[s]);
      forall v | 0 <= v < |u| && key(u[v]).Some?
        ensures key(u[v]).value in n && val(u[v]) == n[key(u[v]).value]
      {
        if v != s { assert u[v] == t[v] && key(t[v]) != Some(k); }
      }
    } else {
      forall s | 0 <= s < |t| ensures key(t[s]).Some? {
        assert Slot(home(k), Steps(home(k), s, |t|), |t|) == s;
      }
    }
  }

  /** The tally of a list of keys, oldest first. */
  function TallyAll<K(==)>(ks: seq<K>, capacity: nat): map<K, nat> {
    if |ks| == 0 then map[] else Tallied(TallyAll(ks[..|ks| - 1], capacity), ks[|ks| - 1], capacity)
  }

  ghost function Distinct<K>(ks: seq<K>): set<K> {
    set k | k in ks
  }

  lemma DistinctMore<K>(p: seq<K>, k: K)
    ensures Distinct(p + [k]) == Distinct(p) + {k}
    ensures |Distinct(p)| <= |Distinct(p + [k])|
  {
    SubsetSize(Distinct(p), Distinct(p + [k]));
  }

  /** While the distinct keys fit, every key is tallied as often as it occurs, up to the limit. */
  lemma {:induction false} TallyIsOccurrences<K>(ks: seq<K>, capacity: nat)
    requires |Distinct(ks)| <= capacity
    ensures TallyAll(ks, capacity).Keys == Distinct(ks)
    ensures forall k :: k in ks ==> TallyAll(ks, capacity)[k] == UpTo(multiset(ks)[k])
  {
    if |ks| > 0 {
      var p, k := ks[..|ks| - 1], ks[|ks| - 1];
      assert ks == p + [k];
      DistinctMore(p, k);
      TallyIsOccurrences(p, capacity);
      var m := TallyAll(p, capacity);
      assert |m| == |m.Keys|;
      TalliedOnce(p, k, m, capacity);
    }
  }

  /** One more key, for which there is room, in a tally of all occurrences. */
  lemma TalliedOnce<K>(p: seq<K>, k: K, m: map<K, nat>, capacity: nat)
    requires m.Keys == Distinct(p) && |m| == |m.Keys| && |Distinct(p + [k])| <= capacity
    requires forall q :: q in p ==> m[q] == UpTo(multiset(p)[q])
    ensures Tallied(m, k, capacity).Keys == Distinct(p + [k])
    ensures forall q :: q in p + [k] ==> Tallied(m, k, capacity)[q] == UpTo(multiset(p + [k])[q])
  {
    DistinctMore(p, k);
    if k !in m { assert |Distinct(p) + {k}| == |Distinct(p)| + 1; }
    forall q | q in p + [k] ensures Tallied(m, k, capacity)[q] == UpTo(multiset(p + [k])[q]) {
      assert multiset(p + [k])[q] == multiset(p)[q] + if q == k then 1 else 0;
      if q != k { assert q in p; }
    }
  }
}
