/** Map lookups on any input, malformed or not: which pair they answer with, and when they slice past the end. */
module CborLookup {
  import opened Bits
  import opened Options
  import opened Cbor

  /** A pair as a lookup reads it: where it starts, its key, where its value starts and ends. */
  datatype Entry<K> = Entry(start: nat, key: K, value: nat, end: nat)

  type IntPair = Entry<int>

  /** Keys of other kinds have no text. */
  type TextPair = Entry<Option<seq<byte>>>

  /** Each entry starts where the one before it ends. */
  predicate Linked<K>(p: nat, es: seq<Entry<K>>) {
    (|es| > 0 ==> es[0].start == p) && forall i {:trigger es[i]} :: 0 < i < |es| ==> es[i].start == es[i - 1].end
  }

  /** The last entry is the first with the key. */
  predicate EndsAtFirst<K(==)>(es: seq<Entry<K>>, key: K) {
    |es| > 0 && forall i :: 0 <= i < |es| ==> (es[i].key == key <==> i == |es| - 1)
  }

  /** The data starts as a map, whose pairs start after a head that announces at least so many. */
  predicate Announces(d: seq<byte>, p: nat, n: nat) {
    && |d| > 0 && d[0] / 32 == 5
    && ReadLen(d, 0).Some? && ReadLen(d, 0).value.size == p && n <= ReadLen(d, 0).value.value
  }

  /** Linked entries, each of which can be read. */
  ghost predicate Walk<K>(reads_: Entry<K> -> bool, p: nat, es: seq<Entry<K>>) {
    Linked(p, es) && forall i :: 0 <= i < |es| ==> reads_(es[i])
  }

  /** A lookup over so many pairs from a position on answers with the value of the key or goes on behind it. */
  ghost predicate GoesOn<K(!new)>(d: seq<byte>, reads_: Entry<K> -> bool, from: (nat, nat) -> Lookup, key: K) {
    forall e: Entry<K>, n: nat {:trigger reads_(e), from(e.end, n)} ::
      reads_(e) ==> from(e.start, n + 1) == if e.key == key then Sliced(d, e.value, e.end) else from(e.end, n)
  }

  /** A lookup answers only where it can read a pair. */
  ghost predicate NeedsPairs<K(!new)>(reads_: Entry<K> -> bool, from: (nat, nat) -> Lookup) {
    forall p: nat, n: nat :: from(p, n) != Absent ==> n > 0 && exists e: Entry<K> :: reads_(e) && e.start == p
  }

  lemma OneStep<K(!new)>(d: seq<byte>, reads_: Entry<K> -> bool, from: (nat, nat) -> Lookup, key: K, e: Entry<K>,
                  n: nat)
    requires GoesOn(d, reads_, from, key) && reads_(e) && n > 0
    ensures from(e.start, n) == if e.key == key then Sliced(d, e.value, e.end) else from(e.end, n - 1)
  {
    var m: nat := n - 1;
    var t := from(e.end, m);
    assert from(e.start, m + 1) == if e.key == key then Sliced(d, e.value, e.end) else t;
  }

  lemma {:induction false} WalkDecides<K(!new)>(d: seq<byte>, reads_: Entry<K> -> bool, from: (nat, nat) -> Lookup,
                                         key: K,
                                          p: nat, n: nat, es: seq<Entry<K>>)
    requires GoesOn(d, reads_, from, key) && Walk(reads_, p, es) && EndsAtFirst(es, key) && |es| <= n
    ensures var last := es[|es| - 1]; from(p, n) == Sliced(d, last.value, last.end)
    decreases n
  {
    var e := es[0];
    assert reads_(e);
    OneStep(d, reads_, from, key, e, n);
    if |es| > 1 {
      RestOfWalk(reads_, p, es, key);
      WalkDecides(d, reads_, from, key, e.end, n - 1, es[1..]);
    }
  }

  lemma RestOfWalk<K>(reads_: Entry<K> -> bool, p: nat, es: seq<Entry<K>>, key: K)
    requires Walk(reads_, p, es) && EndsAtFirst(es, key) && |es| > 1
    ensures es[0].key != key && Walk(reads_, es[0].end, es[1..])
    ensures EndsAtFirst(es[1..], key) && es[1..][|es| - 2] == es[|es| - 1]
  {
    var rest := es[1..];
    assert rest[0] == es[1];
    forall i | 0 < i < |rest| ensures rest[i].start == rest[i - 1].end {
      assert rest[i] == es[i + 1] && rest[i - 1] == es[i];
    }
    forall i | 0 <= i < |rest| ensures reads_(rest[i]) && (rest[i].key == key <==> i == |rest| - 1) {
      assert rest[i] == es[i + 1];
    }
  }

  lemma OneMoreFirst<K>(reads_: Entry<K> -> bool, e: Entry<K>, es: seq<Entry<K>>, key: K)
    requires reads_(e) && Walk(reads_, e.end, es) && EndsAtFirst(es, key) && e.key != key
    ensures Walk(reads_, e.start, [e] + es) && EndsAtFirst([e] + es, key)
  {
    var all := [e] + es;
    forall i | 0 < i < |all| ensures all[i].start == all[i - 1].end {
      assert all[i] == es[i - 1];
      if i > 1 { assert all[i - 1] == es[i - 2]; }
    }
    forall i | 0 <= i < |all| ensures reads_(all[i]) && (all[i].key == key <==> i == |all| - 1) {
      if i > 0 { assert all[i] == es[i - 1]; }
    }
  }

  lemma {:induction false} WalkFound<K(!new)>(d: seq<byte>, reads_: Entry<K> -> bool, from: (nat, nat) -> Lookup,
                                       key: K,
                                        p: nat, n: nat) returns (es: seq<Entry<K>>)
    requires GoesOn(d, reads_, from, key) && NeedsPairs(reads_, from) && from(p, n) != Absent
    ensures Walk(reads_, p, es) && EndsAtFirst(es, key) && |es| <= n
    decreases n
  {
    var e: Entry<K> :| reads_(e) && e.start == p;
    OneStep(d, reads_, from, key, e, n);
    if e.key == key {
      es := [e];
    } else {
      var rest := WalkFound(d, reads_, from, key, e.end, n - 1);
      es := [e] + rest;
      OneMoreFirst(reads_, e, rest, key);
    }
  }

  // ---------------------------------------------------------------- integer keys

  /** A whole-number key and a value whose end can be told. */
  predicate IntEntry(d: seq<byte>, e: IntPair) {
    IntKey(d, e.start) == Some((e.key, e.value)) && Skip(d, e.value) == Some(e.end)
  }

  function IntReads(d: seq<byte>): IntPair -> bool {
    (e: IntPair) => IntEntry(d, e)
  }

  function IntFrom(d: seq<byte>, key: int): (nat, nat) -> Lookup {
    (p: nat, n: nat) => MapIntFrom(d, p, n, key)
  }

  ghost predicate IntWalk(d: seq<byte>, p: nat, es: seq<IntPair>) {
    Walk(IntReads(d), p, es)
  }

  /** The walk over the pairs of the map gets to the first with the key. */
  ghost predicate IntReaches(d: seq<byte>, key: int, es: seq<IntPair>) {
    EndsAtFirst(es, key) && exists p :: Announces(d, p, |es|) && IntWalk(d, p, es)
  }

  lemma IntGoesOn(d: seq<byte>, key: int)
    ensures GoesOn(d, IntReads(d), IntFrom(d, key), key)
  {
    forall e: IntPair, n: nat | IntEntry(d, e)
      ensures MapIntFrom(d, e.start, n + 1, key) == if e.key == key then Sliced(d, e.value, e.end)
        else MapIntFrom(d, e.end, n, key)
    {
      IntKeyStep(d, e.start, n, key, e.key, e.value, e.end);
    }
  }

  lemma IntNeedsPairs(d: seq<byte>, key: int)
    ensures NeedsPairs(IntReads(d), IntFrom(d, key))
  {
    forall p: nat, n: nat | MapIntFrom(d, p, n, key) != Absent
      ensures n > 0 && exists e: IntPair :: IntReads(d)(e) && e.start == p
    {
      var (k, v) := IntKey(d, p).value;
      var e := Entry(p, k, v, Skip(d, v).value);
      assert IntReads(d)(e);
    }
  }

  /** On any input the answer is the value of the first pair with the key, as far as it is in the data. */
  lemma MapIntAnswers(d: seq<byte>, key: int, es: seq<IntPair>)
    requires IntReaches(d, key, es)
    ensures var last := es[|es| - 1]; MapInt(d, key) == Sliced(d, last.value, last.end)
  {
    var p :| Announces(d, p, |es|) && IntWalk(d, p, es);
    IntGoesOn(d, key);
    WalkDecides(d, IntReads(d), IntFrom(d, key), key, p, ReadLen(d, 0).value.value, es);
  }

  lemma MapIntReaches(d: seq<byte>, key: int) returns (es: seq<IntPair>)
    requires MapInt(d, key) != Absent
    ensures IntReaches(d, key, es)
  {
    var l := ReadLen(d, 0).value;
    IntGoesOn(d, key);
    IntNeedsPairs(d, key);
    es := WalkFound(d, IntReads(d), IntFrom(d, key), key, l.size, l.value);
    assert Announces(d, l.size, |es|);
  }

  /** The lookup gives nothing exactly when no pair with the key is reached. */
  lemma MapIntAbsentIff(d: seq<byte>, key: int)
    ensures MapInt(d, key) == Absent <==> !exists es: seq<IntPair> :: IntReaches(d, key, es)
  {
    if es: seq<IntPair> :| IntReaches(d, key, es) { MapIntAnswers(d, key, es); }
    if MapInt(d, key) != Absent { var es := MapIntReaches(d, key); }
  }

  /** The lookup slices past the end exactly when the first pair reached with the key has a value that ends there. */
  lemma MapIntPanicsIff(d: seq<byte>, key: int)
    ensures MapInt(d, key) == OutOfBounds <==> exists es: seq<IntPair> ::
      IntReaches(d, key, es) && es[|es| - 1].end > |d|
  {
    if es: seq<IntPair> :| IntReaches(d, key, es) && es[|es| - 1].end > |d| { MapIntAnswers(d, key, es); }
    if MapInt(d, key) == OutOfBounds {
      var es := MapIntReaches(d, key);
      MapIntAnswers(d, key, es);
    }
  }

  // ---------------------------------------------------------------- text keys

  /** A text key and a value whose end can be told, or a key of another kind with something after it. */
  predicate TextEntry(d: seq<byte>, e: TextPair) {
    && e.start < |d| && Skip(d, e.value) == Some(e.end)
    && if d[e.start] / 32 == 3 then
         && ReadLen(d, e.start).Some?
         && var l := ReadLen(d, e.start).value;
            e.value == e.start + l.size + l.value && e.value <= |d| && e.key == Some(d[e.start + l.size..e.value])
       else
         e.key == None && Skip(d, e.start) == Some(e.value)
  }

  function TextReads(d: seq<byte>): TextPair -> bool {
    (e: TextPair) => TextEntry(d, e)
  }

  function TextFrom(d: seq<byte>, key: seq<byte>): (nat, nat) -> Lookup {
    (p: nat, n: nat) => MapTextFrom(d, p, n, key)
  }

  ghost predicate TextWalk(d: seq<byte>, p: nat, es: seq<TextPair>) {
    Walk(TextReads(d), p, es)
  }

  lemma TextEntryStep(d: seq<byte>, n: nat, key: seq<byte>, e: TextPair)
    requires TextEntry(d, e)
    ensures MapTextFrom(d, e.start, n + 1, key)
         == if e.key == Some(key) then Sliced(d, e.value, e.end) else MapTextFrom(d, e.end, n, key)
  {
    if d[e.start] / 32 == 3 {
      TextKeyStep(d, e.start, n, key, e.start + ReadLen(d, e.start).value.size, e.value, e.end);
    } else {
      OtherKeyStep(d, e.start, n, key, e.value, e.end);
    }
  }

  /** The pair a text lookup reads at a position where it does not give up. */
  lemma TextEntryAt(d: seq<byte>, p: nat, n: nat, key: seq<byte>) returns (e: TextPair)
    requires MapTextFrom(d, p, n, key) != Absent
    ensures n > 0 && e.start == p && TextEntry(d, e)
  {
    if d[p] / 32 == 3 {
      var l := ReadLen(d, p).value;
      var v := p + l.size + l.value;
      e := Entry(p, Some(d[p + l.size..v]), v, Skip(d, v).value);
    } else {
      var v := KeySkipped(d, p);
      e := Entry(p, None, v, Skip(d, v).value);
    }
  }

  lemma KeySkipped(d: seq<byte>, p: nat) returns (v: nat)
    requires SkipMany(d, p, 2).Some?
    ensures Skip(d, p) == Some(v) && Skip(d, v) == SkipMany(d, p, 2)
  {
    v := Skip(d, p).value;
    assert SkipMany(d, p, 2) == SkipMany(d, v, 1);
    assert SkipMany(d, Skip(d, v).value, 0) == Skip(d, v);
  }

  lemma TextGoesOn(d: seq<byte>, key: seq<byte>)
    ensures GoesOn(d, TextReads(d), TextFrom(d, key), Some(key))
  {
    forall e: TextPair, n: nat | TextEntry(d, e)
      ensures MapTextFrom(d, e.start, n + 1, key)
           == if e.key == Some(key) then Sliced(d, e.value, e.end) else MapTextFrom(d, e.end, n, key)
    {
      TextEntryStep(d, n, key, e);
    }
  }

  lemma TextNeedsPairs(d: seq<byte>, key: seq<byte>)
    ensures NeedsPairs(TextReads(d), TextFrom(d, key))
  {
    forall p: nat, n: nat | MapTextFrom(d, p, n, key) != Absent
      ensures n > 0 && exists e: TextPair :: TextReads(d)(e) && e.start == p
    {
      var e := TextEntryAt(d, p, n, key);
      assert TextReads(d)(e);
    }
  }

  ghost predicate TextReaches(d: seq<byte>, key: seq<byte>, es: seq<TextPair>) {
    EndsAtFirst(es, Some(key)) && exists p :: Announces(d, p, |es|) && TextWalk(d, p, es)
  }

  lemma MapTextAnswers(d: seq<byte>, key: seq<byte>, es: seq<TextPair>)
    requires TextReaches(d, key, es)
    ensures var last := es[|es| - 1]; MapText(d, key) == Sliced(d, last.value, last.end)
  {
    var p :| Announces(d, p, |es|) && TextWalk(d, p, es);
    TextGoesOn(d, key);
    WalkDecides(d, TextReads(d), TextFrom(d, key), Some(key), p, ReadLen(d, 0).value.value, es);
  }

  lemma MapTextReaches(d: seq<byte>, key: seq<byte>) returns (es: seq<TextPair>)
    requires MapText(d, key) != Absent
    ensures TextReaches(d, key, es)
  {
    var l := ReadLen(d, 0).value;
    TextGoesOn(d, key);
    TextNeedsPairs(d, key);
    es := WalkFound(d, TextReads(d), TextFrom(d, key), Some(key), l.size, l.value);
    assert Announces(d, l.size, |es|);
  }

  lemma MapTextAbsentIff(d: seq<byte>, key: seq<byte>)
    ensures MapText(d, key) == Absent <==> !exists es: seq<TextPair> :: TextReaches(d, key, es)
  {
    if es: seq<TextPair> :| TextReaches(d, key, es) { MapTextAnswers(d, key, es); }
    if MapText(d, key) != Absent { var es := MapTextReaches(d, key); }
  }

  lemma MapTextPanicsIff(d: seq<byte>, key: seq<byte>)
    ensures MapText(d, key) == OutOfBounds <==> exists es: seq<TextPair> ::
      TextReaches(d, key, es) && es[|es| - 1].end > |d|
  {
    if es: seq<TextPair> :| TextReaches(d, key, es) && es[|es| - 1].end > |d| { MapTextAnswers(d, key, es); }
    if MapText(d, key) == OutOfBounds {
      var es := MapTextReaches(d, key);
      MapTextAnswers(d, key, es);
    }
  }

  // ---------------------------------------------------------------- a check beforehand

  /** The whole item can be skipped, and ends within the data. */
  predicate IsWhole(d: seq<byte>) {
    Skip(d, 0).Some? && Skip(d, 0).value <= |d|
  }

  lemma IntKeySkips(d: seq<byte>, p: nat)
    requires IntKey(d, p).Some?
    ensures Skip(d, p) == Some(IntKey(d, p).value.1)
  {
  }

  lemma TwoSkipped(d: seq<byte>, p: nat, n: nat)
    requires n > 0 && SkipMany(d, p, 2 * n).Some?
    ensures Skip(d, p).Some? && Skip(d, Skip(d, p).value).Some?
    ensures SkipMany(d, p, 2 * n) == SkipMany(d, Skip(d, Skip(d, p).value).value, 2 * (n - 1))
  {
    var q := Skip(d, p).value;
    assert SkipMany(d, p, 2 * n) == SkipMany(d, q, 2 * n - 1);
  }

  lemma {:induction false} IntPairsInBounds(d: seq<byte>, p: nat, n: nat, key: int)
    requires SkipMany(d, p, 2 * n).Some? && SkipMany(d, p, 2 * n).value <= |d|
    ensures MapIntFrom(d, p, n, key) != OutOfBounds
    decreases n
  {
    if n > 0 && IntKey(d, p).Some? {
      TwoSkipped(d, p, n);
      IntKeySkips(d, p);
      var v := Skip(d, p).value;
      IntKeyStep(d, p, n - 1, key, IntKey(d, p).value.0, v, Skip(d, v).value);
      IntPairsInBounds(d, Skip(d, v).value, n - 1, key);
    }
  }

  lemma {:induction false} TextPairsInBounds(d: seq<byte>, p: nat, n: nat, key: seq<byte>)
    requires SkipMany(d, p, 2 * n).Some? && SkipMany(d, p, 2 * n).value <= |d|
    ensures MapTextFrom(d, p, n, key) != OutOfBounds
    decreases n
  {
    if n > 0 && MapTextFrom(d, p, n, key) != Absent {
      TwoSkipped(d, p, n);
      var e := TextEntryAt(d, p, n, key);
      assert Skip(d, p) == Some(e.value);
      TextEntryStep(d, n - 1, key, e);
      TextPairsInBounds(d, e.end, n - 1, key);
    }
  }

  lemma WholeMap(d: seq<byte>)
    requires IsWhole(d) && d[0] / 32 == 5
    ensures ReadLen(d, 0).Some?
    ensures var l := ReadLen(d, 0).value; Skip(d, 0) == SkipMany(d, l.size, 2 * l.value)
  {
  }

  /** On an item that is whole no lookup slices past the end, whatever the key. */
  lemma WholeMapsAreSafe(d: seq<byte>)
    requires IsWhole(d)
    ensures forall key :: MapInt(d, key) != OutOfBounds
    ensures forall key :: MapText(d, key) != OutOfBounds
  {
    if d[0] / 32 == 5 {
      WholeMap(d);
      var l := ReadLen(d, 0).value;
      forall key ensures MapInt(d, key) != OutOfBounds { IntPairsInBounds(d, l.size, l.value, key); }
      forall key ensures MapText(d, key) != OutOfBounds { TextPairsInBounds(d, l.size, l.value, key); }
    }
  }
}
