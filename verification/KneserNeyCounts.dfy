/** Over whole runs the hash tables stand for plain counts. */
module KneserNeyCounts {
  import opened Bits
  import opened OpenTable
  import opened Options
  import opened Sets
  import opened KneserNey
  import opened KneserNeyLaws

  function TriVal(): Trigram -> nat {
    (e: Trigram) => Word(e.count)
  }

  function TriOne(): Trigram -> nat {
    (e: Trigram) => OnlyIf(TriKey()(e).Some?, 1)
  }

  function BiVal(): Bigram -> nat {
    (e: Bigram) => Word(e.count)
  }

  lemma TriLaws()
    ensures Marks(TriOne(), TriKey())
    ensures forall e :: TriKey()(TriBump()(e)) == TriKey()(e) && TriVal()(TriBump()(e)) == UpTo(TriVal()(e) + 1)
  {
    forall e: Trigram ensures TriOne()(e) == if TriKey()(e).Some? then 1 else 0 {
    }
    forall e: Trigram ensures TriKey()(TriBump()(e)) == TriKey()(e) && TriVal()(TriBump()(e)) == UpTo(TriVal()(e) + 1) {
      assert TriBump()(e) == Trigram(e.w0, e.w1, e.w2, Saturated(e.count));
      assert TriVal()(e) == e.count && TriVal()(TriBump()(e)) == Saturated(e.count);
      assert TriKey()(e) == if e.w0 == EMPTY_WORD then None else Some(Tri(e.w0, e.w1, e.w2));
    }
  }

  lemma BiLaws()
    ensures Marks(Present(), BiKey())
    ensures forall e :: BiKey()(BiBump()(e)) == BiKey()(e) && BiVal()(BiBump()(e)) == UpTo(BiVal()(e) + 1)
  {
    forall e: Bigram ensures Present()(e) == if BiKey()(e).Some? then 1 else 0 {
      PresentIs(e);
    }
    forall e: Bigram ensures BiKey()(BiBump()(e)) == BiKey()(e) && BiVal()(BiBump()(e)) == UpTo(BiVal()(e) + 1) {
      assert BiBump()(e) == Bigram(e.w0, e.w1, Saturated(e.count), e.continuations);
      assert BiVal()(e) == e.count && BiVal()(BiBump()(e)) == Saturated(e.count);
      assert BiKey()(e) == if e.w0 == EMPTY_WORD then None else Some(Bi(e.w0, e.w1));
    }
  }

  /** The trigrams of a run that are in the vocabulary, in order. */
  function TriKeys(run: seq<Tri>): seq<Tri> {
    if |run| == 0 then []
    else TriKeys(run[..|run| - 1]) + if InVocabulary(run[|run| - 1]) then [run[|run| - 1]] else []
  }

  /** The two bigrams of each of them, in order. */
  function BiKeys(run: seq<Tri>): seq<Bi> {
    if |run| == 0 then []
    else
      var k := run[|run| - 1];
      BiKeys(run[..|run| - 1]) + if InVocabulary(k) then [Bi(k.w0, k.w1), Bi(k.w1, k.w2)] else []
  }

  ghost predicate TablesRefine(m: Tables, tri: map<Tri, nat>, bi: map<Bi, nat>) {
    && Refines(m.tri, TriKey(), TriVal(), TriOne(), tri)
    && Refines(m.bi, BiKey(), BiVal(), Present(), bi)
  }

  lemma IncTrigramRefines(t: seq<Trigram>, m: map<Tri, nat>, k: Tri)
    requires |t| == MAX_TRIGRAMS && Intact(t, TriKey(), TriHome()) && k.w0 != EMPTY_WORD
    requires Refines(t, TriKey(), TriVal(), TriOne(), m)
    ensures Refines(IncTrigram(t, k), TriKey(), TriVal(), TriOne(), Tallied(m, k, MAX_TRIGRAMS))
  {
    TriLaws();
    assert TriVal()(Trigram(k.w0, k.w1, k.w2, 1)) == 1;
    UpsertRefines(t, TriKey(), TriHome(), TriVal(), TriOne(), m, k, Trigram(k.w0, k.w1, k.w2, 1), TriBump());
  }

  lemma IncBigramRefines(t: seq<Bigram>, m: map<Bi, nat>, k: Bi)
    requires |t| == MAX_BIGRAMS && Intact(t, BiKey(), BiHome()) && k.w0 != EMPTY_WORD
    requires Refines(t, BiKey(), BiVal(), Present(), m)
    ensures Refines(IncBigram(t, k), BiKey(), BiVal(), Present(), Tallied(m, k, MAX_BIGRAMS))
    ensures Intact(IncBigram(t, k), BiKey(), BiHome())
  {
    BiLaws();
    assert BiVal()(Bigram(k.w0, k.w1, 1, 0)) == 1;
    UpsertRefines(t, BiKey(), BiHome(), BiVal(), Present(), m, k, Bigram(k.w0, k.w1, 1, 0), BiBump());
    IncBigramKeeps(t, k, k);
  }

  lemma IncContinuationRefines(t: seq<Bigram>, m: map<Bi, nat>, k: Bi)
    requires |t| == MAX_BIGRAMS && Intact(t, BiKey(), BiHome())
    requires Refines(t, BiKey(), BiVal(), Present(), m)
    ensures Refines(IncContinuation(t, k), BiKey(), BiVal(), Present(), m)
  {
    var u := IncContinuation(t, k);
    var r, s := BigramSlot(t, k);
    forall v | 0 <= v < |t| ensures BiKey()(u[v]) == BiKey()(t[v]) && BiVal()(u[v]) == BiVal()(t[v]) {
      assert BiVal()(u[v]) == u[v].count && BiVal()(t[v]) == t[v].count;
    }
    forall q ensures q in m <==> Holds(u, BiKey(), q) {
      IncContinuationKeeps(t, k, q);
    }
    if r < |t| {
      TotalUpdate(t, Present(), s, u[s]);
      PresentIs(t[s]);
      PresentIs(u[s]);
    }
  }

  lemma EmptyRefines()
    ensures TablesRefine(EmptyTables(), map[], map[])
  {
    var m := EmptyTables();
    assert forall i :: 0 <= i < |m.tri| ==> m.tri[i] == NO_TRIGRAM;
    assert forall i :: 0 <= i < |m.bi| ==> m.bi[i] == NO_BIGRAM;
    assert TriKey()(NO_TRIGRAM) == None && BiKey()(NO_BIGRAM) == None;
    TriLaws();
    BiLaws();
    TotalZero(m.tri, TriOne());
    TotalZero(m.bi, Present());
  }

  lemma ObservedRefines(m: Tables, tri: map<Tri, nat>, bi: map<Bi, nat>, k: Tri)
    requires Sound(m) && TablesRefine(m, tri, bi) && InVocabulary(k)
    ensures TablesRefine(Observed(m, k), Tallied(tri, k, MAX_TRIGRAMS),
              Tallied(Tallied(bi, Bi(k.w0, k.w1), MAX_BIGRAMS), Bi(k.w1, k.w2), MAX_BIGRAMS))
  {
    var q, s := Bi(k.w0, k.w1), Bi(k.w1, k.w2);
    var b1 := IncBigram(m.bi, q);
    IncTrigramRefines(m.tri, tri, k);
    IncBigramRefines(m.bi, bi, q);
    IncBigramRefines(b1, Tallied(bi, q, MAX_BIGRAMS), s);
    IncContinuationRefines(IncBigram(b1, s), Tallied(Tallied(bi, q, MAX_BIGRAMS), s, MAX_BIGRAMS), q);
  }

  lemma {:induction false} TalliesMore(p: seq<Tri>, k: Tri)
    requires InVocabulary(k)
    ensures TallyAll(TriKeys(p + [k]), MAX_TRIGRAMS) == Tallied(TallyAll(TriKeys(p), MAX_TRIGRAMS), k, MAX_TRIGRAMS)
    ensures TallyAll(BiKeys(p + [k]), MAX_BIGRAMS)
         == Tallied(Tallied(TallyAll(BiKeys(p), MAX_BIGRAMS), Bi(k.w0, k.w1), MAX_BIGRAMS), Bi(k.w1, k.w2), MAX_BIGRAMS)
  {
    var q, s := Bi(k.w0, k.w1), Bi(k.w1, k.w2);
    assert (p + [k])[..|p|] == p;
    TallyMore(TriKeys(p), k, MAX_TRIGRAMS);
    TallyMore(BiKeys(p), q, MAX_BIGRAMS);
    TallyMore(BiKeys(p) + [q], s, MAX_BIGRAMS);
    assert BiKeys(p + [k]) == BiKeys(p) + [q] + [s];
  }

  /** After any run both tables are the tallies of the run's trigrams and bigrams. */
  lemma {:induction false} EveryRunRefines(run: seq<Tri>)
    ensures TablesRefine(ObservedAll(run), TallyAll(TriKeys(run), MAX_TRIGRAMS), TallyAll(BiKeys(run), MAX_BIGRAMS))
  {
    if |run| == 0 {
      EmptyRefines();
    } else {
      var p, k := run[..|run| - 1], run[|run| - 1];
      EveryRunRefines(p);
      EveryRunIsSound(p);
      assert run == p + [k];
      if InVocabulary(k) {
        ObservedRefines(ObservedAll(p), TallyAll(TriKeys(p), MAX_TRIGRAMS), TallyAll(BiKeys(p), MAX_BIGRAMS), k);
        TalliesMore(p, k);
      } else {
        assert TriKeys(run) == TriKeys(p) && BiKeys(run) == BiKeys(p);
      }
    }
  }

  lemma TallyMore<K>(ks: seq<K>, k: K, capacity: nat)
    ensures TallyAll(ks + [k], capacity) == Tallied(TallyAll(ks, capacity), k, capacity)
  {
    assert (ks + [k])[..|ks|] == ks;
  }

  /** What the table answers for a key: its count in the map, and zero for any other. */
  lemma TrigramCountIs(t: seq<Trigram>, m: map<Tri, nat>, k: Tri)
    requires Intact(t, TriKey(), TriHome()) && Refines(t, TriKey(), TriVal(), TriOne(), m)
    ensures TrigramCount(t, k) == if k in m then m[k] else 0
  {
    forall e: Trigram ensures CountOf(k)(e) == if TriKey()(e) == Some(k) then e.count else 0 {
      CountOfIs(k, e);
    }
    if s :| 0 <= s < |t| && TriKey()(t[s]) == Some(k) {
      assert forall i :: 0 <= i < |t| && i != s ==> TriKey()(t[i]) != Some(k);
      TotalSingle(t, CountOf(k), s);
      assert TriVal()(t[s]) == t[s].count;
    } else {
      assert !Holds(t, TriKey(), k);
      TotalZero(t, CountOf(k));
    }
  }

  /** While a run's distinct trigrams fit, each is counted as often as it was observed, up to 65535. */
  lemma RunCounts(run: seq<Tri>, k: Tri)
    requires |Distinct(TriKeys(run))| <= MAX_TRIGRAMS
    ensures TrigramCount(ObservedAll(run).tri, k) == UpTo(multiset(TriKeys(run))[k])
  {
    EveryRunRefines(run);
    EveryRunIsSound(run);
    TallyIsOccurrences(TriKeys(run), MAX_TRIGRAMS);
    TrigramCountIs(ObservedAll(run).tri, TallyAll(TriKeys(run), MAX_TRIGRAMS), k);
  }

  function BiCountOf(k: Bi): Bigram -> nat {
    (e: Bigram) => OnlyIf(BiKey()(e) == Some(k), e.count)
  }

  function BigramCount(t: seq<Bigram>, k: Bi): nat {
    Total(t, BiCountOf(k))
  }

  lemma BiCountOfIs(k: Bi, e: Bigram)
    ensures BiCountOf(k)(e) == if BiKey()(e) == Some(k) then e.count else 0
  {
  }

  lemma BigramCountIs(t: seq<Bigram>, m: map<Bi, nat>, k: Bi)
    requires Intact(t, BiKey(), BiHome()) && Refines(t, BiKey(), BiVal(), Present(), m)
    ensures BigramCount(t, k) == if k in m then m[k] else 0
  {
    forall e: Bigram ensures BiCountOf(k)(e) == if BiKey()(e) == Some(k) then e.count else 0 {
      BiCountOfIs(k, e);
    }
    if s :| 0 <= s < |t| && BiKey()(t[s]) == Some(k) {
      assert forall i :: 0 <= i < |t| && i != s ==> BiKey()(t[i]) != Some(k);
      TotalSingle(t, BiCountOf(k), s);
      assert BiVal()(t[s]) == t[s].count;
    } else {
      assert !Holds(t, BiKey(), k);
      TotalZero(t, BiCountOf(k));
    }
  }

  /** The same for bigrams, two of which come with every trigram. */
  lemma RunBigramCounts(run: seq<Tri>, k: Bi)
    requires |Distinct(BiKeys(run))| <= MAX_BIGRAMS
    ensures BigramCount(ObservedAll(run).bi, k) == UpTo(multiset(BiKeys(run))[k])
  {
    EveryRunRefines(run);
    EveryRunIsSound(run);
    TallyIsOccurrences(BiKeys(run), MAX_BIGRAMS);
    BigramCountIs(ObservedAll(run).bi, TallyAll(BiKeys(run), MAX_BIGRAMS), k);
  }

  // ---------------------------------------------------------------- a run that breaks the discount law

  function TriAt(c: Bi, w: nat): Tri {
    Tri(c.w0, c.w1, if w < 0x1_0000 then w else 0)
  }

  function CountAt(t: seq<Trigram>, c: Bi): nat -> nat {
    (w: nat) => TrigramCount(t, TriAt(c, w))
  }

  /** The total of a context is the sum over the words that follow it. */
  lemma ContextCountIsSum(t: seq<Trigram>, c: Bi, n: nat)
    requires n == 0x1_0000 && c.w0 != EMPTY_WORD
    ensures ContextCount(t, c) == SumTo(CountAt(t, c), n)
  {
    var g := (w: nat) => CountOf(TriAt(c, w));
    forall e: Trigram, i: nat | i < n
      ensures g(i)(e) == if NextWord()(e) == i then CountIn(c)(e) else 0
    {
      assert g(i) == CountOf(TriAt(c, i));
      CountOfIs(TriAt(c, i), e);
      CountInIs(c, e);
      NextWordIs(e);
    }
    forall e: Trigram ensures NextWord()(e) < n {
      NextWordIs(e);
    }
    SumOfTotals(t, g, NextWord(), CountIn(c), n);
    SumToSame(TotalsOf(t, g), CountAt(t, c), n);
  }

  lemma SumOfTwo(f: nat -> nat, n: nat, x: nat, y: nat)
    requires n >= 2 && forall w :: 0 <= w < n ==> f(w) == if w == 0 then x else if w == 1 then y else 0
    ensures SumTo(f, n) == x + y
  {
    var a, b := (w: nat) => if w == 0 then x else 0, (w: nat) => if w == 1 then y else 0;
    SumToPlus(a, b, f, n);
    SumToSingle(a, n, 0);
    SumToSingle(b, n, 1);
  }

  lemma {:induction false} KeysInVocabulary(run: seq<Tri>)
    requires forall k :: k in run ==> InVocabulary(k)
    ensures TriKeys(run) == run
  {
    if |run| > 0 {
      KeysInVocabulary(run[..|run| - 1]);
      assert run == run[..|run| - 1] + [run[|run| - 1]];
    }
  }

  lemma {:induction false} Repeated(k: Tri, n: nat, q: Tri)
    ensures multiset(seq(n, _ => k))[q] == if q == k then n else 0
  {
    if n > 0 {
      Repeated(k, n - 1, q);
      assert seq(n, _ => k) == seq(n - 1, _ => k) + [k];
    }
  }

  /** One trigram 65535 times and another of its context twice. */
  function Overfull(): seq<Tri> {
    seq(0xFFFF, _ => Tri(0, 0, 0)) + [Tri(0, 0, 1), Tri(0, 0, 1)]
  }

  lemma TwoKinds(run: seq<Tri>, n: nat, k: Tri, q: Tri, x: Tri)
    requires run == seq(n, _ => k) + [q, q] && k != q
    ensures |Distinct(run)| <= 2 && forall p :: p in run ==> p == k || p == q
    ensures multiset(run)[x] == if x == k then n else if x == q then 2 else 0
  {
    var first := seq(n, _ => k);
    assert forall p :: p in run ==> p == k || p == q;
    SubsetSize(Distinct(run), {k, q});
    Repeated(k, n, x);
    assert multiset(run) == multiset(first) + multiset([q, q]);
    assert multiset([q, q])[x] == if x == q then 2 else 0;
  }

  lemma OverfullCounts(w: u16)
    ensures TrigramCount(ObservedAll(Overfull()).tri, Tri(0, 0, w))
         == if w == 0 then 0xFFFF else if w == 1 then 2 else 0
  {
    var run := Overfull();
    TwoKinds(run, 0xFFFF, Tri(0, 0, 0), Tri(0, 0, 1), Tri(0, 0, w));
    KeysInVocabulary(run);
    RunCounts(run, Tri(0, 0, w));
  }

  /** Its context totals 65537, which the 16-bit shift cuts to one: the mass is more than one. */
  lemma OverfullBreaksTheLaw()
    ensures ContextCount(ObservedAll(Overfull()).tri, Bi(0, 0)) == 0x1_0001
    ensures ContextMass(ObservedAll(Overfull()), Bi(0, 0)) > FP_ONE
  {
    var m := ObservedAll(Overfull());
    var n: nat := 0x1_0000;
    ContextCountIsSum(m.tri, Bi(0, 0), n);
    forall w: nat | w < n ensures CountAt(m.tri, Bi(0, 0))(w) == if w == 0 then 0xFFFF else if w == 1 then 2 else 0 {
      OverfullCounts(w);
    }
    SumOfTwo(CountAt(m.tri, Bi(0, 0)), n, 0xFFFF, 2);
    EveryRunIsSound(Overfull());
    ContextMassFitsIff(m, Bi(0, 0));
  }
}
