/** The model's arrays and probing loops, against the tables of KneserNey. */
module KneserNeyModel {
  import opened Bits
  import opened OpenTable
  import opened Options
  import opened KneserNey
  import opened KneserNeyLaws
  import opened KneserNeyCounts

  datatype Unigram = Unigram(continuationCount: u16, rawCount: u16)

  /** The slot where probing for `k` stops, or none if the table is full of other keys. */
  method FindTrigram(t: array<Trigram>, k: Tri) returns (r: nat, s: nat)
    requires t.Length == MAX_TRIGRAMS
    ensures r == Probe(t[..], TriKey(), TriHome()(k), k, 0)
    ensures r < t.Length ==> s == Slot(TriHome()(k), r, t.Length)
  {
    var base := TriHome()(k);
    r, s := 0, base;
    while r < t.Length
      invariant 0 <= r <= t.Length
      invariant Probe(t[..], TriKey(), base, k, 0) == Probe(t[..], TriKey(), base, k, r)
    {
      s := (base + r) % t.Length;
      assert s == Slot(base, r, t.Length) && t[..][s] == t[s];
      assert TriKey()(t[s]) == if t[s].w0 == EMPTY_WORD then None else Some(Tri(t[s].w0, t[s].w1, t[s].w2));
      if t[s].w0 == EMPTY_WORD || (t[s].w0 == k.w0 && t[s].w1 == k.w1 && t[s].w2 == k.w2) {
        return;
      }
      r := r + 1;
    }
  }

  method FindBigram(t: array<Bigram>, k: Bi) returns (r: nat, s: nat)
    requires t.Length == MAX_BIGRAMS
    ensures r == Probe(t[..], BiKey(), BiHome()(k), k, 0)
    ensures r < t.Length ==> s == Slot(BiHome()(k), r, t.Length)
  {
    var base := BiHome()(k);
    r, s := 0, base;
    while r < t.Length
      invariant 0 <= r <= t.Length
      invariant Probe(t[..], BiKey(), base, k, 0) == Probe(t[..], BiKey(), base, k, r)
    {
      s := (base + r) % t.Length;
      assert s == Slot(base, r, t.Length) && t[..][s] == t[s];
      assert BiKey()(t[s]) == if t[s].w0 == EMPTY_WORD then None else Some(Bi(t[s].w0, t[s].w1));
      if t[s].w0 == EMPTY_WORD || (t[s].w0 == k.w0 && t[s].w1 == k.w1) {
        return;
      }
      r := r + 1;
    }
  }

  class Model {
    const trigrams: array<Trigram>
    const bigrams: array<Bigram>
    const unigrams: array<Unigram>
    var trigramCount: nat
    var bigramCount: nat
    var totalContinuation: nat
    var totalTokens: nat
    /** The observations so far. */
    ghost var run: seq<Tri>

    ghost function Tables(): KneserNey.Tables
      reads this, trigrams, bigrams
    {
      KneserNey.Tables(trigrams[..], bigrams[..])
    }

    ghost predicate Shape() {
      trigrams.Length == MAX_TRIGRAMS && bigrams.Length == MAX_BIGRAMS && unigrams.Length == MAX_VOCAB
    }

    /** The tables are those of the run, and the counters count them. */
    ghost predicate Valid()
      reads this, trigrams, bigrams
    {
      && Shape()
      && Tables() == ObservedAll(run)
      && trigramCount == Total(trigrams[..], TriOne())
      && bigramCount == Occupied(bigrams[..]) == totalContinuation
      && totalTokens == |TriKeys(run)|
    }

    constructor ()
      ensures Valid() && run == []
      ensures fresh(trigrams) && fresh(bigrams) && fresh(unigrams)
    {
      trigrams := new Trigram[MAX_TRIGRAMS](_ => NO_TRIGRAM);
      bigrams := new Bigram[MAX_BIGRAMS](_ => NO_BIGRAM);
      unigrams := new Unigram[MAX_VOCAB](_ => Unigram(0, 0));
      trigramCount, bigramCount, totalContinuation, totalTokens := 0, 0, 0, 0;
      run := [];
      new;
      assert trigrams[..] == EmptyTables().tri && bigrams[..] == EmptyTables().bi;
      EmptyRefines();
    }

    method IncTrigramCount(k: Tri) returns (isNew: bool)
      requires Shape() && k.w0 != EMPTY_WORD && trigramCount == Total(trigrams[..], TriOne())
      modifies trigrams, this`trigramCount
      ensures trigrams[..] == IncTrigram(old(trigrams[..]), k)
      ensures isNew == IsNewTrigram(old(trigrams[..]), k)
      ensures trigramCount == Total(trigrams[..], TriOne())
    {
      ghost var t := trigrams[..];
      var r, s := FindTrigram(trigrams, k);
      isNew := false;
      if r < MAX_TRIGRAMS {
        var e := trigrams[s];
        assert TriKey()(e) == if e.w0 == EMPTY_WORD then None else Some(Tri(e.w0, e.w1, e.w2));
        assert TriBump()(e) == Trigram(e.w0, e.w1, e.w2, Saturated(e.count));
        if e.w0 == EMPTY_WORD {
          trigrams[s] := Trigram(k.w0, k.w1, k.w2, 1);
          trigramCount := trigramCount + 1;
          isNew := true;
        } else {
          trigrams[s] := e.(count := Saturated(e.count));
        }
        assert trigrams[..] == t[s := trigrams[s]];
        TotalUpdate(t, TriOne(), s, trigrams[s]);
        TriLaws();
      }
    }

    method IncBigramCount(k: Bi)
      requires Shape() && k.w0 != EMPTY_WORD && bigramCount == Occupied(bigrams[..])
      modifies bigrams, this`bigramCount
      ensures bigrams[..] == IncBigram(old(bigrams[..]), k)
      ensures bigramCount == Occupied(bigrams[..])
    {
      ghost var t := bigrams[..];
      var r, s := FindBigram(bigrams, k);
      if r < MAX_BIGRAMS {
        var e := bigrams[s];
        assert BiKey()(e) == if e.w0 == EMPTY_WORD then None else Some(Bi(e.w0, e.w1));
        assert BiBump()(e) == Bigram(e.w0, e.w1, Saturated(e.count), e.continuations);
        if e.w0 == EMPTY_WORD {
          bigrams[s] := Bigram(k.w0, k.w1, 1, 0);
          bigramCount := bigramCount + 1;
        } else {
          bigrams[s] := e.(count := Saturated(e.count));
        }
        assert bigrams[..] == t[s := bigrams[s]];
        TotalUpdate(t, Present(), s, bigrams[s]);
        PresentIs(e);
        PresentIs(bigrams[s]);
      }
    }

    method IncBigramContinuation(k: Bi)
      requires Shape()
      modifies bigrams
      ensures bigrams[..] == IncContinuation(old(bigrams[..]), k)
      ensures Occupied(bigrams[..]) == Occupied(old(bigrams[..]))
    {
      ghost var t := bigrams[..];
      var r, s := FindBigram(bigrams, k);
      if r < MAX_BIGRAMS && bigrams[s].w0 != EMPTY_WORD {
        var e := bigrams[s];
        assert BiKey()(e) == Some(Bi(e.w0, e.w1));
        bigrams[s] := e.(continuations := Saturated(e.continuations));
        assert bigrams[..] == t[s := bigrams[s]];
        TotalUpdate(t, Present(), s, bigrams[s]);
        PresentIs(e);
        PresentIs(bigrams[s]);
      } else if r < MAX_BIGRAMS {
        assert BiKey()(bigrams[s]) == None;
      }
    }

    /** How many stored bigrams end in `w`. */
    method DistinctPredecessors(w: u16) returns (n: nat)
      requires Shape()
      ensures n == Predecessors(bigrams[..], w)
    {
      n := 0;
      var i := 0;
      while i < MAX_BIGRAMS
        invariant 0 <= i <= MAX_BIGRAMS && n == Total(bigrams[..i], PrecedesOf(w))
      {
        assert bigrams[..i + 1][..i] == bigrams[..i];
        assert PrecedesOf(w)(bigrams[i]) == if BiKey()(bigrams[i]).Some? && bigrams[i].w1 == w then 1 else 0;
        if bigrams[i].w0 != EMPTY_WORD && bigrams[i].w1 == w {
          n := n + 1;
        }
        i := i + 1;
      }
      assert bigrams[..MAX_BIGRAMS] == bigrams[..];
    }

    /** The trigram, its two bigrams and, for a new trigram, the continuations of the first. */
    method CountAll(k: Tri)
      requires Shape() && InVocabulary(k)
      requires trigramCount == Total(trigrams[..], TriOne()) && bigramCount == Occupied(bigrams[..])
      modifies trigrams, bigrams, this`trigramCount, this`bigramCount
      ensures Tables() == Observed(old(Tables()), k)
      ensures trigramCount == Total(trigrams[..], TriOne()) && bigramCount == Occupied(bigrams[..])
    {
      var isNew := IncTrigramCount(k);
      IncBigramCount(Bi(k.w0, k.w1));
      IncBigramCount(Bi(k.w1, k.w2));
      if isNew {
        IncBigramContinuation(Bi(k.w0, k.w1));
      }
    }

    method ObserveTrigram(w0: u16, w1: u16, w2: u16)
      requires Valid()
      modifies this, trigrams, bigrams, unigrams
      ensures Valid() && run == old(run) + [Tri(w0, w1, w2)]
      ensures !InVocabulary(Tri(w0, w1, w2)) ==>
        trigrams[..] == old(trigrams[..]) && bigrams[..] == old(bigrams[..]) && unigrams[..] == old(unigrams[..])
      ensures InVocabulary(Tri(w0, w1, w2)) ==>
        unigrams[..] == old(unigrams[..])[w2 := Unigram(Min(Predecessors(bigrams[..], w2), U16_MAX),
          Saturated(old(unigrams[w2].rawCount)))]
    {
      var k := Tri(w0, w1, w2);
      run := run + [k];
      assert run[..|run| - 1] == old(run);
      if w0 >= MAX_VOCAB || w1 >= MAX_VOCAB || w2 >= MAX_VOCAB {
        return;
      }
      totalTokens := totalTokens + 1;
      CountAll(k);
      var n := DistinctPredecessors(w2);
      unigrams[w2] := Unigram(Min(Min(n, U32_MAX), U16_MAX), unigrams[w2].rawCount);
      totalContinuation := Min(bigramCount, U32_MAX);
      OccupiedBound(bigrams[..]);
      unigrams[w2] := unigrams[w2].(rawCount := Saturated(unigrams[w2].rawCount));
    }

    /** The count a run gave a trigram. */
    method GetTrigramCount(k: Tri) returns (count: nat)
      requires Valid()
      ensures count == TrigramCount(trigrams[..], k)
      ensures |Distinct(TriKeys(run))| <= MAX_TRIGRAMS ==> count == UpTo(multiset(TriKeys(run))[k])
    {
      EveryRunIsSound(run);
      var r, s := FindTrigram(trigrams, k);
      ghost var r', s' := TrigramSlot(trigrams[..], k);
      count := if r < MAX_TRIGRAMS && trigrams[s].w0 != EMPTY_WORD then trigrams[s].count else 0;
      SlotCount(trigrams[..], k, r, s);
      if |Distinct(TriKeys(run))| <= MAX_TRIGRAMS { RunCounts(run, k); }
    }

    /** The count a run gave a bigram. */
    method GetBigramCount(k: Bi) returns (count: nat)
      requires Valid()
      ensures count == BigramCount(bigrams[..], k)
      ensures |Distinct(BiKeys(run))| <= MAX_BIGRAMS ==> count == UpTo(multiset(BiKeys(run))[k])
    {
      EveryRunIsSound(run);
      var r, s := FindBigram(bigrams, k);
      count := if r < MAX_BIGRAMS && bigrams[s].w0 != EMPTY_WORD then bigrams[s].count else 0;
      SlotBigramCount(bigrams[..], k, r, s);
      if |Distinct(BiKeys(run))| <= MAX_BIGRAMS { RunBigramCounts(run, k); }
    }

    method GetBigramContinuation(c: Bi) returns (n: u16)
      requires Valid()
      ensures n == Saturate16(Continuations(bigrams[..], c))
    {
      EveryRunIsSound(run);
      var r, s := FindBigram(bigrams, c);
      n := if r < MAX_BIGRAMS && bigrams[s].w0 != EMPTY_WORD then bigrams[s].continuations else 0;
      SlotContinuations(bigrams[..], c, r, s);
    }

    method CountTrigrams(f: Trigram -> nat, limit: nat) returns (n: nat)
      requires Shape() && forall i :: 0 <= i < MAX_TRIGRAMS ==> f(trigrams[i]) <= limit
      requires limit * MAX_TRIGRAMS <= U32_MAX
      ensures n == Total(trigrams[..], f) <= limit * MAX_TRIGRAMS
    {
      n := 0;
      var i := 0;
      while i < MAX_TRIGRAMS
        invariant 0 <= i <= MAX_TRIGRAMS && n == Total(trigrams[..i], f) <= limit * i
      {
        assert trigrams[..i + 1][..i] == trigrams[..i];
        Grows(limit, i, MAX_TRIGRAMS);
        n := Min(n + f(trigrams[i]), U32_MAX);
        i := i + 1;
      }
      assert trigrams[..MAX_TRIGRAMS] == trigrams[..];
    }

    method CountBigrams(f: Bigram -> nat) returns (n: nat)
      requires Shape() && forall i :: 0 <= i < MAX_BIGRAMS ==> f(bigrams[i]) <= 1
      ensures n == Total(bigrams[..], f) <= MAX_BIGRAMS
    {
      n := 0;
      var i := 0;
      while i < MAX_BIGRAMS
        invariant 0 <= i <= MAX_BIGRAMS && n == Total(bigrams[..i], f) <= i
      {
        assert bigrams[..i + 1][..i] == bigrams[..i];
        n := n + f(bigrams[i]);
        i := i + 1;
      }
      assert bigrams[..MAX_BIGRAMS] == bigrams[..];
    }

    method UnigramProbability(w: u16) returns (p: u32)
      requires Valid()
      ensures p == KneserNeyLaws.Unigram(Tables(), w)
    {
      OccupiedBound(bigrams[..]);
      if totalContinuation == 0 {
        return 0;
      }
      var n := DistinctPredecessors(w);
      p := FpDiv(Min(n, U32_MAX), Min(bigramCount, U32_MAX));
    }

    method LowerProbability(w1: u16, w2: u16) returns (p: u32)
      requires Valid()
      ensures p == BigramProbability(Tables(), w1, w2)
    {
      IndicatorsAreSmall(w1, w2);
      var ends := CountTrigrams(EndsOf(w1, w2), 1);
      var total := CountTrigrams(MiddleOf(w1), 1);
      var lower := UnigramProbability(w2);
      if total == 0 {
        return lower;
      }
      var follows := CountBigrams(FollowsOf(w1));
      p := BigramMix(ends, total, follows, lower);
    }

    /** The probability of a word after two others. */
    method GetProbability(k: Tri) returns (p: u32)
      requires Valid()
      ensures p == Probability(Tables(), k)
    {
      var c := Bi(k.w0, k.w1);
      var count := GetTrigramCount(k);
      CountsAreWords(c);
      var total := CountTrigrams(CountIn(c), U16_MAX);
      var n := GetBigramContinuation(c);
      var lower := LowerProbability(k.w1, k.w2);
      if total > 0 {
        p := Min((Discounted(Saturate16(count), total) as int) + FpMul(Gamma(n, total), lower), U32_MAX);
      } else {
        p := lower;
      }
    }
  }

  lemma IndicatorsAreSmall(w1: u16, w2: u16)
    ensures forall e :: EndsOf(w1, w2)(e) <= 1 && MiddleOf(w1)(e) <= 1
    ensures forall e :: FollowsOf(w1)(e) <= 1
  {
    forall e: Trigram ensures EndsOf(w1, w2)(e) <= 1 && MiddleOf(w1)(e) <= 1 {
      assert EndsOf(w1, w2)(e) == OnlyIf(TriKey()(e).Some? && e.w1 == w1 && e.w2 == w2, 1);
      assert MiddleOf(w1)(e) == OnlyIf(TriKey()(e).Some? && e.w1 == w1, 1);
    }
    forall e: Bigram ensures FollowsOf(w1)(e) <= 1 {
      assert FollowsOf(w1)(e) == OnlyIf(BiKey()(e).Some? && e.w0 == w1, 1);
    }
  }

  lemma CountsAreWords(c: Bi)
    ensures forall e :: CountIn(c)(e) <= U16_MAX
  {
    forall e: Trigram ensures CountIn(c)(e) <= U16_MAX {
      assert CountIn(c)(e) == OnlyIf(TriKey()(e).Some? && e.w0 == c.w0 && e.w1 == c.w1, e.count);
    }
  }

  lemma Grows(limit: nat, i: nat, n: nat)
    requires i < n
    ensures limit * i + limit == limit * (i + 1) <= limit * n
  {
  }

  lemma SlotContinuations(t: seq<Bigram>, c: Bi, r: nat, s: nat)
    requires |t| == MAX_BIGRAMS && Intact(t, BiKey(), BiHome()) && r == Probe(t, BiKey(), BiHome()(c), c, 0)
    requires r < |t| ==> s == Slot(BiHome()(c), r, |t|)
    ensures Continuations(t, c) == if r < |t| && t[s].w0 != EMPTY_WORD then t[s].continuations else 0
  {
    var r', s' := BigramSlot(t, c);
    forall e: Bigram ensures ContinuationsOf(c)(e) == if BiKey()(e) == Some(c) then e.continuations else 0 {
    }
    if r < |t| { assert BiKey()(t[s]) == if t[s].w0 == EMPTY_WORD then None else Some(Bi(t[s].w0, t[s].w1)); }
    if Holds(t, BiKey(), c) {
      assert forall i :: 0 <= i < |t| && i != s ==> BiKey()(t[i]) != Some(c);
      TotalSingle(t, ContinuationsOf(c), s);
    } else {
      ContinuationsIfAbsent(t, c);
    }
  }

  lemma SlotBigramCount(t: seq<Bigram>, c: Bi, r: nat, s: nat)
    requires |t| == MAX_BIGRAMS && Intact(t, BiKey(), BiHome()) && r == Probe(t, BiKey(), BiHome()(c), c, 0)
    requires r < |t| ==> s == Slot(BiHome()(c), r, |t|)
    ensures BigramCount(t, c) == if r < |t| && t[s].w0 != EMPTY_WORD then t[s].count else 0
  {
    var r', s' := BigramSlot(t, c);
    forall e: Bigram ensures BiCountOf(c)(e) == if BiKey()(e) == Some(c) then e.count else 0 {
      BiCountOfIs(c, e);
    }
    if r < |t| { assert BiKey()(t[s]) == if t[s].w0 == EMPTY_WORD then None else Some(Bi(t[s].w0, t[s].w1)); }
    if Holds(t, BiKey(), c) {
      assert forall i :: 0 <= i < |t| && i != s ==> BiKey()(t[i]) != Some(c);
      TotalSingle(t, BiCountOf(c), s);
    } else {
      TotalZero(t, BiCountOf(c));
    }
  }

  lemma SlotCount(t: seq<Trigram>, k: Tri, r: nat, s: nat)
    requires |t| == MAX_TRIGRAMS && Intact(t, TriKey(), TriHome()) && r == Probe(t, TriKey(), TriHome()(k), k, 0)
    requires r < |t| ==> s == Slot(TriHome()(k), r, |t|)
    ensures TrigramCount(t, k) == if r < |t| && t[s].w0 != EMPTY_WORD then t[s].count else 0
  {
    var r', s' := TrigramSlot(t, k);
    forall e: Trigram ensures CountOf(k)(e) == if TriKey()(e) == Some(k) then e.count else 0 {
      CountOfIs(k, e);
    }
    if Holds(t, TriKey(), k) {
      assert forall i :: 0 <= i < |t| && i != s ==> TriKey()(t[i]) != Some(k);
      TotalSingle(t, CountOf(k), s);
    } else {
      TotalZero(t, CountOf(k));
    }
  }
}
