/** The trigram model's tables as sequences, and the laws of its discounted probabilities. */
module KneserNey {
  import opened Bits
  import opened OpenTable
  import opened Options

  const MAX_VOCAB := 4096
  const MAX_TRIGRAMS := 32768
  const MAX_BIGRAMS := 16384
  const DISCOUNT: nat := 49152
  const EMPTY_WORD: u16 := 0xFFFF

  datatype Trigram = Trigram(w0: u16, w1: u16, w2: u16, count: u16)
  datatype Bigram = Bigram(w0: u16, w1: u16, count: u16, continuations: u16)
  datatype Tri = Tri(w0: u16, w1: u16, w2: u16)
  datatype Bi = Bi(w0: u16, w1: u16)

  const NO_TRIGRAM := Trigram(EMPTY_WORD, EMPTY_WORD, EMPTY_WORD, 0)
  const NO_BIGRAM := Bigram(EMPTY_WORD, EMPTY_WORD, 0, 0)

  function TriKey(): Trigram -> Option<Tri> {
    (e: Trigram) => if e.w0 == EMPTY_WORD then None else Some(Tri(e.w0, e.w1, e.w2))
  }

  function BiKey(): Bigram -> Option<Bi> {
    (e: Bigram) => if e.w0 == EMPTY_WORD then None else Some(Bi(e.w0, e.w1))
  }

  function TriHome(): (h: Tri -> nat)
    ensures forall k :: h(k) < MAX_TRIGRAMS
  {
    (k: Tri) => ((k.w0 as int) * 65537 + (k.w1 as int) * 257 + k.w2) % 32768
  }

  function BiHome(): (h: Bi -> nat)
    ensures forall k :: h(k) < MAX_BIGRAMS
  {
    (k: Bi) => ((k.w0 as int) * 65537 + k.w1) % 16384
  }

  function Saturated(x: nat): u16 {
    Min(x + 1, U16_MAX)
  }

  function TriBump(): Trigram -> Trigram {
    (e: Trigram) => Trigram(e.w0, e.w1, e.w2, Saturated(e.count))
  }

  function BiBump(): Bigram -> Bigram {
    (e: Bigram) => Bigram(e.w0, e.w1, Saturated(e.count), e.continuations)
  }

  function IncTrigram(t: seq<Trigram>, k: Tri): (u: seq<Trigram>)
    requires |t| == MAX_TRIGRAMS
    ensures |u| == |t|
  {
    Upsert(t, TriKey(), TriHome()(k), k, Trigram(k.w0, k.w1, k.w2, 1), TriBump())
  }

  /** Whether counting `k` takes a new slot. */
  predicate IsNewTrigram(t: seq<Trigram>, k: Tri)
    requires |t| == MAX_TRIGRAMS
  {
    var r := Probe(t, TriKey(), TriHome()(k), k, 0);
    r < |t| && TriKey()(t[Slot(TriHome()(k), r, |t|)]) == None
  }

  function IncBigram(t: seq<Bigram>, k: Bi): (u: seq<Bigram>)
    requires |t| == MAX_BIGRAMS
    ensures |u| == |t|
  {
    Upsert(t, BiKey(), BiHome()(k), k, Bigram(k.w0, k.w1, 1, 0), BiBump())
  }

  /** One more continuation for `k` if the table holds it. */
  function IncContinuation(t: seq<Bigram>, k: Bi): (u: seq<Bigram>)
    requires |t| == MAX_BIGRAMS
    ensures |u| == |t|
  {
    var r := Probe(t, BiKey(), BiHome()(k), k, 0);
    if r == |t| then t
    else
      var s := Slot(BiHome()(k), r, |t|);
      if BiKey()(t[s]) == None then t else t[s := t[s].(continuations := Saturated(t[s].continuations))]
  }

  datatype Tables = Tables(tri: seq<Trigram>, bi: seq<Bigram>)

  predicate Sized(m: Tables) {
    |m.tri| == MAX_TRIGRAMS && |m.bi| == MAX_BIGRAMS
  }

  function EmptyTables(): (m: Tables)
    ensures Sized(m)
  {
    Tables(seq(MAX_TRIGRAMS, _ => NO_TRIGRAM), seq(MAX_BIGRAMS, _ => NO_BIGRAM))
  }

  predicate InVocabulary(k: Tri) {
    k.w0 < MAX_VOCAB && k.w1 < MAX_VOCAB && k.w2 < MAX_VOCAB
  }

  /** One observation: the trigram, its two bigrams, and a continuation if the trigram is new. */
  function Observed(m: Tables, k: Tri): (n: Tables)
    requires Sized(m)
    ensures Sized(n)
  {
    if !InVocabulary(k) then m
    else
      var b1 := IncBigram(m.bi, Bi(k.w0, k.w1));
      var b2 := IncBigram(b1, Bi(k.w1, k.w2));
      Tables(IncTrigram(m.tri, k),
             if IsNewTrigram(m.tri, k) then IncContinuation(b2, Bi(k.w0, k.w1)) else b2)
  }

  function ObservedAll(run: seq<Tri>): (m: Tables)
    ensures Sized(m)
  {
    if |run| == 0 then EmptyTables() else Observed(ObservedAll(run[..|run| - 1]), run[|run| - 1])
  }

  // ---------------------------------------------------------------- what the tables say

  function OnlyIf(b: bool, n: nat): nat {
    if b then n else 0
  }

  /** One for each trigram that continues the context `c`. */
  function BranchOf(c: Bi): Trigram -> nat {
    (e: Trigram) => if TriKey()(e).Some? && e.w0 == c.w0 && e.w1 == c.w1 then 1 else 0
  }

  function CountIn(c: Bi): Trigram -> nat {
    (e: Trigram) => OnlyIf(TriKey()(e).Some? && e.w0 == c.w0 && e.w1 == c.w1, e.count)
  }

  function CountOf(k: Tri): Trigram -> nat {
    (e: Trigram) => OnlyIf(TriKey()(e) == Some(k), e.count)
  }

  function ContinuationsOf(c: Bi): Bigram -> nat {
    (e: Bigram) => OnlyIf(BiKey()(e) == Some(c), e.continuations)
  }

  function PrecedesOf(w: int): Bigram -> nat {
    (e: Bigram) => if BiKey()(e).Some? && e.w1 == w then 1 else 0
  }

  /** The number of distinct words that follow context `c` in the trigram table. */
  function Branches(t: seq<Trigram>, c: Bi): nat {
    Total(t, BranchOf(c))
  }

  function ContextCount(t: seq<Trigram>, c: Bi): nat {
    Total(t, CountIn(c))
  }

  function TrigramCount(t: seq<Trigram>, k: Tri): nat {
    Total(t, CountOf(k))
  }

  function Continuations(t: seq<Bigram>, c: Bi): nat {
    Total(t, ContinuationsOf(c))
  }

  function Predecessors(t: seq<Bigram>, w: int): nat {
    Total(t, PrecedesOf(w))
  }

  ghost predicate HasRoom(t: seq<Bigram>) {
    exists s :: 0 <= s < |t| && BiKey()(t[s]) == None
  }

  /** What every run of observations keeps. */
  ghost predicate Sound(m: Tables) {
    && Sized(m)
    && Intact(m.tri, TriKey(), TriHome())
    && Intact(m.bi, BiKey(), BiHome())
    && (forall s :: 0 <= s < |m.tri| && TriKey()(m.tri[s]).Some? ==>
          m.tri[s].count >= 1 && InVocabulary(TriKey()(m.tri[s]).value))
    && forall c :: Agree(m, c)
  }

  /** A stored context has exactly as many continuations as the trigram table has branches for it;
      a context is missing only if it has no branch yet or the bigram table is full. */
  ghost predicate Agree(m: Tables, c: Bi) {
    if Holds(m.bi, BiKey(), c) then Continuations(m.bi, c) == Branches(m.tri, c)
    else Branches(m.tri, c) == 0 || !HasRoom(m.bi)
  }

  // ---------------------------------------------------------------- one step keeps it

  lemma TrigramSlot(t: seq<Trigram>, k: Tri) returns (r: nat, s: nat)
    requires |t| == MAX_TRIGRAMS && Intact(t, TriKey(), TriHome())
    ensures r == Probe(t, TriKey(), TriHome()(k), k, 0) <= |t|
    ensures r < |t| ==> s == Slot(TriHome()(k), r, |t|) && (TriKey()(t[s]) == None || TriKey()(t[s]) == Some(k))
    ensures Holds(t, TriKey(), k) <==> r < |t| && TriKey()(t[s]) == Some(k)
    ensures IsNewTrigram(t, k) <==> r < |t| && TriKey()(t[s]) == None
    ensures s < |t|
  {
    r := Probe(t, TriKey(), TriHome()(k), k, 0);
    ProbeStops(t, TriKey(), TriHome()(k), k, 0);
    ProbeDecides(t, TriKey(), TriHome(), k);
    s := if r < |t| then Slot(TriHome()(k), r, |t|) else 0;
  }

  lemma IncTrigramKeeps(t: seq<Trigram>, k: Tri)
    requires |t| == MAX_TRIGRAMS && Intact(t, TriKey(), TriHome()) && k.w0 != EMPTY_WORD
    ensures Intact(IncTrigram(t, k), TriKey(), TriHome())
  {
    UpsertIntact(t, TriKey(), TriHome(), k, Trigram(k.w0, k.w1, k.w2, 1), TriBump());
  }

  lemma IncTrigramBranches(t: seq<Trigram>, k: Tri, c: Bi)
    requires |t| == MAX_TRIGRAMS && Intact(t, TriKey(), TriHome()) && k.w0 != EMPTY_WORD
    ensures Branches(IncTrigram(t, k), c)
         == Branches(t, c) + if IsNewTrigram(t, k) && c == Bi(k.w0, k.w1) then 1 else 0
  {
    var r, s := TrigramSlot(t, k);
    if r < |t| {
      TotalUpdate(t, BranchOf(c), s, IncTrigram(t, k)[s]);
    }
  }

  lemma IncTrigramCount(t: seq<Trigram>, k: Tri, q: Tri)
    requires |t| == MAX_TRIGRAMS && Intact(t, TriKey(), TriHome()) && k.w0 != EMPTY_WORD
    ensures TrigramCount(IncTrigram(t, k), q)
         == if q != k then TrigramCount(t, q)
            else if Holds(t, TriKey(), k) then Saturated(TrigramCount(t, k))
            else if IsNewTrigram(t, k) then 1 else 0
  {
    var r, s := TrigramSlot(t, k);
    if r < |t| {
      TotalUpdate(t, CountOf(q), s, IncTrigram(t, k)[s]);
    }
    if Holds(t, TriKey(), k) {
      TotalSingle(t, CountOf(k), s);
    } else {
      TotalZero(t, CountOf(k));
    }
  }

  lemma BigramSlot(t: seq<Bigram>, k: Bi) returns (r: nat, s: nat)
    requires |t| == MAX_BIGRAMS && Intact(t, BiKey(), BiHome())
    ensures r == Probe(t, BiKey(), BiHome()(k), k, 0) <= |t|
    ensures r < |t| ==> s == Slot(BiHome()(k), r, |t|) && (BiKey()(t[s]) == None || BiKey()(t[s]) == Some(k))
    ensures Holds(t, BiKey(), k) <==> r < |t| && BiKey()(t[s]) == Some(k)
    ensures s < |t|
  {
    r := Probe(t, BiKey(), BiHome()(k), k, 0);
    ProbeStops(t, BiKey(), BiHome()(k), k, 0);
    ProbeDecides(t, BiKey(), BiHome(), k);
    s := if r < |t| then Slot(BiHome()(k), r, |t|) else 0;
  }

  lemma IncBigramKeeps(t: seq<Bigram>, k: Bi, c: Bi)
    requires |t| == MAX_BIGRAMS && Intact(t, BiKey(), BiHome()) && k.w0 != EMPTY_WORD
    ensures var u := IncBigram(t, k);
      && Intact(u, BiKey(), BiHome())
      && (Holds(u, BiKey(), c) <==> Holds(t, BiKey(), c) || (c == k && HasRoom(t)))
      && (HasRoom(u) ==> HasRoom(t))
      && Continuations(u, c) == Continuations(t, c)
  {
    var u := IncBigram(t, k);
    UpsertIntact(t, BiKey(), BiHome(), k, Bigram(k.w0, k.w1, 1, 0), BiBump());
    UpsertHolds(t, BiKey(), BiHome(), k, Bigram(k.w0, k.w1, 1, 0), BiBump(), c);
    var r, s := BigramSlot(t, k);
    if r < |t| {
      TotalUpdate(t, ContinuationsOf(c), s, u[s]);
      assert forall v :: 0 <= v < |t| && v != s ==> u[v] == t[v];
    }
  }

  lemma ContinuationsIfAbsent(t: seq<Bigram>, c: Bi)
    requires !Holds(t, BiKey(), c)
    ensures Continuations(t, c) == 0
  {
    TotalZero(t, ContinuationsOf(c));
  }

  lemma IncContinuationKeeps(t: seq<Bigram>, k: Bi, c: Bi)
    requires |t| == MAX_BIGRAMS && Intact(t, BiKey(), BiHome())
    ensures var u := IncContinuation(t, k);
      && Intact(u, BiKey(), BiHome())
      && (Holds(u, BiKey(), c) <==> Holds(t, BiKey(), c))
      && (HasRoom(u) <==> HasRoom(t))
      && Continuations(u, c)
         == if c == k && Holds(t, BiKey(), k) then Saturated(Continuations(t, k)) else Continuations(t, c)
  {
    var u := IncContinuation(t, k);
    var r, s := BigramSlot(t, k);
    assert forall v :: 0 <= v < |t| ==> BiKey()(u[v]) == BiKey()(t[v]);
    assert forall v :: 0 <= v < |t| ==> BiKey()(t[v]) == BiKey()(u[v]);
    if Holds(t, BiKey(), k) {
      TotalUpdate(t, ContinuationsOf(c), s, u[s]);
      TotalSingle(t, ContinuationsOf(k), s);
    }
    if Holds(t, BiKey(), c) {
      var v :| 0 <= v < |t| && BiKey()(t[v]) == Some(c);
      assert BiKey()(u[v]) == Some(c);
    }
  }

  lemma {:induction false} BranchesBound(t: seq<Trigram>, c: Bi)
    ensures Branches(t, c) <= |t|
  {
    if |t| > 0 { BranchesBound(t[..|t| - 1], c); }
  }

  lemma EmptyIsSound()
    ensures Sound(EmptyTables())
  {
    var m := EmptyTables();
    assert forall i :: 0 <= i < |m.tri| ==> m.tri[i] == NO_TRIGRAM;
    assert forall i :: 0 <= i < |m.bi| ==> m.bi[i] == NO_BIGRAM;
    assert TriKey()(NO_TRIGRAM) == None && BiKey()(NO_BIGRAM) == None;
    forall c ensures Agree(m, c) {
      assert BranchOf(c)(NO_TRIGRAM) == 0;
      TotalZero(m.tri, BranchOf(c));
    }
  }

  lemma ObservedAgrees(m: Tables, k: Tri, c: Bi)
    requires Sound(m) && InVocabulary(k)
    ensures Agree(Observed(m, k), c)
  {
    var q, p := Bi(k.w0, k.w1), Bi(k.w1, k.w2);
    var b1 := IncBigram(m.bi, q);
    var b2 := IncBigram(b1, p);
    IncTrigramBranches(m.tri, k, c);
    IncBigramKeeps(m.bi, q, c);
    IncBigramKeeps(b1, p, c);
    IncBigramKeeps(m.bi, q, q);
    IncBigramKeeps(b1, p, q);
    IncContinuationKeeps(b2, q, c);
    BranchesBound(m.tri, c);
    assert Agree(m, c);
    if !Holds(m.bi, BiKey(), c) { ContinuationsIfAbsent(m.bi, c); }
  }

  lemma ObservedEntries(m: Tables, k: Tri)
    requires Sound(m) && InVocabulary(k)
    ensures var t := IncTrigram(m.tri, k);
      forall s :: 0 <= s < |t| && TriKey()(t[s]).Some? ==> t[s].count >= 1 && InVocabulary(TriKey()(t[s]).value)
  {
    var r, s := TrigramSlot(m.tri, k);
  }

  lemma ObservedIsSound(m: Tables, k: Tri)
    requires Sound(m)
    ensures Sound(Observed(m, k))
  {
    if InVocabulary(k) {
      var q, p := Bi(k.w0, k.w1), Bi(k.w1, k.w2);
      var b1 := IncBigram(m.bi, q);
      var b2 := IncBigram(b1, p);
      IncTrigramKeeps(m.tri, k);
      IncBigramKeeps(m.bi, q, q);
      IncBigramKeeps(b1, p, q);
      IncContinuationKeeps(b2, q, q);
      ObservedEntries(m, k);
      forall c ensures Agree(Observed(m, k), c) {
        ObservedAgrees(m, k, c);
      }
    }
  }

  /** Every run of observations, full tables or not, leaves the tables sound. */
  lemma {:induction false} EveryRunIsSound(run: seq<Tri>)
    ensures Sound(ObservedAll(run))
  {
    if |run| == 0 {
      EmptyIsSound();
    } else {
      EveryRunIsSound(run[..|run| - 1]);
      ObservedIsSound(ObservedAll(run[..|run| - 1]), run[|run| - 1]);
    }
  }
}
