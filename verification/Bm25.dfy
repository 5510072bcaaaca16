/** The lexical index as a function of what was indexed, and why the order of indexing does not matter. */
module Bm25 {
  import opened Bits
  import opened Permutations
  import opened Sets

  const MAX_TERMS := 4096
  const MAX_TERM_BYTES := 64
  const MAX_DOCS := 2048
  const MAX_POSTINGS := 32768
  const NONE: nat := 0xFFFF_FFFF

  /** Terms are told apart by their bytes as well as their hash. */
  datatype Key = Key(hash: u64, bytes: seq<byte>)
  datatype Call = Call(key: Key, doc: nat)

  /** Document ids, terms created, (term, document) pairs posted, and every accepted call. */
  datatype Corpus = Corpus(ids: seq<u64>, known: seq<Key>, posts: seq<Call>, calls: seq<Call>)

  const EMPTY := Corpus([], [], [], [])

  // ---------------------------------------------------------------- one call

  function AddedDocument(c: Corpus, id: u64): Corpus {
    if |c.ids| >= MAX_DOCS then c else c.(ids := c.ids + [id])
  }

  predicate WellFormed(c: Corpus, call: Call) {
    0 < |call.key.bytes| <= MAX_TERM_BYTES && call.doc < |c.ids|
  }

  /** A call is turned away if it is malformed or needs a term or a posting there is no room for. */
  predicate Accepted(c: Corpus, call: Call) {
    && WellFormed(c, call)
    && (call.key in c.known || |c.known| < MAX_TERMS)
    && (call in c.posts || |c.posts| < MAX_POSTINGS)
  }

  /** A new term is kept even when there is no room for its posting. */
  function Indexed(c: Corpus, call: Call): (d: Corpus)
    ensures d.ids == c.ids
  {
    if !WellFormed(c, call) || (call.key !in c.known && |c.known| >= MAX_TERMS) then c
    else
      var k := c.(known := if call.key in c.known then c.known else c.known + [call.key]);
      if call in c.posts then k.(calls := c.calls + [call])
      else if |c.posts| >= MAX_POSTINGS then k
      else k.(posts := c.posts + [call], calls := c.calls + [call])
  }

  /** Terms and postings are never repeated, and the postings are the pairs of the accepted calls. */
  ghost predicate Consistent(c: Corpus) {
    && |c.ids| <= MAX_DOCS && |c.known| <= MAX_TERMS && |c.posts| <= MAX_POSTINGS
    && (forall i, j :: 0 <= i < j < |c.known| ==> c.known[i] != c.known[j])
    && (forall i, j :: 0 <= i < j < |c.posts| ==> c.posts[i] != c.posts[j])
    && (forall p :: p in c.posts <==> p in c.calls)
    && (forall i :: 0 <= i < |c.posts| ==> c.posts[i].key in c.known && c.posts[i].doc < |c.ids|)
    && (forall i :: 0 <= i < |c.known| ==> 0 < |c.known[i].bytes| <= MAX_TERM_BYTES)
  }

  lemma IndexedKeeps(c: Corpus, call: Call)
    requires Consistent(c)
    ensures Consistent(Indexed(c, call))
    ensures Indexed(c, call).calls == if Accepted(c, call) then c.calls + [call] else c.calls
  {
  }

  datatype Op = AddOp(id: u64) | IndexOp(call: Call)

  function Replayed(history: seq<Op>): Corpus {
    if |history| == 0 then EMPTY
    else
      var c := Replayed(history[..|history| - 1]);
      match history[|history| - 1]
      case AddOp(id) => AddedDocument(c, id)
      case IndexOp(call) => Indexed(c, call)
  }

  lemma {:induction false} ReplayedIsConsistent(history: seq<Op>)
    ensures Consistent(Replayed(history))
  {
    if |history| > 0 {
      var c := Replayed(history[..|history| - 1]);
      ReplayedIsConsistent(history[..|history| - 1]);
      match history[|history| - 1]
      case AddOp(id) =>
      case IndexOp(call) => IndexedKeeps(c, call);
    }
  }

  // ---------------------------------------------------------------- counting

  function Times(calls: seq<Call>, call: Call): nat {
    if |calls| == 0 then 0 else Times(calls[..|calls| - 1], call) + if calls[|calls| - 1] == call then 1 else 0
  }

  /** The stored term frequency. */
  function Frequency(calls: seq<Call>, call: Call): u16 {
    Min(U16_MAX, Times(calls, call))
  }

  function CallsFor(calls: seq<Call>, doc: nat): nat {
    if |calls| == 0 then 0 else CallsFor(calls[..|calls| - 1], doc) + if calls[|calls| - 1].doc == doc then 1 else 0
  }

  function Length(calls: seq<Call>, doc: nat): u32 {
    Min(U32_MAX, CallsFor(calls, doc))
  }

  function TotalLength(calls: seq<Call>): u64 {
    Min(U64_MAX, |calls|)
  }

  /** In how many of the first `n` documents the term occurs. */
  function DocumentsWith(calls: seq<Call>, key: Key, n: nat): nat {
    if n == 0 then 0 else DocumentsWith(calls, key, n - 1) + if Call(key, n - 1) in calls then 1 else 0
  }

  lemma {:induction false} TimesIsMultiplicity(calls: seq<Call>, call: Call)
    ensures Times(calls, call) == multiset(calls)[call]
  {
    if |calls| > 0 {
      TimesIsMultiplicity(calls[..|calls| - 1], call);
      assert calls == calls[..|calls| - 1] + [calls[|calls| - 1]];
    }
  }

  lemma {:induction false} CallsForWithout(b: seq<Call>, i: nat, doc: nat)
    requires i < |b|
    ensures CallsFor(b, doc) == CallsFor(b[..i] + b[i + 1..], doc) + if b[i].doc == doc then 1 else 0
  {
    if i < |b| - 1 {
      var n := |b| - 1;
      CallsForWithout(b[..n], i, doc);
      LastAfterRemoval(b, i);
    } else {
      RemoveLast(b);
    }
  }

  lemma {:induction false} CallsForIgnoresOrder(a: seq<Call>, b: seq<Call>, doc: nat)
    requires multiset(a) == multiset(b)
    ensures CallsFor(a, doc) == CallsFor(b, doc)
    decreases |a|
  {
    SameLength(a, b);
    if |a| > 0 {
      var n := |a| - 1;
      var i := LastOccurs(a, b);
      CallsForWithout(b, i, doc);
      var rest := b[..i] + b[i + 1..];
      RestOfSame(a, b, i);
      CallsForIgnoresOrder(a[..n], rest, doc);
    }
  }

  // ---------------------------------------------------------------- scores

  const K1_Q16: u64 := 78643
  const B_Q16: u64 := 49152
  const Q16_ONE: u64 := 65536

  function Q16Mul(x: u64, y: u64): u64 {
    Min((x as int) * y / 0x1_0000, U64_MAX)
  }

  function Q16Div(x: u64, y: u64): u64 {
    if y == 0 then U64_MAX else Min((x as int) * 0x1_0000 / y, U64_MAX)
  }

  function SatAdd(x: nat, y: nat): u64 {
    Min(x + y, U64_MAX)
  }

  function Idf(df: nat, docs: nat, ln: u64 -> u64): u64
    requires df <= MAX_POSTINGS && docs <= MAX_DOCS
  {
    ln(SatAdd(Q16_ONE, Q16Div((Max(docs - df, 0) * 2 + 1) * 0x1_0000, (df * 2 + 1) * 0x1_0000)))
  }

  function TermScore(frequency: u64, length: u64, average: u64, idf: u64): u64 {
    if frequency == 0 || average == 0 then 0
    else
      var numerator := Q16Mul(frequency, K1_Q16 + Q16_ONE);
      var normalization := SatAdd(Q16_ONE - B_Q16, Q16Mul(B_Q16, Q16Div(length, average)));
      Q16Mul(idf, Q16Div(numerator, SatAdd(frequency, Q16Mul(K1_Q16, normalization))))
  }

  function Average(calls: seq<Call>, docs: nat): u64
    requires docs <= MAX_DOCS
  {
    Q16Div(TotalLength(calls) * 0x1_0000 % 0x1_0000_0000_0000_0000, docs * 0x1_0000)
  }

  /** What one query term adds to a document that contains it. */
  function Contribution(calls: seq<Call>, docs: nat, key: Key, doc: nat, ln: u64 -> u64): u64
    requires docs <= MAX_DOCS
  {
    var df := Min(DocumentsWith(calls, key, docs), MAX_POSTINGS);
    TermScore(Frequency(calls, Call(key, doc)) * 0x1_0000, Length(calls, doc) * 0x1_0000, Average(calls, docs),
      Idf(df, docs, ln))
  }

  /** The saturating sum over the query's terms that the document contains. */
  function Score(calls: seq<Call>, docs: nat, query: seq<Key>, doc: nat, ln: u64 -> u64): u64
    requires docs <= MAX_DOCS
  {
    if |query| == 0 then 0
    else
      var rest, key := Score(calls, docs, query[..|query| - 1], doc, ln), query[|query| - 1];
      if Call(key, doc) in calls then SatAdd(rest, Contribution(calls, docs, key, doc, ln)) else rest
  }

  lemma {:induction false} DocumentsWithSame(a: seq<Call>, b: seq<Call>, key: Key, n: nat)
    requires forall c :: c in a <==> c in b
    ensures DocumentsWith(a, key, n) == DocumentsWith(b, key, n)
  {
    if n > 0 { DocumentsWithSame(a, b, key, n - 1); }
  }

  lemma ContributionIgnoresOrder(a: seq<Call>, b: seq<Call>, docs: nat, key: Key, doc: nat, ln: u64 -> u64)
    requires docs <= MAX_DOCS && multiset(a) == multiset(b)
    ensures Contribution(a, docs, key, doc, ln) == Contribution(b, docs, key, doc, ln)
    ensures Call(key, doc) in a <==> Call(key, doc) in b
  {
    SameMembers(a, b);
    SameLength(a, b);
    TimesIsMultiplicity(a, Call(key, doc));
    TimesIsMultiplicity(b, Call(key, doc));
    CallsForIgnoresOrder(a, b, doc);
    DocumentsWithSame(a, b, key, docs);
  }

  /** A document's score depends on which calls were accepted, not on their order. */
  lemma {:induction false} ScoreIgnoresOrder(a: seq<Call>, b: seq<Call>, docs: nat, query: seq<Key>, doc: nat,
                                             ln: u64 -> u64)
    requires docs <= MAX_DOCS && multiset(a) == multiset(b)
    ensures Score(a, docs, query, doc, ln) == Score(b, docs, query, doc, ln)
  {
    if |query| > 0 {
      ScoreIgnoresOrder(a, b, docs, query[..|query| - 1], doc, ln);
      ContributionIgnoresOrder(a, b, docs, query[|query| - 1], doc, ln);
    }
  }

  // ---------------------------------------------------------------- ranking

  predicate Better(scores: seq<nat>, d: nat, e: nat)
    requires d < |scores| && e < |scores|
  {
    scores[d] > scores[e] || (scores[d] == scores[e] && d < e)
  }

  /** The picks are the best documents with a positive score, in order, lower document first among equals. */
  ghost predicate IsRanking(scores: seq<nat>, picks: seq<nat>) {
    && (forall i :: 0 <= i < |picks| ==> picks[i] < |scores| && scores[picks[i]] > 0)
    && (forall i, j :: 0 <= i < j < |picks| ==> Better(scores, picks[i], picks[j]))
    && (forall i, e: nat :: 0 <= i < |picks| && e < |scores| && e !in picks ==> Better(scores, picks[i], e))
  }

  /** As many picks as there is room for, fewer only if every other score is zero. */
  ghost predicate IsAnswer(scores: seq<nat>, picks: seq<nat>, room: nat) {
    && IsRanking(scores, picks) && |picks| <= room
    && (|picks| < room ==> forall e: nat :: e < |scores| && e !in picks ==> scores[e] == 0)
  }

  lemma Leads(scores: seq<nat>, p: seq<nat>, q: seq<nat>, k: nat)
    requires IsRanking(scores, p) && IsRanking(scores, q) && k < |p| && k < |q| && p[..k] == q[..k]
    ensures p[k] == q[k] || Better(scores, q[k], p[k])
  {
    forall m | 0 <= m < k ensures q[m] != p[k] {
      assert q[m] == q[..k][m] == p[..k][m] == p[m];
      assert Better(scores, p[m], p[k]);
    }
    if p[k] in q {
      var i :| 0 <= i < |q| && q[i] == p[k];
      assert i >= k;
    }
  }

  lemma RankingAgrees(scores: seq<nat>, p: seq<nat>, q: seq<nat>, k: nat)
    requires IsRanking(scores, p) && IsRanking(scores, q) && k < |p| && k < |q| && p[..k] == q[..k]
    ensures p[k] == q[k]
  {
    Leads(scores, p, q, k);
    Leads(scores, q, p, k);
  }

  /** There is one answer. */
  lemma {:induction false} AnswerIsUnique(scores: seq<nat>, p: seq<nat>, q: seq<nat>, room: nat, k: nat)
    requires IsAnswer(scores, p, room) && IsAnswer(scores, q, room) && k <= |p| && k <= |q| && p[..k] == q[..k]
    ensures p == q
    decreases |p| - k
  {
    if k < |p| && k < |q| {
      RankingAgrees(scores, p, q, k);
      AnswerIsUnique(scores, p, q, room, k + 1);
    } else if k < |p| {
      NothingLeft(scores, q, p, room);
    } else if k < |q| {
      NothingLeft(scores, p, q, room);
    }
  }

  lemma NothingLeft(scores: seq<nat>, p: seq<nat>, q: seq<nat>, room: nat)
    requires IsAnswer(scores, p, room) && IsAnswer(scores, q, room) && |p| <= |q| && p == q[..|p|]
    ensures p == q
  {
    if |p| < |q| { OneMorePositive(scores, p, q); }
  }

  lemma OneMorePositive(scores: seq<nat>, p: seq<nat>, q: seq<nat>)
    requires IsRanking(scores, q) && |p| < |q| && p == q[..|p|]
    ensures exists e: nat :: e < |scores| && e !in p && scores[e] > 0
  {
    var e := q[|p|];
    forall i | 0 <= i < |p| ensures p[i] != e { assert Better(scores, q[i], e); }
    assert e !in p;
  }

  // ---------------------------------------------------------------- order of indexing

  /** The documents added, in order. */
  function Ids(history: seq<Op>): (ids: seq<u64>) {
    if |history| == 0 then []
    else
      var rest, op := Ids(history[..|history| - 1]), history[|history| - 1];
      if op.AddOp? then rest + [op.id] else rest
  }

  /** The indexing calls made, in order. */
  function Calls(history: seq<Op>): (calls: seq<Call>) {
    if |history| == 0 then []
    else
      var rest, op := Calls(history[..|history| - 1]), history[|history| - 1];
      if op.IndexOp? then rest + [op.call] else rest
  }

  function Keys(calls: seq<Call>): set<Key> {
    set c | c in calls :: c.key
  }

  function Pairs(calls: seq<Call>): set<Call> {
    set c | c in calls
  }

  /** There is room for so many documents, terms and postings. */
  ghost predicate Fits(ids: seq<u64>, calls: seq<Call>) {
    |ids| <= MAX_DOCS && |Keys(calls)| <= MAX_TERMS && |Pairs(calls)| <= MAX_POSTINGS
  }

  /** Every call has a term of a length that is taken and a document added before it. */
  ghost predicate InOrder(history: seq<Op>) {
    |history| > 0 ==>
      var p, op := history[..|history| - 1], history[|history| - 1];
      InOrder(p) && (op.IndexOp? ==> 0 < |op.call.key.bytes| <= MAX_TERM_BYTES && op.call.doc < |Ids(p)|)
  }

  lemma FitsPrefix(ids: seq<u64>, more: seq<u64>, calls: seq<Call>, longer: seq<Call>)
    requires Fits(more, longer) && |ids| <= |more| && forall c :: c in calls ==> c in longer
    ensures Fits(ids, calls)
  {
    SubsetSize(Keys(calls), Keys(longer));
    SubsetSize(Pairs(calls), Pairs(longer));
  }

  /** The terms in the index are among those of its calls. */
  ghost predicate KnownFrom(c: Corpus, calls: seq<Call>) {
    forall k :: k in c.known ==> k in Keys(calls)
  }

  /** A further call for whose term and pair there is room is accepted. */
  lemma RoomLeft(c: Corpus, call: Call)
    requires Consistent(c) && KnownFrom(c, c.calls) && WellFormed(c, call) && Fits(c.ids, c.calls + [call])
    ensures Accepted(c, call) && KnownFrom(Indexed(c, call), c.calls + [call])
  {
    var more := c.calls + [call];
    assert call in more;
    assert Keys(c.calls) <= Keys(more);
    if call.key !in c.known { DistinctFit(c.known + [call.key], Keys(more)); }
    if call !in c.posts {
      forall q | q in c.posts + [call] ensures q in Pairs(more) { assert q in c.calls || q == call; }
      DistinctFit(c.posts + [call], Pairs(more));
    }
  }

  /** Within capacity every document and every call is accepted. */
  lemma {:induction false} EverythingAccepted(history: seq<Op>)
    requires InOrder(history) && Fits(Ids(history), Calls(history))
    ensures Replayed(history).ids == Ids(history) && Replayed(history).calls == Calls(history)
    ensures KnownFrom(Replayed(history), Calls(history))
  {
    if |history| > 0 {
      var p, op := history[..|history| - 1], history[|history| - 1];
      FitsPrefix(Ids(p), Ids(history), Calls(p), Calls(history));
      EverythingAccepted(p);
      ReplayedIsConsistent(p);
      if op.IndexOp? {
        RoomLeft(Replayed(p), op.call);
        IndexedKeeps(Replayed(p), op.call);
      }
    }
  }

  function Scores(c: Corpus, query: seq<Key>, ln: u64 -> u64): (s: seq<nat>)
    requires |c.ids| <= MAX_DOCS
    ensures |s| == |c.ids|
  {
    seq(|c.ids|, d requires 0 <= d < |c.ids| => Score(c.calls, |c.ids|, query, d, ln))
  }

  lemma FitsIgnoresOrder(ids: seq<u64>, a: seq<Call>, b: seq<Call>)
    requires multiset(a) == multiset(b) && Fits(ids, a)
    ensures Fits(ids, b)
  {
    SameMembers(a, b);
    assert Keys(a) == Keys(b) && Pairs(a) == Pairs(b);
  }

  /** Within capacity, the same documents and the same calls, interleaved and ordered in any way, give
      every document the same score for every query. */
  lemma OrderDoesNotMatter(a: seq<Op>, b: seq<Op>, query: seq<Key>, ln: u64 -> u64)
    requires InOrder(a) && InOrder(b) && Ids(a) == Ids(b) && multiset(Calls(a)) == multiset(Calls(b))
    requires Fits(Ids(a), Calls(a))
    ensures Replayed(a).ids == Replayed(b).ids == Ids(a)
    ensures Scores(Replayed(a), query, ln) == Scores(Replayed(b), query, ln)
  {
    FitsIgnoresOrder(Ids(a), Calls(a), Calls(b));
    EverythingAccepted(a);
    EverythingAccepted(b);
    var n := |Ids(a)|;
    forall d: nat | d < n ensures Score(Calls(a), n, query, d, ln) == Score(Calls(b), n, query, d, ln) {
      ScoreIgnoresOrder(Calls(a), Calls(b), n, query, d, ln);
    }
  }
}
