/** Queries: every posting of every query term scored once, then the best documents picked. */
module Bm25Query {
  import opened Bits
  import opened Options
  import opened Fnv
  import opened Fingerprint
  import opened Bm25
  import opened Bm25Index

  datatype Hit = Hit(id: u64, weight: u32)

  function KeysOf(terms: seq<seq<byte>>): (q: seq<Key>)
    ensures |q| == |terms|
  {
    seq(|terms|, i requires 0 <= i < |terms| => KeyFor(terms[i]))
  }

  // ---------------------------------------------------------------- document frequency

  lemma {:induction false} DocumentsWithMore(calls: seq<Call>, c: Call, key: Key, n: nat)
    requires c !in calls
    ensures DocumentsWith(calls + [c], key, n)
         == DocumentsWith(calls, key, n) + if c.key == key && c.doc < n then 1 else 0
  {
    if n > 0 { DocumentsWithMore(calls, c, key, n - 1); }
  }

  lemma {:induction false} DocumentsWithNone(key: Key, n: nat)
    ensures DocumentsWith([], key, n) == 0
  {
    if n > 0 { DocumentsWithNone(key, n - 1); }
  }

  lemma {:induction false} ListCountsDocuments(posts: seq<Call>, n: nat, key: Key, docs: nat)
    requires n <= |posts| && Distinct(posts) && forall i :: 0 <= i < |posts| ==> posts[i].doc < docs
    ensures ListLength(posts, n, key) == DocumentsWith(posts[..n], key, docs)
  {
    if n == 0 {
      DocumentsWithNone(key, docs);
    } else {
      ListCountsDocuments(posts, n - 1, key, docs);
      assert posts[..n] == posts[..n - 1] + [posts[n - 1]];
      DocumentsWithMore(posts[..n - 1], posts[n - 1], key, docs);
    }
  }

  /** A term's list is as long as there are documents that contain it. */
  lemma FrequencyIsListLength(c: Corpus, key: Key)
    requires Consistent(c)
    ensures ListLength(c.posts, |c.posts|, key) == DocumentsWith(c.calls, key, |c.ids|) <= MAX_POSTINGS
  {
    ListCountsDocuments(c.posts, |c.posts|, key, |c.ids|);
    assert c.posts[..|c.posts|] == c.posts;
    DocumentsWithSame(c.posts, c.calls, key, |c.ids|);
    ListLengthBound(c.posts, |c.posts|, key);
  }

  // ---------------------------------------------------------------- one query term

  ghost predicate PostedSince(posts: seq<Call>, n: nat, call: Call) {
    exists i :: n <= i < |posts| && posts[i] == call
  }

  /** The scores after the postings from the `n`-th on, for one term. */
  ghost predicate Scored(c: Corpus, n: nat, key: Key, ln: u64 -> u64, before: seq<nat>, after: seq<nat>)
    requires |c.ids| <= MAX_DOCS
  {
    && |before| == |after| == |c.ids|
    && forall d: nat :: d < |c.ids| ==> after[d] == ScoreSince(c, n, key, ln, before[d], d)
  }

  ghost function ScoreSince(c: Corpus, n: nat, key: Key, ln: u64 -> u64, before: nat, d: nat): nat
    requires |c.ids| <= MAX_DOCS
  {
    if PostedSince(c.posts, n, Call(key, d)) then SatAdd(before, Contribution(c.calls, |c.ids|, key, d, ln)) else before
  }

  lemma ScoredMore(c: Corpus, n: nat, key: Key, ln: u64 -> u64, before: seq<nat>, after: seq<nat>, p: nat)
    requires |c.ids| <= MAX_DOCS && Scored(c, n, key, ln, before, after) && Distinct(c.posts)
    requires p < n <= |c.posts| && c.posts[p].key == key && c.posts[p].doc < |c.ids|
    requires forall i :: p < i < n ==> c.posts[i].key != key
    ensures var d := c.posts[p].doc;
      Scored(c, p, key, ln, before, after[d := SatAdd(after[d], Contribution(c.calls, |c.ids|, key, d, ln))])
  {
    var doc := c.posts[p].doc;
    forall d: nat | d < |c.ids| ensures PostedSince(c.posts, p, Call(key, d))
      <==> PostedSince(c.posts, n, Call(key, d)) || d == doc {
      if i :| n <= i < |c.posts| && c.posts[i] == Call(key, d) { assert p <= i; }
      if d == doc { assert c.posts[p] == Call(key, d); }
    }
    assert !PostedSince(c.posts, n, Call(key, doc));
  }

  method ScoreOf(posting: Posting, length: u32, average: u64, idf: u64) returns (s: u64)
    ensures s == TermScore(posting.termFrequency * 0x1_0000, length * 0x1_0000, average, idf)
  {
    s := TermScore(posting.termFrequency * 0x1_0000, length * 0x1_0000, average, idf);
  }

  /** Along one term's list. */
  method AddList(postings: array<Posting>, documents: array<DocumentEntry>, scores: array<nat>, head: nat,
                 average: u64, idf: u64,
                 ghost c: Corpus, ghost key: Key, ln: u64 -> u64)
    requires |c.ids| <= MAX_DOCS && |c.posts| <= postings.Length <= MAX_POSTINGS && |c.ids| <= scores.Length
    requires Threaded(postings[..], c.posts, c.calls) && Measured(documents[..], c.ids, c.calls)
    requires Distinct(c.posts) && (forall i :: 0 <= i < |c.posts| ==> c.posts[i].doc < |c.ids|)
    requires head == Latest(c.posts, |c.posts|, key) && average == Average(c.calls, |c.ids|)
    requires idf == Idf(Min(DocumentsWith(c.calls, key, |c.ids|), MAX_POSTINGS), |c.ids|, ln)
    modifies scores
    ensures Scored(c, 0, key, ln, old(scores[..|c.ids|]), scores[..|c.ids|])
  {
    ghost var before := scores[..|c.ids|];
    var cursor := head;
    ghost var n: nat := |c.posts|;
    while cursor != NONE
      invariant n <= |c.posts| && cursor == Latest(c.posts, n, key)
      invariant Scored(c, n, key, ln, before, scores[..|c.ids|])
      decreases n
    {
      LatestIs(c.posts, n, key);
      var posting := postings[cursor];
      assert postings[..][cursor] == posting;
      var d := posting.document;
      assert documents[..][d] == documents[d];
      var s := ScoreOf(posting, documents[d].length, average, idf);
      assert s == Contribution(c.calls, |c.ids|, key, d, ln);
      ScoredMore(c, n, key, ln, before, scores[..|c.ids|], cursor);
      scores[d] := SatAdd(scores[d], s);
      n := cursor;
      cursor := posting.next;
    }
    LatestIs(c.posts, n, key);
    ScoredAll(c, n, key, ln, before, scores[..|c.ids|]);
  }

  lemma ScoredAll(c: Corpus, n: nat, key: Key, ln: u64 -> u64, before: seq<nat>, after: seq<nat>)
    requires |c.ids| <= MAX_DOCS && Scored(c, n, key, ln, before, after)
    requires n <= |c.posts| && forall i :: 0 <= i < n ==> c.posts[i].key != key
    ensures Scored(c, 0, key, ln, before, after)
  {
    forall d: nat | d < |c.ids| ensures PostedSince(c.posts, 0, Call(key, d))
      <==> PostedSince(c.posts, n, Call(key, d)) {
      if i :| 0 <= i < |c.posts| && c.posts[i] == Call(key, d) { assert n <= i; }
      if i :| n <= i < |c.posts| && c.posts[i] == Call(key, d) { assert 0 <= i; }
    }
  }

  lemma ScoredIsScore(c: Corpus, query: seq<Key>, ln: u64 -> u64, before: seq<nat>, after: seq<nat>)
    requires |query| > 0 && Consistent(c)
    requires before == Scores(c, query[..|query| - 1], ln) && Scored(c, 0, query[|query| - 1], ln, before, after)
    ensures after == Scores(c, query, ln)
  {
    var key := query[|query| - 1];
    forall d: nat | d < |c.ids| ensures PostedSince(c.posts, 0, Call(key, d)) <==> Call(key, d) in c.calls {
      assert Call(key, d) in c.posts <==> Call(key, d) in c.calls;
    }
  }

  lemma AbsentTermAddsNothing(c: Corpus, query: seq<Key>, ln: u64 -> u64)
    requires |query| > 0 && Consistent(c) && query[|query| - 1] !in c.known
    ensures Scores(c, query, ln) == Scores(c, query[..|query| - 1], ln)
  {
    var key := query[|query| - 1];
    assert forall i :: 0 <= i < |c.posts| ==> c.posts[i].key != key;
    forall d: nat | d < |c.ids| ensures Call(key, d) !in c.calls {
      assert Call(key, d) !in c.posts;
    }
  }

  // ---------------------------------------------------------------- picking

  method BestUnused(scores: array<nat>, used: array<bool>, n: nat) returns (best: Option<nat>)
    requires n <= scores.Length && n <= used.Length
    ensures best.None? ==> forall d :: 0 <= d < n && !used[d] ==> scores[d] == 0
    ensures best.Some? ==> best.value < n && !used[best.value] && scores[best.value] > 0
    ensures best.Some? ==> forall d: nat :: d < n && !used[d] && d != best.value ==> Better(scores[..n], best.value, d)
  {
    best := None;
    var bestScore := 0;
    var d := 0;
    while d < n
      invariant 0 <= d <= n
      invariant best.None? ==> bestScore == 0 && forall e :: 0 <= e < d && !used[e] ==> scores[e] == 0
      invariant best.Some? ==> best.value < d && !used[best.value] && scores[best.value] == bestScore > 0
      invariant best.Some? ==> forall e: nat :: e < d && !used[e] && e != best.value ==>
        Better(scores[..n], best.value, e)
    {
      if !used[d] && scores[d] > bestScore {
        bestScore := scores[d];
        best := Some(d);
      }
      d := d + 1;
    }
  }

  /** Everything not picked is no better than any pick. */
  ghost predicate Leading(scores: seq<nat>, used: seq<bool>, picks: seq<nat>) {
    && |scores| <= |used| && IsRanking(scores, picks)
    && forall d: nat :: d < |scores| ==> (used[d] <==> d in picks)
  }

  lemma LeadingMore(scores: seq<nat>, used: seq<bool>, picks: seq<nat>, best: nat)
    requires Leading(scores, used, picks) && best < |scores| && !used[best] && scores[best] > 0
    requires forall d: nat :: d < |scores| && !used[d] && d != best ==> Better(scores, best, d)
    ensures Leading(scores, used[best := true], picks + [best])
  {
    var more := picks + [best];
    forall i, e: nat | 0 <= i < |more| && e < |scores| && e !in more ensures Better(scores, more[i], e) {
      assert e !in picks && e != best;
    }
    forall d: nat | d < |scores| ensures used[best := true][d] <==> d in more {
      assert d in more <==> d in picks || d == best;
    }
  }

  method PickBest(scores: array<nat>, documents: array<DocumentEntry>, n: nat, out: array<Hit>)
    returns (written: nat, ghost picks: seq<nat>)
    requires n <= scores.Length && n <= documents.Length <= MAX_DOCS
    modifies out
    ensures written == |picks| <= out.Length && IsAnswer(scores[..n], picks, out.Length)
    ensures forall i :: 0 <= i < written ==> out[i] == HitOf(documents[..], scores[..n], picks[i])
    ensures out[written..] == old(out[written..])
  {
    var used := new bool[MAX_DOCS](_ => false);
    written, picks := 0, [];
    ghost var s := scores[..n];
    while written < out.Length
      invariant written == |picks| <= out.Length && used.Length == MAX_DOCS && fresh(used)
      invariant Leading(s, used[..], picks)
      invariant forall i :: 0 <= i < written ==> out[i] == HitOf(documents[..], s, picks[i])
      invariant out[written..] == old(out[written..])
      decreases out.Length - written
    {
      var best := BestUnused(scores, used, n);
      match best {
        case None => break;
        case Some(d) =>
          LeadingMore(s, used[..], picks, d);
          used[d] := true;
          out[written] := Hit(documents[d].id, Min(scores[d], U32_MAX));
          assert old(out[written..])[1..] == old(out[written + 1..]);
          picks := picks + [d];
          written := written + 1;
      }
    }
  }

  function HitOf(documents: seq<DocumentEntry>, scores: seq<nat>, d: nat): Hit {
    if d < |documents| && d < |scores| then Hit(documents[d].id, Min(scores[d], U32_MAX)) else Hit(0, 0)
  }

  // ---------------------------------------------------------------- the whole query

  method ScoreTerm(index: Index, term: seq<byte>, scores: array<nat>, average: u64, ghost c: Corpus,
                   ghost done: seq<Key>, ln: u64 -> u64)
    requires index.Stores(c) && Consistent(c) && scores.Length == MAX_DOCS && average == Average(c.calls, |c.ids|)
    requires scores[..|c.ids|] == Scores(c, done, ln)
    modifies scores
    ensures scores[..|c.ids|] == Scores(c, done + [KeyFor(term)], ln)
  {
    ghost var more := done + [KeyFor(term)];
    assert more[..|done|] == done;
    if KeyFor(term) !in c.known { AbsentTermAddsNothing(c, more, ln); }
    if |term| == 0 || |term| > MAX_TERM_BYTES {
      return;
    }
    var hash := Hash(term, 0);
    var t := FindKey(index.terms, index.termCount, Key(hash, term));
    assert forall k: nat :: k < index.termCount ==> index.terms[..][k].key == c.known[k];
    if t.None? {
      return;
    }
    var entry := index.terms[t.value];
    assert index.terms[..][t.value] == entry;
    FrequencyIsListLength(c, entry.key);
    var idf := Idf(entry.documentFrequency, index.documentCount, ln);
    ghost var before := scores[..|c.ids|];
    AddList(index.postings, index.documents, scores, entry.postingHead, average, idf, c, entry.key, ln);
    ScoredIsScore(c, more, ln, before, scores[..|c.ids|]);
  }

  /** The hits of the picked documents. */
  ghost predicate IsHits(c: Corpus, scores: seq<nat>, picks: seq<nat>, hits: seq<Hit>) {
    |hits| == |picks| && forall i :: 0 <= i < |hits| ==>
      picks[i] < |c.ids| && picks[i] < |scores| && hits[i] == Hit(c.ids[picks[i]], Min(scores[picks[i]], U32_MAX))
  }

  /** The hits are those of the best documents, as far as there is room. */
  ghost predicate Answers(c: Corpus, query: seq<Key>, ln: u64 -> u64, room: nat, hits: seq<Hit>)
    requires |c.ids| <= MAX_DOCS
  {
    exists picks :: IsAnswer(Scores(c, query, ln), picks, room) && IsHits(c, Scores(c, query, ln), picks, hits)
  }

  /** Two indexes given the same documents and, in any order within capacity, the same calls: what a query
      writes is the same. */
  lemma SameCallsSameHits(x: Index, y: Index, query: seq<Key>, ln: u64 -> u64, room: nat, p: seq<Hit>, q: seq<Hit>)
    requires InOrder(x.history) && InOrder(y.history) && Ids(x.history) == Ids(y.history)
    requires multiset(Calls(x.history)) == multiset(Calls(y.history)) && Fits(Ids(x.history), Calls(x.history))
    requires |x.Corpus().ids| <= MAX_DOCS && Answers(x.Corpus(), query, ln, room, p)
    requires |y.Corpus().ids| <= MAX_DOCS && Answers(y.Corpus(), query, ln, room, q)
    ensures p == q
  {
    OrderDoesNotMatter(x.history, y.history, query, ln);
    SameScoresSameHits(x.Corpus(), y.Corpus(), query, ln, room, p, q);
  }

  lemma SameScoresSameHits(c: Corpus, d: Corpus, query: seq<Key>, ln: u64 -> u64, room: nat, p: seq<Hit>, q: seq<Hit>)
    requires c.ids == d.ids && |c.ids| <= MAX_DOCS && Scores(c, query, ln) == Scores(d, query, ln)
    requires Answers(c, query, ln, room, p) && Answers(d, query, ln, room, q)
    ensures p == q
  {
    var scores := Scores(c, query, ln);
    var a :| IsAnswer(scores, a, room) && IsHits(c, scores, a, p);
    var b :| IsAnswer(scores, b, room) && IsHits(d, scores, b, q);
    AnswerIsUnique(scores, a, b, room, 0);
  }

  /** The best documents for the terms, by a score that depends only on what was accepted. */
  method Query(index: Index, terms: seq<seq<byte>>, out: array<Hit>, ln: u64 -> u64) returns (written: nat)
    requires index.Valid()
    modifies out
    ensures |index.Corpus().ids| <= MAX_DOCS && written <= out.Length
    ensures Answers(index.Corpus(), KeysOf(terms), ln, out.Length, out[..written])
    ensures out[written..] == old(out[written..])
  {
    ghost var c := index.Corpus();
    ReplayedIsConsistent(index.history);
    if index.documentCount == 0 || out.Length == 0 || index.totalDocumentLength == 0 {
      EmptyAnswer(c, KeysOf(terms), ln, out.Length);
      assert IsHits(c, Scores(c, KeysOf(terms), ln), [], out[..0]);
      return 0;
    }
    var average := Q16Div(index.totalDocumentLength * 0x1_0000 % 0x1_0000_0000_0000_0000,
      index.documentCount * 0x1_0000);
    var scores := new nat[MAX_DOCS](_ => 0);
    var i := 0;
    while i < |terms|
      invariant 0 <= i <= |terms| && index.Stores(c) && fresh(scores) && scores.Length == MAX_DOCS
      invariant scores[..|c.ids|] == Scores(c, KeysOf(terms)[..i], ln)
      invariant out[..] == old(out[..])
    {
      ScoreTerm(index, terms[i], scores, average, c, KeysOf(terms)[..i], ln);
      assert KeysOf(terms)[..i + 1] == KeysOf(terms)[..i] + [KeyFor(terms[i])];
      i := i + 1;
    }
    assert KeysOf(terms)[..i] == KeysOf(terms);
    ghost var picks;
    written, picks := PickBest(scores, index.documents, index.documentCount, out);
    forall k: nat | k < |c.ids| ensures index.documents[..][k].id == c.ids[k] { }
    assert IsHits(c, Scores(c, KeysOf(terms), ln), picks, out[..written]);
  }

  lemma {:induction false} NoCallsNoScore(c: Corpus, query: seq<Key>, d: nat, ln: u64 -> u64)
    requires c.calls == [] && |c.ids| <= MAX_DOCS
    ensures Score(c.calls, |c.ids|, query, d, ln) == 0
  {
    if |query| > 0 { NoCallsNoScore(c, query[..|query| - 1], d, ln); }
  }

  lemma EmptyAnswer(c: Corpus, query: seq<Key>, ln: u64 -> u64, room: nat)
    requires |c.ids| <= MAX_DOCS && (|c.ids| == 0 || room == 0 || c.calls == [])
    ensures IsAnswer(Scores(c, query, ln), [], room)
  {
    if c.calls == [] {
      forall d: nat | d < |c.ids| ensures Scores(c, query, ln)[d] == 0 { NoCallsNoScore(c, query, d, ln); }
    }
  }

  // ---------------------------------------------------------------- whole texts

  function OpsOf(words: seq<Feature>, doc: nat): seq<Op> {
    seq(|words|, i requires 0 <= i < |words| => IndexOp(CallFor(words[i].term, doc)))
  }

  lemma AcceptedGrows(history: seq<Op>, call: Call)
    ensures |Replayed(history + [IndexOp(call)]).calls|
         == |Replayed(history).calls| + if Accepted(Replayed(history), call) then 1 else 0
  {
    ReplayedIsConsistent(history);
    IndexedKeeps(Replayed(history), call);
    assert (history + [IndexOp(call)])[..|history|] == history;
  }

  /** Every word of the text, in order; the result counts those accepted. */
  method IndexText(index: Index, text: seq<byte>, doc: nat) returns (indexed: nat)
    requires index.Valid()
    modifies index, index.terms, index.postings, index.documents
    ensures index.Valid() && index.history == old(index.history) + OpsOf(Words(text, 0), doc)
    ensures indexed == Min(U32_MAX, |index.Corpus().calls| - |old(index.Corpus()).calls|)
  {
    indexed := 0;
    var cursor := 0;
    ghost var done: seq<Feature> := [];
    assert old(index.history) + OpsOf(done, doc) == index.history;
    while cursor < |text|
      invariant 0 <= cursor <= |text| && index.Valid()
      invariant done + Words(text, cursor) == Words(text, 0)
      invariant index.history == old(index.history) + OpsOf(done, doc)
      invariant |index.Corpus().calls| >= |old(index.Corpus()).calls|
      invariant indexed == Min(U32_MAX, |index.Corpus().calls| - |old(index.Corpus()).calls|)
    {
      var start := SkipTo(text, cursor);
      var end := EndOf(text, start);
      if end > start {
        WordDone(text, cursor, done);
        OpsMore(done, text[start..end], doc);
        indexed := IndexWord(index, text[start..end], doc, indexed, |old(index.Corpus()).calls|);
        done := done + [Feature(text[start..end], 1)];
      }
      cursor := end;
    }
    assert done == Words(text, 0);
  }

  lemma OpsMore(done: seq<Feature>, word: seq<byte>, doc: nat)
    ensures OpsOf(done + [Feature(word, 1)], doc) == OpsOf(done, doc) + [IndexOp(CallFor(word, doc))]
  {
  }

  /** One word, counted if it is accepted; `base` calls were there before the text. */
  method IndexWord(index: Index, word: seq<byte>, doc: nat, indexed: nat, ghost base: nat) returns (more: nat)
    requires index.Valid() && |index.Corpus().calls| >= base && indexed == Min(U32_MAX, |index.Corpus().calls| - base)
    modifies index, index.terms, index.postings, index.documents
    ensures index.Valid() && index.history == old(index.history) + [IndexOp(CallFor(word, doc))]
    ensures |index.Corpus().calls| >= base && more == Min(U32_MAX, |index.Corpus().calls| - base)
  {
    AcceptedGrows(index.history, CallFor(word, doc));
    var ok := index.IndexTerm(word, doc);
    more := indexed;
    if ok {
      more := Min(indexed + 1, U32_MAX);
    }
  }
}
