/** The index's arrays: posting lists threaded through one array, newest first. */
module Bm25Index {
  import opened Bits
  import opened Options
  import opened Fnv
  import opened Bm25

  datatype TermEntry = TermEntry(key: Key, documentFrequency: nat, postingHead: nat)
  datatype Posting = Posting(document: nat, termFrequency: u16, next: nat)
  datatype DocumentEntry = DocumentEntry(length: u32, id: u64)

  /** The latest posting of `key` before the `n`-th, or none. */
  function Latest(posts: seq<Call>, n: nat, key: Key): (p: nat)
    requires n <= |posts|
    ensures p == NONE || p < n
  {
    if n == 0 then NONE else if posts[n - 1].key == key then n - 1 else Latest(posts, n - 1, key)
  }

  lemma {:induction false} LatestIs(posts: seq<Call>, n: nat, key: Key)
    requires n <= |posts| <= MAX_POSTINGS
    ensures var p := Latest(posts, n, key);
      if p == NONE then forall i :: 0 <= i < n ==> posts[i].key != key
      else posts[p].key == key && forall i :: p < i < n ==> posts[i].key != key
  {
    if n > 0 && posts[n - 1].key != key { LatestIs(posts, n - 1, key); }
  }

  /** How many of the first `n` postings belong to `key`. */
  function ListLength(posts: seq<Call>, n: nat, key: Key): nat
    requires n <= |posts|
  {
    if n == 0 then 0 else ListLength(posts, n - 1, key) + if posts[n - 1].key == key then 1 else 0
  }

  lemma {:induction false} LatestOfMore(posts: seq<Call>, more: seq<Call>, n: nat, key: Key)
    requires n <= |posts| <= |more| && posts == more[..|posts|]
    ensures Latest(more, n, key) == Latest(posts, n, key) && ListLength(more, n, key) == ListLength(posts, n, key)
  {
    if n > 0 { LatestOfMore(posts, more, n - 1, key); }
  }

  /** Each posting leads to the one before it of the same term: lists of different terms never
      meet, and every step goes to a smaller index. */
  ghost predicate Threaded(postings: seq<Posting>, posts: seq<Call>, calls: seq<Call>) {
    && |posts| <= |postings|
    && forall i: nat :: i < |posts| ==>
       postings[i] == Posting(posts[i].doc, Frequency(calls, posts[i]), Latest(posts, i, posts[i].key))
  }

  ghost predicate Listed(terms: seq<TermEntry>, known: seq<Key>, posts: seq<Call>) {
    && |known| <= |terms|
    && forall t: nat :: t < |known| ==>
       terms[t] == TermEntry(known[t], ListLength(posts, |posts|, known[t]), Latest(posts, |posts|, known[t]))
  }

  ghost predicate Measured(documents: seq<DocumentEntry>, ids: seq<u64>, calls: seq<Call>) {
    && |ids| <= |documents|
    && forall d: nat :: d < |ids| ==> documents[d] == DocumentEntry(Length(calls, d), ids[d])
  }

  class Index {
    const terms: array<TermEntry>
    const postings: array<Posting>
    const documents: array<DocumentEntry>
    var termCount: nat
    var postingCount: nat
    var documentCount: nat
    var totalDocumentLength: u64
    ghost var history: seq<Op>

    ghost function Corpus(): Bm25.Corpus
      reads this
    {
      Replayed(history)
    }

    /** The arrays hold `c`. */
    ghost predicate Stores(c: Bm25.Corpus)
      reads this, terms, postings, documents
    {
      && terms.Length == MAX_TERMS && postings.Length == MAX_POSTINGS && documents.Length == MAX_DOCS
      && termCount == |c.known| && postingCount == |c.posts| && documentCount == |c.ids|
      && Threaded(postings[..], c.posts, c.calls)
      && Listed(terms[..], c.known, c.posts)
      && Measured(documents[..], c.ids, c.calls)
      && totalDocumentLength == TotalLength(c.calls)
    }

    ghost predicate Valid()
      reads this, terms, postings, documents
    {
      Stores(Corpus())
    }

    constructor ()
      ensures Valid() && Corpus() == EMPTY && history == []
      ensures fresh(terms) && fresh(postings) && fresh(documents)
    {
      terms := new TermEntry[MAX_TERMS](_ => TermEntry(Key(0, []), 0, NONE));
      postings := new Posting[MAX_POSTINGS](_ => Posting(0, 0, NONE));
      documents := new DocumentEntry[MAX_DOCS](_ => DocumentEntry(0, 0));
      termCount, postingCount, documentCount, totalDocumentLength := 0, 0, 0, 0;
      history := [];
    }

    method AddDocument(id: u64) returns (r: Option<nat>)
      requires Valid()
      modifies this, documents
      ensures Valid() && history == old(history) + [AddOp(id)]
      ensures r == if |old(Corpus()).ids| < MAX_DOCS then Some(|old(Corpus()).ids|) else None
    {
      ghost var c := Corpus();
      history := history + [AddOp(id)];
      assert history[..|history| - 1] == old(history);
      if documentCount >= MAX_DOCS {
        return None;
      }
      ReplayedIsConsistent(old(history));
      NoCallsYet(c.calls, documentCount);
      assert forall d: nat :: d < documentCount ==> documents[..][d] == documents[d];
      documents[documentCount] := DocumentEntry(0, id);
      documentCount := documentCount + 1;
      return Some(documentCount - 1);
    }

    method FindOrCreateTerm(key: Key, ghost c: Bm25.Corpus) returns (t: Option<nat>)
      requires Stores(c) && NoPostingsOf(c, key)
      modifies this`termCount, terms
      ensures t.None? ==> key !in c.known && |c.known| >= MAX_TERMS && Stores(c)
      ensures t.Some? ==> Stores(WithTerm(c, key)) && t.value < termCount && WithTerm(c, key).known[t.value] == key
    {
      t := FindKey(terms, termCount, key);
      assert forall k: nat :: k < termCount ==> terms[..][k].key == c.known[k];
      if t.Some? {
        return;
      }
      if termCount >= MAX_TERMS {
        return None;
      }
      ListedNew(terms[..], c.known, c.posts, key);
      terms[termCount] := TermEntry(key, 0, NONE);
      termCount := termCount + 1;
      return Some(termCount - 1);
    }

    /** Along the term's list, newest posting first, for the one of this document. */
    method FindPosting(t: nat, doc: nat, ghost c: Bm25.Corpus) returns (p: Option<nat>)
      requires Stores(c) && t < termCount
      ensures p.Some? <==> Call(c.known[t], doc) in c.posts
      ensures p.Some? ==> p.value < postingCount && c.posts[p.value] == Call(c.known[t], doc)
    {
      assert terms[..][t] == terms[t];
      p := FindInList(postings, terms[t].postingHead, doc, c.known[t], c.posts, c.calls);
    }

    method IncrementDocumentLength(doc: nat, ghost c: Bm25.Corpus, ghost call: Call)
      requires documents.Length == MAX_DOCS && doc == call.doc < |c.ids|
      requires Measured(documents[..], c.ids, c.calls) && totalDocumentLength == TotalLength(c.calls)
      modifies documents, this`totalDocumentLength
      ensures Measured(documents[..], c.ids, c.calls + [call])
      ensures totalDocumentLength == TotalLength(c.calls + [call])
    {
      MeasuredMore(documents[..], c.ids, c.calls, call);
      documents[doc] := documents[doc].(length := Min(documents[doc].length + 1, U32_MAX));
      totalDocumentLength := Min(totalDocumentLength + 1, U64_MAX);
    }

    method IndexTermWithHash(term: seq<byte>, doc: nat, hash: u64) returns (ok: bool)
      requires Valid()
      modifies this, terms, postings, documents
      ensures Valid() && history == old(history) + [IndexOp(Call(Key(hash, term), doc))]
      ensures ok == Accepted(old(Corpus()), Call(Key(hash, term), doc))
    {
      ghost var call := Call(Key(hash, term), doc);
      ghost var c := Corpus();
      ReplayedIsConsistent(history);
      assert (history + [IndexOp(call)])[..|history|] == history;
      ok := Place(Key(hash, term), doc, c);
      history := history + [IndexOp(call)];
    }

    method Place(key: Key, doc: nat, ghost c: Bm25.Corpus) returns (ok: bool)
      requires Stores(c) && Consistent(c)
      modifies this`termCount, this`postingCount, this`totalDocumentLength, terms, postings, documents
      ensures Stores(Indexed(c, Call(key, doc))) && ok == Accepted(c, Call(key, doc))
    {
      if |key.bytes| == 0 || |key.bytes| > MAX_TERM_BYTES || doc >= documentCount {
        return false;
      }
      UnknownHasNoPostings(c, key);
      var t := FindOrCreateTerm(key, c);
      if t.None? {
        return false;
      }
      ghost var k := WithTerm(c, key);
      var p := FindPosting(t.value, doc, k);
      if p.Some? {
        CountAgain(p.value, doc, k, Call(key, doc));
        return true;
      }
      if postingCount >= MAX_POSTINGS {
        return false;
      }
      PostFirst(t.value, doc, k, Call(key, doc));
      return true;
    }

    method CountAgain(p: nat, doc: nat, ghost c: Bm25.Corpus, ghost call: Call)
      requires Stores(c) && p < postingCount && c.posts[p] == call && doc == call.doc < |c.ids|
      requires Distinct(c.posts)
      modifies this`totalDocumentLength, postings, documents
      ensures Stores(c.(calls := c.calls + [call]))
    {
      ThreadedAgain(postings[..], c.posts, c.calls, p);
      postings[p] := postings[p].(termFrequency := Min(postings[p].termFrequency + 1, U16_MAX));
      IncrementDocumentLength(doc, c, call);
    }

    method PostFirst(t: nat, doc: nat, ghost c: Bm25.Corpus, ghost call: Call)
      requires Stores(c) && t < termCount && c.known[t] == call.key && doc == call.doc < |c.ids|
      requires postingCount < MAX_POSTINGS && call !in c.posts && call !in c.calls && DistinctKeys(c.known)
      modifies this`totalDocumentLength, this`postingCount, postings, documents, terms
      ensures Stores(c.(posts := c.posts + [call], calls := c.calls + [call]))
    {
      ThreadedMore(postings[..], c.posts, c.calls, call);
      ListedMore(terms[..], c.known, c.posts, t, call);
      assert terms[..][t] == terms[t];
      var n := postingCount;
      postingCount := postingCount + 1;
      postings[n] := Posting(doc, 1, terms[t].postingHead);
      terms[t] := terms[t].(postingHead := n, documentFrequency := Min(terms[t].documentFrequency + 1, U32_MAX));
      IncrementDocumentLength(doc, c, call);
    }

    method IndexTerm(term: seq<byte>, doc: nat) returns (ok: bool)
      requires Valid()
      modifies this, terms, postings, documents
      ensures Valid() && history == old(history) + [IndexOp(CallFor(term, doc))]
      ensures ok == Accepted(old(Corpus()), CallFor(term, doc))
    {
      var hash := Hash(term, 0);
      ok := IndexTermWithHash(term, doc, hash);
    }
  }

  predicate Distinct(posts: seq<Call>) {
    forall i, j :: 0 <= i < j < |posts| ==> posts[i] != posts[j]
  }

  predicate DistinctKeys(known: seq<Key>) {
    forall i, j :: 0 <= i < j < |known| ==> known[i] != known[j]
  }

  function WithTerm(c: Bm25.Corpus, key: Key): Bm25.Corpus {
    c.(known := if key in c.known then c.known else c.known + [key])
  }

  predicate NoPostingsOf(c: Bm25.Corpus, key: Key) {
    key !in c.known ==> forall i :: 0 <= i < |c.posts| ==> c.posts[i].key != key
  }

  lemma UnknownHasNoPostings(c: Bm25.Corpus, key: Key)
    requires Consistent(c)
    ensures NoPostingsOf(c, key)
  {
  }

  lemma ListedNew(terms: seq<TermEntry>, known: seq<Key>, posts: seq<Call>, key: Key)
    requires Listed(terms, known, posts) && |known| < |terms|
    requires forall i :: 0 <= i < |posts| ==> posts[i].key != key
    ensures Listed(terms[|known| := TermEntry(key, 0, NONE)], known + [key], posts)
  {
    NoPostingsYet(posts, |posts|, key);
  }

  lemma MeasuredMore(documents: seq<DocumentEntry>, ids: seq<u64>, calls: seq<Call>, call: Call)
    requires Measured(documents, ids, calls) && call.doc < |ids|
    ensures var e := documents[call.doc];
      Measured(documents[call.doc := e.(length := Min(e.length + 1, U32_MAX))], ids, calls + [call])
  {
    assert (calls + [call])[..|calls|] == calls;
  }

  method FindInList(postings: array<Posting>, head: nat, doc: nat, ghost key: Key, ghost posts: seq<Call>,
                    ghost calls: seq<Call>)
    returns (p: Option<nat>)
    requires |posts| <= postings.Length <= MAX_POSTINGS && Threaded(postings[..], posts, calls)
    requires head == Latest(posts, |posts|, key)
    ensures p.Some? <==> Call(key, doc) in posts
    ensures p.Some? ==> p.value < |posts| && posts[p.value] == Call(key, doc)
  {
    var cursor := head;
    ghost var n: nat := |posts|;
    while cursor != NONE
      invariant n <= |posts| && cursor == Latest(posts, n, key)
      invariant forall i :: n <= i < |posts| ==> posts[i] != Call(key, doc)
      decreases n
    {
      LatestIs(posts, n, key);
      assert postings[..][cursor] == postings[cursor];
      if postings[cursor].document == doc {
        return Some(cursor);
      }
      n := cursor;
      cursor := postings[cursor].next;
    }
    LatestIs(posts, n, key);
    return None;
  }

  function CallFor(term: seq<byte>, doc: nat): Call {
    Call(KeyFor(term), doc)
  }

  function KeyFor(term: seq<byte>): Key {
    Key(Fnv1a(term, 0), term)
  }

  method FindKey(terms: array<TermEntry>, n: nat, key: Key) returns (t: Option<nat>)
    requires n <= terms.Length
    ensures t.Some? ==> t.value < n && terms[t.value].key == key
    ensures t.None? ==> forall k :: 0 <= k < n ==> terms[k].key != key
  {
    var i := 0;
    while i < n
      invariant 0 <= i <= n && forall k :: 0 <= k < i ==> terms[k].key != key
    {
      if terms[i].key == key {
        return Some(i);
      }
      i := i + 1;
    }
    return None;
  }

  lemma {:induction false} NoPostingsYet(posts: seq<Call>, n: nat, key: Key)
    requires n <= |posts| && forall i :: 0 <= i < n ==> posts[i].key != key
    ensures Latest(posts, n, key) == NONE && ListLength(posts, n, key) == 0
  {
    if n > 0 { NoPostingsYet(posts, n - 1, key); }
  }

  lemma FrequencyMore(calls: seq<Call>, call: Call, q: Call)
    ensures Frequency(calls + [call], q)
         == if q == call then Min(U16_MAX, Frequency(calls, q) + 1) else Frequency(calls, q)
  {
    assert (calls + [call])[..|calls|] == calls;
  }

  lemma ThreadedAgain(postings: seq<Posting>, posts: seq<Call>, calls: seq<Call>, p: nat)
    requires Threaded(postings, posts, calls) && p < |posts| && Distinct(posts)
    ensures Threaded(postings[p := postings[p].(termFrequency := Min(postings[p].termFrequency + 1, U16_MAX))], posts,
      calls + [posts[p]])
  {
    forall i: nat | i < |posts| ensures Frequency(calls + [posts[p]], posts[i])
      == if i == p then Min(U16_MAX, Frequency(calls, posts[i]) + 1) else Frequency(calls, posts[i]) {
      FrequencyMore(calls, posts[p], posts[i]);
    }
  }

  lemma {:induction false} TimesOfAbsent(calls: seq<Call>, call: Call)
    requires call !in calls
    ensures Times(calls, call) == 0
  {
    if |calls| > 0 {
      assert calls == calls[..|calls| - 1] + [calls[|calls| - 1]];
      TimesOfAbsent(calls[..|calls| - 1], call);
    }
  }

  lemma ThreadedMore(postings: seq<Posting>, posts: seq<Call>, calls: seq<Call>, call: Call)
    requires |posts| < MAX_POSTINGS && Threaded(postings, posts, calls) && |posts| < |postings|
    requires call !in posts && call !in calls
    ensures Threaded(postings[|posts| := Posting(call.doc, 1, Latest(posts, |posts|, call.key))], posts + [call],
                     calls + [call])
  {
    var more := posts + [call];
    TimesOfAbsent(calls, call);
    forall i: nat | i < |more| ensures Frequency(calls + [call], more[i])
      == if i == |posts| then 1 else Frequency(calls, posts[i])
      ensures Latest(more, i, more[i].key) == Latest(posts, i, more[i].key) {
      FrequencyMore(calls, call, more[i]);
      LatestOfMore(posts, more, i, more[i].key);
    }
  }

  lemma ListedMore(terms: seq<TermEntry>, known: seq<Key>, posts: seq<Call>, t: nat, call: Call)
    requires |posts| < MAX_POSTINGS && Listed(terms, known, posts) && t < |known| && known[t] == call.key
    requires DistinctKeys(known)
    ensures Listed(terms[t := terms[t].(postingHead := |posts|,
      documentFrequency := Min(terms[t].documentFrequency + 1, U32_MAX))],
                   known, posts + [call])
  {
    var more := posts + [call];
    ListLengthBound(posts, |posts|, call.key);
    forall k: nat | k < |known| ensures Latest(more, |more|, known[k]) == if k == t then |posts|
      else Latest(posts, |posts|, known[k])
      ensures ListLength(more, |more|, known[k]) == ListLength(posts, |posts|, known[k]) + if k == t then 1 else 0 {
      LatestOfMore(posts, more, |posts|, known[k]);
    }
  }

  lemma {:induction false} ListLengthBound(posts: seq<Call>, n: nat, key: Key)
    requires n <= |posts|
    ensures ListLength(posts, n, key) <= n
  {
    if n > 0 { ListLengthBound(posts, n - 1, key); }
  }

  lemma {:induction false} NoCallsYet(calls: seq<Call>, d: nat)
    requires forall c :: c in calls ==> c.doc < d
    ensures Length(calls, d) == 0
  {
    if |calls| > 0 {
      var p := calls[..|calls| - 1];
      assert calls == p + [calls[|calls| - 1]];
      NoCallsYet(p, d);
    }
  }
}
