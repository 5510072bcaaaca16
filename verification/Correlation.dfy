/** From mentions to entities to promoted relations: the steps as functions, and what every run of them keeps. */
module Correlation {
  import opened Bits
  import opened Options
  import opened Fingerprint
  import opened Lsh

  const MATCH_THRESHOLD := 6
  const CANDIDATES := 8
  const PROMOTION_THRESHOLD := 3

  // ---------------------------------------------------------------- entity resolution

  /** The first of the matches at the least distance. */
  function Best(ms: seq<Match>): Match
    requires |ms| > 0
  {
    if |ms| == 1 then ms[0]
    else
      var b, last := Best(ms[..|ms| - 1]), ms[|ms| - 1];
      if last.distance < b.distance then last else b
  }

  datatype Resolution = Resolution(entities: seq<Entity>, id: Option<u64>)

  /** A match if the index has one in range, otherwise a new entity if the graph has room for its node. */
  function Resolved(es: seq<Entity>, fp: u64, node: Option<u64>): Resolution {
    var ms := Answer(es, fp, MATCH_THRESHOLD, CANDIDATES);
    if |ms| > 0 then Resolution(es, Some(Best(ms).id))
    else if node.None? then Resolution(es, None)
    else Resolution(if |es| < MAX_ENTITIES then es + [Entity(fp, node.value)] else es, node)
  }

  /** No two stored fingerprints are close enough to be taken for each other. */
  ghost predicate Apart(es: seq<Entity>) {
    forall i, j :: 0 <= i < j < |es| ==> Hamming(es[i].fingerprint, es[j].fingerprint) > MATCH_THRESHOLD
  }

  lemma NoMatchMeansFar(es: seq<Entity>, fp: u64)
    requires |Answer(es, fp, MATCH_THRESHOLD, CANDIDATES)| == 0
    ensures forall i :: 0 <= i < |es| ==> Hamming(fp, es[i].fingerprint) > MATCH_THRESHOLD
  {
    AnswerSize(es, fp, MATCH_THRESHOLD, CANDIDATES);
    assert AllWithin(es, fp, MATCH_THRESHOLD) == {};
    forall i: nat | i < |es| ensures Hamming(fp, es[i].fingerprint) > MATCH_THRESHOLD {
      assert i !in AllWithin(es, fp, MATCH_THRESHOLD);
    }
  }

  lemma ResolvedKeepsApart(es: seq<Entity>, fp: u64, node: Option<u64>)
    requires Apart(es)
    ensures Apart(Resolved(es, fp, node).entities)
  {
    if |Answer(es, fp, MATCH_THRESHOLD, CANDIDATES)| == 0 {
      NoMatchMeansFar(es, fp);
      forall i: nat | i < |es| ensures Hamming(es[i].fingerprint, fp) > MATCH_THRESHOLD {
        HammingComm(es[i].fingerprint, fp);
      }
    }
  }

  lemma {:induction false} BestIsLeast(ms: seq<Match>)
    requires |ms| > 0
    ensures Best(ms) in ms && forall m :: m in ms ==> Best(ms).distance <= m.distance
  {
    if |ms| > 1 {
      var p := ms[..|ms| - 1];
      BestIsLeast(p);
      assert ms == p + [ms[|ms| - 1]];
    }
  }
}
