/** The index itself: bucket arrays, overflow flags and a bit per entity already seen. */
module LshIndex {
  import opened Bits
  import opened Bitset
  import opened Fingerprint
  import opened Lsh
  import opened Options

  class Index {
    const buckets: array3<nat>
    const counts: array2<nat>
    const overflowed: array2<bool>
    const entities: array<Entity>
    var entityCount: nat

    ghost predicate Shape() {
      && buckets.Length0 == counts.Length0 == overflowed.Length0 == BANDS
      && buckets.Length1 == counts.Length1 == overflowed.Length1 == 256
      && buckets.Length2 == BUCKET && entities.Length == MAX_ENTITIES
    }

    ghost function Stored(): seq<Entity>
      requires Shape() && entityCount <= MAX_ENTITIES
      reads this, entities
    {
      entities[..entityCount]
    }

    /** Band `b` files every entity of `es`, up to the room in each bucket. */
    ghost predicate Files(es: seq<Entity>, b: nat)
      requires Shape() && b < BANDS
      reads buckets, counts, overflowed
    {
      forall v: nat :: v < 256 ==>
        && counts[b, v] == |Listed(es, b, v)|
        && overflowed[b, v] == Overflowed(es, b, v)
        && forall j :: 0 <= j < counts[b, v] ==> buckets[b, v, j] == Listed(es, b, v)[j]
    }

    ghost predicate Valid()
      reads this, buckets, counts, overflowed, entities
    {
      && Shape() && entityCount <= MAX_ENTITIES
      && forall b: nat :: b < BANDS ==> Files(Stored(), b)
    }

    constructor ()
      ensures Valid() && Stored() == []
      ensures fresh(buckets) && fresh(counts) && fresh(overflowed) && fresh(entities)
    {
      buckets := new nat[BANDS, 256, BUCKET]((_, _, _) => 0);
      counts := new nat[BANDS, 256]((_, _) => 0);
      overflowed := new bool[BANDS, 256]((_, _) => false);
      entities := new Entity[MAX_ENTITIES](_ => Entity(0, 0));
      entityCount := 0;
    }

    /** One entity into one band. */
    method File(b: nat, v: nat, ghost es: seq<Entity>, ghost e: Entity, idx: nat)
      requires Shape() && b < BANDS && Files(es, b) && v == Band(e.fingerprint, b) && idx == |es|
      modifies buckets, counts, overflowed
      ensures Files(es + [e], b)
      ensures forall b', v', j :: 0 <= b' < BANDS && b' != b && 0 <= v' < 256 && 0 <= j < BUCKET ==>
                buckets[b', v', j] == old(buckets[b', v', j])
      ensures forall b', v' :: 0 <= b' < BANDS && b' != b && 0 <= v' < 256 ==>
                counts[b', v'] == old(counts[b', v']) && overflowed[b', v'] == old(overflowed[b', v'])
    {
      forall v' ensures Members(es + [e], b, v') == if v' == v then Members(es, b, v) + [idx] else Members(es, b, v') {
        assert (es + [e])[..|es|] == es;
      }
      var c := counts[b, v];
      if c < BUCKET {
        buckets[b, v, c] := idx;
        counts[b, v] := counts[b, v] + 1;
      } else {
        overflowed[b, v] := true;
      }
    }

    method Insert(fingerprint: u64, id: u64) returns (ok: bool)
      requires Valid()
      modifies this, buckets, counts, overflowed, entities
      ensures Valid() && ok == (old(entityCount) < MAX_ENTITIES)
      ensures Stored() == if ok then old(Stored()) + [Entity(fingerprint, id)] else old(Stored())
    {
      if entityCount >= MAX_ENTITIES {
        return false;
      }
      ghost var es := Stored();
      var e := Entity(fingerprint, id);
      var idx := entityCount;
      entities[entityCount] := e;
      entityCount := entityCount + 1;
      assert Stored() == es + [e];
      var b := 0;
      while b < BANDS
        invariant 0 <= b <= BANDS && Stored() == es + [e]
        invariant forall k: nat :: k < b ==> Files(es + [e], k)
        invariant forall k: nat :: b <= k < BANDS ==> Files(es, k)
        modifies buckets, counts, overflowed
      {
        label before:
        File(b, Band(fingerprint, b), es, e, idx);
        forall k: nat | k < BANDS && k != b ensures old@before(Files(es, k)) ==> Files(es, k)
                                            ensures old@before(Files(es + [e], k)) ==> Files(es + [e], k) {
        }
        b := b + 1;
      }
      return true;
    }

    // -------------------------------------------------------------- query

    /** Every close entity from `from` on is marked exactly if it has been found. */
    ghost predicate Marks(es: seq<Entity>, fp: u64, max: nat, found: seq<nat>, seen: seq<byte>, from: nat) {
      && |seen| == MAX_ENTITIES / 8 + 1
      && forall i: nat :: from <= i < |es| && Within(es, fp, max, i) ==> (Has(seen, i) <==> i in found)
    }

    /** As much of `found` as there is room for is in the output, and the rest of it is untouched. */
    ghost predicate Reports(es: seq<Entity>, fp: u64, found: seq<nat>, out: seq<Match>, was: seq<Match>, n: nat) {
      && |out| == |was| && n == Min(|out|, |found|)
      && out == MatchesOf(es, fp, found[..n]) + was[n..]
    }

    ghost predicate Found(es: seq<Entity>, fp: u64, max: nat, found: seq<nat>, seen: seq<byte>, out: seq<Match>,
                          was: seq<Match>, n: nat) {
      && Marks(es, fp, max, found, seen, 0)
      && (forall i :: i in found ==> Within(es, fp, max, i))
      && Reports(es, fp, found, out, was, n)
    }

    lemma MarkMore(es: seq<Entity>, fp: u64, max: nat, found: seq<nat>, seen: seq<byte>, i: nat, seen': seq<byte>)
      requires Marks(es, fp, max, found, seen, 0) && |seen'| == |seen|
      requires forall k :: Has(seen', k) <==> Has(seen, k) || k == i
      ensures Marks(es, fp, max, if Within(es, fp, max, i) then found + [i] else found, seen', 0)
    {
    }

    lemma ReportMore(es: seq<Entity>, fp: u64, found: seq<nat>, out: seq<Match>, was: seq<Match>, n: nat, i: nat)
      requires Reports(es, fp, found, out, was, n)
      ensures n == |out| ==> Reports(es, fp, found + [i], out, was, n)
      ensures n < |out| ==> Reports(es, fp, found + [i], out[n := MatchOf(es, fp, i)], was, n + 1)
    {
      var f := found + [i];
      if n < |out| {
        assert found[..n] == found && f[..n + 1] == f;
        assert MatchesOf(es, fp, f) == MatchesOf(es, fp, found) + [MatchOf(es, fp, i)];
        assert was[n..] == [was[n]] + was[n + 1..];
      } else {
        assert f[..n] == found[..n];
      }
    }

    lemma ReportPrefix(es: seq<Entity>, fp: u64, found: seq<nat>, hits: seq<nat>, out: seq<Match>, was: seq<Match>,
                       n: nat)
      requires Reports(es, fp, found, out, was, n) && found <= hits && (n == |out| || found == hits)
      ensures Reports(es, fp, hits, out, was, n)
    {
      assert hits[..n] == found[..n];
    }

    /** One entity of a bucket: skip it if seen, otherwise measure it and report it if it is close. */
    method Consider(fp: u64, max: nat, i: nat, seen: array<byte>, out: array<Match>, n: nat, ghost found: seq<nat>,
                    ghost was: seq<Match>)
      returns (m: nat)
      requires Valid() && i < entityCount && Found(Stored(), fp, max, found, seen[..], out[..], was, n)
      modifies seen, out
      ensures Found(Stored(), fp, max, Merged(Stored(), fp, max, found, [i]), seen[..], out[..], was, m)
    {
      ghost var es := Stored();
      m := n;
      OneMerged(es, fp, max, found, i);
      var marked := Test(seen, i);
      if !marked {
        Mark(seen, i);
        var d := Hamming(fp, entities[i].fingerprint);
        MarkMore(es, fp, max, found, old(seen[..]), i, seen[..]);
        ReportMore(es, fp, found, out[..], was, n, i);
        if d <= max && n < out.Length {
          out[n] := Match(entities[i].id, d);
          m := n + 1;
        }
      }
    }

    /** After an overflow, every entity that no bucket listed. */
    method ScanAll(fp: u64, max: nat, seen: array<byte>, out: array<Match>, n: nat, ghost found: seq<nat>,
                   ghost was: seq<Match>)
      returns (m: nat)
      requires Valid() && Found(Stored(), fp, max, found, seen[..], out[..], was, n)
      modifies out
      ensures Reports(Stored(), fp, Merged(Stored(), fp, max, found, Indices(|Stored()|)), out[..], was, m)
    {
      ghost var es := Stored();
      ghost var list := Indices(|es|);
      m := n;
      var i := 0;
      ghost var sofar := found;
      while i < entityCount && m < out.Length
        invariant 0 <= i <= entityCount && Valid() && Stored() == es
        invariant sofar == Merged(es, fp, max, found, list[..i])
        invariant Marks(es, fp, max, sofar, seen[..], i)
        invariant Reports(es, fp, sofar, out[..], was, m)
      {
        assert list[..i + 1][..i] == list[..i];
        var marked := Test(seen, i);
        if !marked {
          var d := Hamming(fp, entities[i].fingerprint);
          if d <= max {
            ReportMore(es, fp, sofar, out[..], was, m, i);
            out[m] := Match(entities[i].id, d);
            m := m + 1;
          }
        }
        sofar := Merged(es, fp, max, found, list[..i + 1]);
        i := i + 1;
      }
      MergedPrefix(es, fp, max, found, list, i);
      if i == |es| { assert list[..i] == list; }
      ReportPrefix(es, fp, sofar, Merged(es, fp, max, found, list), out[..], was, m);
    }

    lemma {:induction false} MergedPrefix(es: seq<Entity>, fp: u64, max: nat, found: seq<nat>, list: seq<nat>, k: nat)
      requires k <= |list|
      ensures Merged(es, fp, max, found, list[..k]) <= Merged(es, fp, max, found, list)
    {
      if k < |list| {
        var shorter := list[..|list| - 1];
        MergedPrefix(es, fp, max, found, shorter, k);
        assert shorter[..k] == list[..k];
      } else {
        assert list[..k] == list;
      }
    }

    lemma OneMerged(es: seq<Entity>, fp: u64, max: nat, found: seq<nat>, i: nat)
      ensures Merged(es, fp, max, found, [i]) == if Within(es, fp, max, i) && i !in found then found + [i] else found
    {
      assert [i][..0] == [];
    }

    /** All that the first `n` buckets list. */
    method ScanBand(fp: u64, max: nat, b: nat, seen: array<byte>, out: array<Match>, n: nat, ghost found: seq<nat>,
                    ghost was: seq<Match>)
      returns (m: nat, full: bool)
      requires Valid() && b < BANDS && Found(Stored(), fp, max, found, seen[..], out[..], was, n)
      modifies seen, out
      ensures var list := Listed(Stored(), b, Band(fp, b));
        Found(Stored(), fp, max, Merged(Stored(), fp, max, found, list), seen[..], out[..], was, m)
      ensures full == Overflowed(Stored(), b, Band(fp, b))
    {
      ghost var es := Stored();
      var v := Band(fp, b);
      assert Files(es, b);
      var count := counts[b, v];
      full := overflowed[b, v];
      ghost var list := Listed(es, b, v);
      m := n;
      var j := 0;
      while j < count
        invariant 0 <= j <= count && Valid() && Stored() == es
        invariant Found(es, fp, max, Merged(es, fp, max, found, list[..j]), seen[..], out[..], was, m)
      {
        var i := buckets[b, v, j];
        ListedIsStored(es, b, v, j);
        ghost var sofar := Merged(es, fp, max, found, list[..j]);
        m := Consider(fp, max, i, seen, out, m, sofar, was);
        OneMerged(es, fp, max, sofar, i);
        assert list[..j + 1][..j] == list[..j];
        j := j + 1;
      }
      assert list[..count] == list;
    }

    lemma ListedIsStored(es: seq<Entity>, b: nat, v: nat, j: nat)
      requires j < |Listed(es, b, v)|
      ensures Listed(es, b, v)[j] < |es|
    {
      MembersExact(es, b, v);
      assert Members(es, b, v)[j] in Members(es, b, v);
    }

    lemma NothingStored(es: seq<Entity>, fp: u64, max: nat)
      ensures es == [] ==> Hits(es, fp, max) == []
    {
      HitsExact(es, fp, max);
      if es == [] { SizeOf(Hits(es, fp, max), {}); }
    }

    /** All bands, then everything if a bucket had overflowed. */
    method Search(fp: u64, max: nat, out: array<Match>) returns (n: nat)
      requires Valid()
      modifies out
      ensures Reports(Stored(), fp, Hits(Stored(), fp, max), out[..], old(out[..]), n)
    {
      ghost var es, was := Stored(), out[..];
      var seen := new byte[MAX_ENTITIES / 8 + 1](_ => 0);
      forall i: nat ensures !Has(seen[..], i) { EmptyHasNone(seen[..], i); }
      n := 0;
      var exact := false;
      var b := 0;
      ghost var found: seq<nat> := [];
      while b < BANDS
        invariant 0 <= b <= BANDS && Valid() && Stored() == es && fresh(seen)
        invariant found == FromBands(es, fp, max, b)
        invariant Found(es, fp, max, found, seen[..], out[..], was, n)
        invariant exact == Fallback(es, fp, b)
      {
        var full;
        n, full := ScanBand(fp, max, b, seen, out, n, found, was);
        found := FromBands(es, fp, max, b + 1);
        exact := exact || full;
        b := b + 1;
      }
      if exact {
        n := ScanAll(fp, max, seen, out, n, found, was);
      }
    }

    /** The close entities in the order the bands, and after an overflow the whole table, list them. */
    method Query(fp: u64, max: nat, out: array<Match>) returns (n: nat)
      requires Valid()
      modifies out
      ensures n == |Answer(Stored(), fp, max, out.Length)|
      ensures out[..n] == Answer(Stored(), fp, max, out.Length) && out[n..] == old(out[n..])
      ensures max < BANDS ==> n == Min(out.Length, |AllWithin(Stored(), fp, max)|)
    {
      if max < BANDS { AnswerSize(Stored(), fp, max, out.Length); }
      if out.Length == 0 || entityCount == 0 {
        NothingStored(Stored(), fp, max);
        return 0;
      }
      n := Search(fp, max, out);
    }

    /** The first of the nearest entities, if it is near enough; an empty index answers only the widest question. */
    method Nearest(fp: u64, max: u32) returns (best: Option<Match>)
      requires Valid()
      ensures best.Some? <==> AllWithin(Stored(), fp, max) != {} || (entityCount == 0 && max == U32_MAX)
      ensures best.Some? && entityCount > 0 ==> exists i: nat ::
        IsNearest(Stored(), fp, i) && best.value == MatchOf(Stored(), fp, i)
    {
      var bestDistance: nat, bestId: u64 := U32_MAX, 0;
      var i := 0;
      ghost var at: nat := 0;
      ghost var es := Stored();
      while i < entityCount
        invariant 0 <= i <= entityCount
        invariant i == 0 ==> bestDistance == U32_MAX && bestId == 0
        invariant i > 0 ==> at < i && IsNearest(es[..i], fp, at) && Match(bestId, bestDistance) == MatchOf(es, fp, at)
      {
        var d := Hamming(fp, entities[i].fingerprint);
        HammingBound(fp, es[i].fingerprint);
        if d < bestDistance {
          bestDistance, bestId := d, entities[i].id;
          at := i;
        }
        i := i + 1;
      }
      assert es[..|es|] == es;
      if entityCount > 0 && bestDistance <= max { assert at in AllWithin(es, fp, max); }
      return if bestDistance <= max then Some(Match(bestId, bestDistance)) else None;
    }
  }
}
