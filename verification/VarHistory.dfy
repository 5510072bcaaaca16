/** The ring of recent observations, against everything ever pushed. */
module VarHistory {
  import opened Bits
  import opened Options

  const MAX_HISTORY := 256

  class Accumulator {
    const values: array<u32>
    var writeIndex: nat
    var total: nat
    /** Every observation, oldest first. */
    ghost var pushed: seq<u32>

    ghost predicate Valid()
      reads this, values
    {
      && values.Length == MAX_HISTORY && writeIndex < MAX_HISTORY
      && total == |pushed| && writeIndex == |pushed| % MAX_HISTORY
      && forall k: nat :: k < MAX_HISTORY && k < |pushed| ==>
         values[SlotBack(writeIndex, k)] == pushed[|pushed| - 1 - k]
    }

    constructor ()
      ensures Valid() && pushed == [] && fresh(values)
    {
      values := new u32[MAX_HISTORY](_ => 0);
      writeIndex, total, pushed := 0, 0, [];
    }

    method Push(value: u32)
      requires Valid()
      modifies this, values
      ensures Valid() && pushed == old(pushed) + [value]
    {
      ghost var w, was := writeIndex, pushed;
      SlotsShift(w);
      values[writeIndex] := value;
      writeIndex := (writeIndex + 1) % MAX_HISTORY;
      total := total + 1;
      pushed := pushed + [value];
      forall k: nat | k < MAX_HISTORY && k < |pushed|
        ensures values[SlotBack(writeIndex, k)] == pushed[|pushed| - 1 - k]
      {
        if k > 0 {
          assert SlotBack(writeIndex, (k - 1) + 1) == SlotBack(w, k - 1)
            && pushed[|pushed| - 1 - k] == was[|was| - 1 - (k - 1)];
        }
      }
    }

    function Available(): (n: nat)
      requires Valid()
      reads this, values
      ensures n == Min(|pushed|, MAX_HISTORY)
    {
      if total >= MAX_HISTORY then MAX_HISTORY else total
    }

    /** The observation so many before the latest, while the ring still has it. */
    method Get(stepsBack: nat) returns (v: Option<u32>)
      requires Valid()
      ensures v == if stepsBack < Min(|pushed|, MAX_HISTORY) then Some(pushed[|pushed| - 1 - stepsBack]) else None
    {
      if stepsBack >= Available() {
        return None;
      }
      return Some(values[SlotBack(writeIndex, stepsBack)]);
    }

    /** The floored mean of the latest observations, as many as asked for and still there. */
    method Mean(window: nat) returns (m: nat)
      requires Valid()
      ensures var n := Min(window, Min(|pushed|, MAX_HISTORY));
        m == Quotient(SumOf(pushed[|pushed| - n..]), n)
    {
      var n := Min(window, Available());
      if n == 0 {
        return 0;
      }
      var sum := SumLatest(n);
      m := Quotient(sum, n);
    }

    method SumLatest(n: nat) returns (sum: nat)
      requires Valid() && n <= Min(|pushed|, MAX_HISTORY)
      ensures sum == SumOf(pushed[|pushed| - n..])
    {
      sum := 0;
      var i: nat := 0;
      while i < n
        invariant i <= n && sum == SumOf(pushed[|pushed| - i..])
      {
        sum := AddBack(i, sum);
        i := i + 1;
      }
    }

    method AddBack(i: nat, sum: nat) returns (next: nat)
      requires Valid() && i < Min(|pushed|, MAX_HISTORY) && sum == SumOf(pushed[|pushed| - i..])
      ensures next == SumOf(pushed[|pushed| - (i + 1)..])
    {
      var v := Get(i);
      next := sum;
      if v.Some? {
        next := next + v.value;
      }
      OneBack(pushed, i);
    }
  }

  /** The floored quotient; nothing divided by nothing is nothing. */
  function Quotient(x: nat, n: nat): nat {
    if n == 0 then 0 else x / n
  }

  function SumOf(s: seq<u32>): nat {
    if |s| == 0 then 0 else s[0] + SumOf(s[1..])
  }

  lemma OneBack(s: seq<u32>, i: nat)
    requires i < |s|
    ensures SumOf(s[|s| - (i + 1)..]) == s[|s| - 1 - i] + SumOf(s[|s| - i..])
  {
    assert s[|s| - (i + 1)..][1..] == s[|s| - i..];
  }

  /** The slot so many before the one to be written next, wrapping round. */
  function SlotBack(writeIndex: nat, k: nat): (s: nat)
    requires writeIndex < MAX_HISTORY && k < MAX_HISTORY
    ensures s < MAX_HISTORY
  {
    if writeIndex > k then writeIndex - 1 - k else MAX_HISTORY - 1 - (k - writeIndex)
  }

  /** After one more write every older slot is one further back, and only the oldest is lost. */
  lemma SlotsShift(w: nat)
    requires w < MAX_HISTORY
    ensures SlotBack((w + 1) % MAX_HISTORY, 0) == w
    ensures forall k: nat :: k < MAX_HISTORY - 1 ==> SlotBack((w + 1) % MAX_HISTORY, k + 1) == SlotBack(w, k) != w
  {
  }
}
