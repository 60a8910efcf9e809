/** CompleteMappings of avstream/avshws/capture.cpp as built for x86: clones carry several mappings,
    and a call may complete any number of them. */
module MappedCompletion {
  import opened Words

  /** A clone: the byte counts of all its mappings, how many are completed (the rest is
      OffsetOut.Remaining), and the DataUsed of its stream header. */
  datatype Clone = Clone(frame: nat, sizes: seq<nat>, done: nat, dataUsed: nat)

  /** A deleted clone as the reader of the pin sees it. */
  datatype Sent = Sent(frame: nat, dataUsed: nat, number: nat)

  datatype Pin = Pin(clones: seq<Clone>, frameNumber: nat, sent: seq<Sent>)

  function Remaining(c: Clone): nat
    requires c.done <= |c.sizes|
  {
    |c.sizes| - c.done
  }

  ghost predicate Shaped(clones: seq<Clone>) {
    forall c :: c in clones ==> c.done <= |c.sizes| && c.dataUsed < TWO_32
  }

  function Sum(s: seq<nat>): nat {
    if s == [] then 0 else s[0] + Sum(s[1..])
  }

  /** `n` more mappings of one clone are counted, each addition in 32 bits. */
  function Count(c: Clone, n: nat): (c': Clone)
    requires c.done + n <= |c.sizes|
    ensures c'.frame == c.frame && c'.sizes == c.sizes && c'.done == c.done + n
    ensures n > 0 || c.dataUsed < TWO_32 ==> c'.dataUsed < TWO_32
    decreases n
  {
    if n == 0 then c
    else Count(c.(done := c.done + 1, dataUsed := U32(c.dataUsed + c.sizes[c.done])), n - 1)
  }

  /** The first clone is counted to its end, numbered and deleted. */
  function SendFirst(p: Pin): (p': Pin)
    requires p.clones != [] && p.clones[0].done <= |p.clones[0].sizes|
  {
    var c, number := p.clones[0], p.frameNumber + 1;
    Pin(p.clones[1..], number, p.sent + [Sent(c.frame, Count(c, Remaining(c)).dataUsed, number)])
  }

  function Complete(p: Pin, n: nat): (p': Pin)
    requires Shaped(p.clones)
    ensures Shaped(p'.clones)
    decreases |p.clones|
  {
    if n == 0 || p.clones == [] then p
    else
      var c := p.clones[0];
      assert c in p.clones;
      if n >= Remaining(c) then Complete(SendFirst(p), n - Remaining(c))
      else p.(clones := [Count(c, n)] + p.clones[1..])
  }

  lemma {:induction false} CountTwice(c: Clone, a: nat, b: nat)
    requires c.done + a + b <= |c.sizes|
    ensures Count(Count(c, a), b) == Count(c, a + b)
    decreases a
  {
    if a > 0 {
      CountTwice(c.(done := c.done + 1, dataUsed := U32(c.dataUsed + c.sizes[c.done])), a - 1, b);
    }
  }

  /** Batching does not matter: two completions leave the same clones with the same offsets, and
      have sent the same frames with the same numbers and DataUsed, as one of the sum. */
  lemma {:induction false} CompleteTwice(p: Pin, a: nat, b: nat)
    requires Shaped(p.clones)
    ensures Complete(Complete(p, a), b) == Complete(p, a + b)
    decreases |p.clones|
  {
    if a > 0 && p.clones != [] {
      var c := p.clones[0];
      assert c in p.clones;
      if a >= Remaining(c) {
        CompleteTwice(SendFirst(p), a - Remaining(c), b);
      } else {
        CompleteWithin(p, a, b);
      }
    }
  }

  /** The first completion ends inside the first clone. */
  lemma CompleteWithin(p: Pin, a: nat, b: nat)
    requires Shaped(p.clones) && p.clones != [] && p.clones[0].done <= |p.clones[0].sizes|
    requires 0 < a < Remaining(p.clones[0])
    ensures Complete(Complete(p, a), b) == Complete(p, a + b)
  {
    var c := p.clones[0];
    var p1 := p.(clones := [Count(c, a)] + p.clones[1..]);
    assert Complete(p, a) == p1;
    assert p1.clones[1..] == p.clones[1..];
    if b < Remaining(c) - a {
      CountTwice(c, a, b);
    } else {
      CountTwice(c, a, Remaining(c) - a);
    }
  }

  function Each(p: Pin, counts: seq<nat>): Pin
    requires Shaped(p.clones)
    decreases |counts|
  {
    if counts == [] then p else Each(Complete(p, counts[0]), counts[1..])
  }

  /** However the interrupts are spread, the outcome is that of the total. */
  lemma {:induction false} EachIsTotal(p: Pin, counts: seq<nat>)
    requires Shaped(p.clones)
    ensures Each(p, counts) == Complete(p, Sum(counts))
    decreases |counts|
  {
    if counts != [] {
      EachIsTotal(Complete(p, counts[0]), counts[1..]);
      CompleteTwice(p, counts[0], Sum(counts[1..]));
    }
  }

  // ------------------------------------------------------------------- DataUsed

  /** DataUsed is the size of the mappings completed so far, in 32 bits. */
  ghost predicate Counted(c: Clone) {
    c.done <= |c.sizes| && c.dataUsed == U32(Sum(c.sizes[..c.done]))
  }

  lemma {:induction false} SumStep(s: seq<nat>, k: nat)
    requires k < |s|
    ensures Sum(s[..k + 1]) == Sum(s[..k]) + s[k]
  {
    if k == 0 {
      assert s[..1] == [s[0]];
    } else {
      assert s[..k + 1][1..] == s[1..][..k] && s[..k][1..] == s[1..][..k - 1];
      SumStep(s[1..], k - 1);
    }
  }

  lemma {:induction false} CountCounts(c: Clone, n: nat)
    requires Counted(c) && c.done + n <= |c.sizes|
    ensures Counted(Count(c, n))
    decreases n
  {
    if n > 0 {
      SumStep(c.sizes, c.done);
      U32Add(Sum(c.sizes[..c.done]), c.sizes[c.done]);
      CountCounts(c.(done := c.done + 1, dataUsed := U32(c.dataUsed + c.sizes[c.done])), n - 1);
    }
  }

  /** What completing a total of `n` mappings has sent: frames in clone order, numbered on from the
      pin's frame number, each with the whole size of its mappings as DataUsed. */
  function Expected(clones: seq<Clone>, n: nat, number: nat): seq<Sent>
    requires Shaped(clones)
    decreases |clones|
  {
    if n == 0 || clones == [] then []
    else
      var c := clones[0];
      assert c in clones;
      if n >= Remaining(c) then
        [Sent(c.frame, U32(Sum(c.sizes)), number + 1)] + Expected(clones[1..], n - Remaining(c), number + 1)
      else []
  }

  lemma {:induction false} SendsWholeFrames(p: Pin, n: nat)
    requires Shaped(p.clones) && forall c :: c in p.clones ==> Counted(c)
    ensures var p' := Complete(p, n);
      p'.sent == p.sent + Expected(p.clones, n, p.frameNumber)
      && (forall c :: c in p'.clones ==> Counted(c))
    decreases |p.clones|
  {
    if n > 0 && p.clones != [] {
      var c := p.clones[0];
      assert c in p.clones;
      if n >= Remaining(c) {
        var all, number := Count(c, Remaining(c)), p.frameNumber + 1;
        CountCounts(c, Remaining(c));
        assert all.sizes[..all.done] == c.sizes;
        var s := Sent(c.frame, all.dataUsed, number);
        SendsWholeFrames(SendFirst(p), n - Remaining(c));
        AppendAssoc(p.sent, [s], Expected(p.clones[1..], n - Remaining(c), number));
      } else {
        CountCounts(c, n);
      }
    }
  }

  // -------------------------------------------------------------------- the method

  class MappedPin {
    var clones: seq<Clone>
    var frameNumber: nat
    var sent: seq<Sent>

    constructor (clones: seq<Clone>)
      ensures Value() == Pin(clones, 0, [])
    {
      this.clones, frameNumber, sent := clones, 0, [];
    }

    function Value(): Pin
      reads this
    {
      Pin(clones, frameNumber, sent)
    }

    method CompleteMappings(numMappings: nat)
      requires Shaped(clones)
      modifies this
      ensures Value() == Complete(old(Value()), numMappings)
    {
      var mappingsRemaining: nat := numMappings;
      while mappingsRemaining > 0 && clones != []
        invariant Shaped(clones) && Complete(Value(), mappingsRemaining) == Complete(old(Value()), numMappings)
        decreases |clones|, mappingsRemaining
      {
        var clone := clones[0];
        assert clone in clones;
        var mappingsToCount := if mappingsRemaining > Remaining(clone) then Remaining(clone) else mappingsRemaining;
        var counted := CountMappings(clone, mappingsToCount);
        if mappingsRemaining >= Remaining(clone) {
          frameNumber := frameNumber + 1;
          sent := sent + [Sent(clone.frame, counted.dataUsed, frameNumber)];
          mappingsRemaining := mappingsRemaining - Remaining(clone);
          clones := clones[1..];
        } else {
          clones := [counted] + clones[1..];
          mappingsRemaining := 0;
        }
      }
    }

    /** The loop that adds the sizes of the completed mappings to DataUsed. */
    method CountMappings(clone: Clone, n: nat) returns (counted: Clone)
      requires clone.done + n <= |clone.sizes|
      ensures counted == Count(clone, n)
    {
      counted := clone;
      for i := 0 to n
        invariant counted.done == clone.done + i && counted.sizes == clone.sizes
        invariant Count(counted, n - i) == Count(clone, n)
      {
        counted := counted.(done := counted.done + 1, dataUsed := U32(counted.dataUsed + counted.sizes[counted.done]));
      }
    }
  }
}
