/**
 * The process-wide state behind the identifier's constructors: the machine and
 * process signatures, fixed once per process, and the shared counter that every
 * construction without an explicit random value advances by one.
 */
module Generation {
  import opened TwosComplement
  import opened SequentialIds

  /**
   * The counter's value after `n` increments, each wrapping at 32 bits, starting
   * from `seed`: `n` successive increments add `n` to the seed modulo 2^32.
   */
  function Advance(seed: int32, n: nat): (r: int32)
    ensures r == Wrap32(seed + n)
  {
    if n == 0 then seed
    else
      var previous := Advance(seed, n - 1);
      Wrap32Shift(seed + n, (seed + n - 1 - previous) / TWO32);
      Inc32(previous)
  }

  /** Counter values fewer than 2^32 increments apart are different. */
  lemma AdvanceDistinct(seed: int32, i: nat, j: nat)
    requires i < j < i + TWO32
    ensures Advance(seed, i) != Advance(seed, j)
  {
    Wrap32Distinct(seed + i, seed + j);
  }

  /**
   * The static state of the identifier type in one process. `seed` is the value
   * the counter took from the process's random source; `issued` lists the
   * random values handed out so far, oldest first.
   */
  class Generator {
    const machine: int32
    const pid: int32
    var randomSeed: int32
    ghost const seed: int32
    ghost var issued: seq<int32>

    ghost predicate Valid()
      reads this
    {
      && randomSeed == Advance(seed, |issued|)
      && forall k :: 0 <= k < |issued| ==> issued[k] == Advance(seed, k + 1)
    }

    /**
     * Process start: the machine signature is the machine-name hash plus the
     * application-domain id (an unchecked `int` addition), the pid is the
     * process id, and the counter starts at a random `seed`.
     */
    constructor (machineHash: int32, applicationId: int32, processId: int32, seed: int32)
      ensures Valid()
      ensures machine == Wrap32(machineHash + applicationId) && pid == processId
      ensures this.seed == seed && randomSeed == seed && issued == []
    {
      machine := Wrap32(machineHash + applicationId);
      pid := processId;
      randomSeed := seed;
      this.seed := seed;
      issued := [];
    }

    /** `new SequentialId(timestamp, random)`: the given values with this process's signatures. */
    function WithRandom(timestamp: int32, random: int32): (id: SequentialId)
      ensures id.timestamp == timestamp && id.random == random
      ensures id.machine == machine && id.pid == pid
    {
      SequentialId(timestamp, machine, pid, random)
    }

    /**
     * `new SequentialId(timestamp)`: the counter goes up by one, wrapping at
     * 32 bits, and its new value becomes the identifier's random field.
     */
    method WithTimestamp(timestamp: int32) returns (id: SequentialId)
      requires Valid()
      modifies this
      ensures Valid()
      ensures randomSeed == Inc32(old(randomSeed))
      ensures id == WithRandom(timestamp, randomSeed)
      ensures issued == old(issued) + [id.random]
      ensures |old(issued)| < TWO32 ==> id.random !in old(issued)
    {
      randomSeed := Inc32(randomSeed);
      issued := issued + [randomSeed];
      id := WithRandom(timestamp, randomSeed);
      assert id.random == Advance(seed, |old(issued)| + 1);
      forall k | 0 <= k < |old(issued)| && |old(issued)| < TWO32
        ensures old(issued)[k] != id.random
      {
        AdvanceDistinct(seed, k + 1, |old(issued)| + 1);
      }
    }

    /** Until the counter has gone round all 2^32 values, no random value is handed out twice. */
    lemma IssuedDistinct()
      requires Valid() && |issued| <= TWO32
      ensures forall i, j :: 0 <= i < j < |issued| ==> issued[i] != issued[j]
    {
      forall i, j | 0 <= i < j < |issued|
        ensures issued[i] != issued[j]
      {
        AdvanceDistinct(seed, i + 1, j + 1);
      }
    }
  }

  /** Two identifiers made one after the other from the counter are never equal. */
  method SuccessiveIdsDiffer(g: Generator, first: int32, second: int32) returns (a: SequentialId, b: SequentialId)
    requires g.Valid()
    modifies g
    ensures g.Valid()
    ensures a == g.WithRandom(first, Inc32(old(g.randomSeed)))
    ensures b == g.WithRandom(second, g.randomSeed)
    ensures g.randomSeed == Inc32(Inc32(old(g.randomSeed)))
    ensures g.issued == old(g.issued) + [a.random, b.random]
    ensures !Equals(a, b) && OpNotEquals(a, b)
  {
    a := g.WithTimestamp(first);
    b := g.WithTimestamp(second);
    AdvanceDistinct(g.seed, |g.issued| - 1, |g.issued|);
  }
}
