/**
 mutator.py, the queue of data seeds: seeds are numbered densely, used ones move
 to the back, and the one recycled is the one not used for the longest time.
 */
module DataSeeds {

  /** The time of the last use of a seed, or -1. */
  function LastUse(history: seq<nat>, seed: nat): (t: int)
    ensures -1 <= t < |history|
  {
    if history == [] then -1
    else if history[|history| - 1] == seed then |history| - 1
    else LastUse(history[..|history| - 1], seed)
  }

  /** The queue holds each seed below its length once, in the order of their last uses. */
  ghost predicate QueueOf(queue: seq<nat>, history: seq<nat>) {
    && (forall seed: nat :: seed in queue <==> seed < |queue|)
    && (forall i, j :: 0 <= i < j < |queue| ==> queue[i] != queue[j] && LastUse(history, queue[i]) < LastUse(history, queue[j]))
  }

  function Without(queue: seq<nat>, i: nat): seq<nat>
    requires i < |queue|
  {
    queue[..i] + queue[i + 1..]
  }

  lemma UseLast(history: seq<nat>, used: nat, seed: nat)
    ensures LastUse(history + [used], seed) == if seed == used then |history| else LastUse(history, seed)
  {
    assert (history + [used])[..|history|] == history;
  }

  /** The assertion of update_data_seeds: a seed of the queue is in it once. */
  lemma CountedOnce(queue: seq<nat>, history: seq<nat>, i: nat)
    requires QueueOf(queue, history) && i < |queue|
    ensures multiset(queue)[queue[i]] == 1
  {
    var x := queue[i];
    assert queue == queue[..i] + [x] + queue[i + 1..];
    assert x !in queue[..i] && x !in queue[i + 1..];
    assert multiset(queue) == multiset(queue[..i]) + multiset{x} + multiset(queue[i + 1..]);
    assert x !in multiset(queue[..i]) && x !in multiset(queue[i + 1..]);
  }

  /** Moving a seed to the back when it is used. */
  lemma UseKeeps(queue: seq<nat>, history: seq<nat>, i: nat)
    requires QueueOf(queue, history) && i < |queue|
    ensures QueueOf(Without(queue, i) + [queue[i]], history + [queue[i]])
  {
    var used := queue[i];
    var next, later := Without(queue, i) + [used], history + [used];
    MovedSame(queue, i);
    forall a, b | 0 <= a < b < |next|
      ensures next[a] != next[b] && LastUse(later, next[a]) < LastUse(later, next[b])
    {
      hide LastUse;
      UseLast(history, used, next[a]);
      UseLast(history, used, next[b]);
      assert next[a] == queue[MovedFrom(queue, i, a)] && next[b] == queue[MovedFrom(queue, i, b)];
    }
  }

  /** The place from which the seed at a place comes when the one at i is moved to the back. */
  function MovedFrom(queue: seq<nat>, i: nat, a: nat): (p: nat)
    requires i < |queue| && a < |queue|
    ensures p < |queue| && (Without(queue, i) + [queue[i]])[a] == queue[p]
  {
    if a == |queue| - 1 then i else if a < i then a else a + 1
  }

  lemma MovedSame(queue: seq<nat>, i: nat)
    requires i < |queue|
    ensures forall seed :: seed in Without(queue, i) + [queue[i]] <==> seed in queue
  {
    var next := Without(queue, i) + [queue[i]];
    forall seed
      ensures seed in next <==> seed in queue
    {
      assert queue == queue[..i] + [queue[i]] + queue[i + 1..];
    }
  }

  /** A new seed gets the next number. */
  lemma AddKeeps(queue: seq<nat>, history: seq<nat>)
    requires QueueOf(queue, history)
    ensures QueueOf(queue + [|queue|], history + [|queue|])
  {
    var n := |queue|;
    var next, later := queue + [n], history + [n];
    forall seed: nat
      ensures seed in next <==> seed < |next|
    {
      assert seed in next <==> seed in queue || seed == n;
    }
    forall a, b | 0 <= a < b < |next|
      ensures next[a] != next[b] && LastUse(later, next[a]) < LastUse(later, next[b])
    {
      assert next[a] in queue && (b < n ==> next[b] in queue);
      UseLast(history, n, next[a]);
      UseLast(history, n, next[b]);
    }
  }

  /** The seed at the front has been unused for longer than any other. */
  lemma FrontIsOldest(queue: seq<nat>, history: seq<nat>, seed: nat)
    requires QueueOf(queue, history) && seed in queue && seed != queue[0]
    ensures LastUse(history, queue[0]) < LastUse(history, seed)
  {
  }
}
