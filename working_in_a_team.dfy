/** The shared file of the "Working in a Team" chapter: a line counter pair
    that random edits move up or down, never below zero. The random deltas
    are parameters of Modify. */
module WorkingInATeam {
  import opened Constants

  class TeamFile {
    var added: int
    var removed: int
    var status: Status
    /** The random deltas `modify()` has drawn for each counter so far. */
    ghost var addedDeltas: seq<int>
    ghost var removedDeltas: seq<int>

    /** Each counter is the fold of its deltas from zero. */
    ghost predicate Valid()
      reads this
    {
      && added == CounterAfter(0, addedDeltas)
      && removed == CounterAfter(0, removedDeltas)
    }

    /** A new file has an empty diff and is unmodified. */
    constructor ()
      ensures Valid()
      ensures added == 0 && removed == 0 && status == Unmodified
      ensures addedDeltas == [] && removedDeltas == []
    {
      added, removed := 0, 0;
      status := Unmodified;
      addedDeltas, removedDeltas := [], [];
    }

    /** `modify()`: add a delta to each counter, clamped at zero, and mark the
        file modified. The counters end non-negative whatever the deltas are;
        the deltas are appended to the history Valid() folds. */
    method Modify(deltaAdded: int, deltaRemoved: int)
      modifies this
      ensures added >= 0 && removed >= 0
      ensures old(Valid()) ==> Valid()
      ensures added == ClampAtZero(old(added) + deltaAdded)
      ensures removed == ClampAtZero(old(removed) + deltaRemoved)
      ensures added >= old(added) + deltaAdded && removed >= old(removed) + deltaRemoved
      ensures addedDeltas == old(addedDeltas) + [deltaAdded]
      ensures removedDeltas == old(removedDeltas) + [deltaRemoved]
      ensures status == Modified
    {
      CounterAfterAppend(0, addedDeltas, deltaAdded);
      CounterAfterAppend(0, removedDeltas, deltaRemoved);
      added := ClampAtZero(added + deltaAdded);
      removed := ClampAtZero(removed + deltaRemoved);
      addedDeltas := addedDeltas + [deltaAdded];
      removedDeltas := removedDeltas + [deltaRemoved];
      status := Modified;
    }

    /** `maxChanges`: the total of both counters, each the fold of its random
        deltas; never negative and never below either counter. */
    function MaxChanges(): (r: int)
      reads this
      requires Valid()
      ensures r == added + removed
      ensures r == CounterAfter(0, addedDeltas) + CounterAfter(0, removedDeltas)
      ensures r >= 0 && r >= added && r >= removed
      ensures r == 0 <==> added == 0 && removed == 0
    {
      CounterAfterNonNegative(0, addedDeltas);
      CounterAfterNonNegative(0, removedDeltas);
      added + removed
    }
  }

  /** One counter of a file after a run of `modify()` calls with the given
      random deltas, starting from `start`. */
  function CounterAfter(start: int, deltas: seq<int>): (r: int)
    decreases |deltas|
  {
    if deltas == [] then start else CounterAfter(ClampAtZero(start + deltas[0]), deltas[1..])
  }

  /** However the random deltas fall, a counter that starts at zero or above
      stays there, so `maxChanges` is never negative. */
  lemma {:induction false} CounterAfterNonNegative(start: int, deltas: seq<int>)
    requires start >= 0
    ensures CounterAfter(start, deltas) >= 0
    decreases |deltas|
  {
    if deltas != [] {
      CounterAfterNonNegative(ClampAtZero(start + deltas[0]), deltas[1..]);
    }
  }

  /** One more `modify()` clamps the counter reached so far plus the new
      delta: the fold is the step Modify takes, repeated. */
  lemma {:induction false} CounterAfterAppend(start: int, deltas: seq<int>, d: int)
    ensures CounterAfter(start, deltas + [d]) == ClampAtZero(CounterAfter(start, deltas) + d)
    decreases |deltas|
  {
    if deltas == [] {
      assert deltas + [d] == [d];
    } else {
      assert (deltas + [d])[1..] == deltas[1..] + [d];
      CounterAfterAppend(ClampAtZero(start + deltas[0]), deltas[1..], d);
    }
  }
}
