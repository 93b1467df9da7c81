// The guard that keeps a sprite-collection build from starting while
// another is under way: a static `currentBuild` set on entry and cleared
// only at the end of a successful build. A build that gives up because
// the packer could not place every texture returns without clearing it,
// so the guard then refuses every later build.

module RebuildGuard {
  datatype Option<T> = None | Some(value: T)

  /** What one call of `Rebuild` leaves behind: the guard's new value and the result. */
  datatype Outcome<G> = Outcome(current: Option<G>, ok: bool)

  /**
   * One call of `Rebuild` for collection `gen`, where `packingFailed` says
   * whether the packer left textures unplaced: a busy guard refuses and
   * stays as it is; otherwise the build runs, and succeeds and clears the
   * guard exactly when the packing did not fail.
   */
  function GuardStep<G>(current: Option<G>, gen: G, packingFailed: bool): (r: Outcome<G>)
    ensures current.Some? ==> !r.ok && r.current == current
    ensures current.None? ==> (r.ok <==> !packingFailed) && (r.current.Some? <==> packingFailed)
    ensures r.current.Some? && current.None? ==> r.current == Some(gen)
  {
    if current.Some? then Outcome(current, false)
    else if packingFailed then Outcome(Some(gen), false)
    else Outcome(None, true)
  }

  /** The results of a run of calls, each a collection and whether its packing fails. */
  function RunBuilds<G>(current: Option<G>, calls: seq<(G, bool)>): (results: seq<bool>)
    ensures |results| == |calls|
    decreases |calls|
  {
    if |calls| == 0 then []
    else
      var r := GuardStep(current, calls[0].0, calls[0].1);
      [r.ok] + RunBuilds(r.current, calls[1..])
  }

  /** A busy guard refuses every call that follows. */
  lemma {:induction false} BusyRefusesAll<G>(current: Option<G>, calls: seq<(G, bool)>)
    requires current.Some?
    ensures forall k :: 0 <= k < |calls| ==> !RunBuilds(current, calls)[k]
  {
    if |calls| > 0 {
      BusyRefusesAll(current, calls[1..]);
    }
  }

  /** After a build whose packing fails, no later build runs. */
  lemma StuckAfterPackingFailure<G>(gen: G, later: seq<(G, bool)>)
    ensures var results := RunBuilds(None, [(gen, true)] + later);
            forall k :: 0 <= k < |results| ==> !results[k]
  {
    assert ([(gen, true)] + later)[1..] == later;
    BusyRefusesAll(Some(gen), later);
  }

  /** Without a failed packing, calls one after the other all run and succeed. */
  lemma {:induction false} SequentialBuildsSucceed<G>(calls: seq<(G, bool)>)
    requires forall k :: 0 <= k < |calls| ==> !calls[k].1
    ensures forall k :: 0 <= k < |calls| ==> RunBuilds(None, calls)[k]
  {
    if |calls| > 0 {
      SequentialBuildsSucceed(calls[1..]);
    }
  }

  /** The static state of the builder: the collection being built, if any. */
  class CollectionBuilder<G> {
    var currentBuild: Option<G>

    constructor ()
      ensures currentBuild == None
    {
      currentBuild := None;
    }

    /** `Rebuild`, reduced to its guard: the build itself is the rest of this model. */
    method Rebuild(gen: G, packingFailed: bool) returns (ok: bool)
      modifies this
      ensures Outcome(currentBuild, ok) == GuardStep(old(currentBuild), gen, packingFailed)
    {
      if currentBuild.Some? {
        return false;
      }
      currentBuild := Some(gen);
      if packingFailed {
        return false;
      }
      currentBuild := None;
      return true;
    }
  }
}
