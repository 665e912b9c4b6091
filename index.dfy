/**
 * The entry point index.js: expand the manifest range and name one branch per version,
 * `stable<N>` when version N has a published server release and `master` otherwise. The manifest
 * bounds and the release probe are inputs; the two named outputs are returned.
 */
module Index {
  import opened Wrappers
  import opened Lists
  import opened Branches

  /** The named outputs `versions` and `branches`. */
  datatype IndexOutputs = IndexOutputs(versions: seq<int>, branches: seq<string>)

  /**
   * The body of index.js. A range `Array` refuses is the only error; otherwise the versions are
   * the range, and the branches name each version's branch once: `master` exactly when some
   * version has no release, and, apart from it, the released versions' `stable<N>` names in
   * ascending version order.
   */
  function Run(minVersion: int, maxVersion: int, isReleased: int -> bool): (r: Result<IndexOutputs>)
    ensures r.Err? <==> Range(minVersion, maxVersion).Err?
    ensures r.Err? ==> r.error == InvalidArrayLength(maxVersion - minVersion + 1)
    ensures r.Ok? ==> forall x :: x in r.value.versions <==> minVersion <= x <= maxVersion
    ensures r.Ok? ==> StrictlyAscending(r.value.versions)
    ensures r.Ok? ==> r.value.branches == Unique(BranchList(r.value.versions, isReleased))
    ensures r.Ok? ==> NoDuplicates(r.value.branches)
    ensures r.Ok? ==> (Fallback in r.value.branches <==>
                         exists v :: minVersion <= v <= maxVersion && !isReleased(v))
    ensures r.Ok? ==> Without(r.value.branches, Fallback) == StableNames(Confirmed(r.value.versions, isReleased))
    ensures r.Ok? ==> StrictlyAscending(Confirmed(r.value.versions, isReleased))
  {
    match Range(minVersion, maxVersion)
    case Err(e) => Err(e)
    case Ok(versions) =>
      RangeMembers(minVersion, maxVersion);
      EmittedBranches(versions, isReleased);
      assert (exists i :: 0 <= i < |versions| && !isReleased(versions[i]))
             <==> exists v :: minVersion <= v <= maxVersion && !isReleased(v) by {
        if v :| minVersion <= v <= maxVersion && !isReleased(v) {
          assert versions[v - minVersion] == v;
        }
      }
      Ok(IndexOutputs(versions, Unique(BranchList(versions, isReleased))))
  }

  /** A released version's branch is always emitted, and a version never released brings in `master`. */
  lemma RunBranchOfVersion(minVersion: int, maxVersion: int, isReleased: int -> bool, v: int)
    requires Run(minVersion, maxVersion, isReleased).Ok?
    requires minVersion <= v <= maxVersion
    ensures Resolve(v, isReleased(v)) in Run(minVersion, maxVersion, isReleased).value.branches
  {
    var versions := Range(minVersion, maxVersion).value;
    var bl := BranchList(versions, isReleased);
    assert versions[v - minVersion] == v;
    assert bl[v - minVersion] == Resolve(v, isReleased(v));
  }
}
