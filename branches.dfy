/**
 * Branch resolution shared by both entry points: a platform version becomes `stable<N>` when the
 * existence probe for that name answers yes, and the fallback `master` otherwise.
 */
module Branches {
  import opened Wrappers
  import opened Decimal
  import opened Lists

  /** The branch used when no `stable<N>` branch is confirmed. */
  const Fallback: string := "master"

  const StablePrefix: string := "stable"

  /** The release-branch name `stable${version}`. */
  function StableName(version: int): string {
    StablePrefix + IntToString(version)
  }

  /** `getBranch(version)`, and the ternary of index.js, once the probe has answered `found`. */
  function Resolve(version: int, found: bool): (b: string)
    ensures b == Fallback <==> !found
  {
    if found then
      assert StableName(version)[0] == 's';
      StableName(version)
    else Fallback
  }

  /** The version a branch name stands for: `stable<N>` gives N, any other name none. */
  function BranchVersion(b: string): Option<int> {
    if |b| > |StablePrefix| && b[..|StablePrefix|] == StablePrefix then ParseInt(b[|StablePrefix|..])
    else None
  }

  /** A resolved branch names its version exactly when the probe confirmed it. */
  lemma ResolveRoundTrip(version: int, found: bool)
    ensures BranchVersion(Resolve(version, found)) == if found then Some(version) else None
  {
    if found {
      var b := StableName(version);
      assert b[..|StablePrefix|] == StablePrefix && b[|StablePrefix|..] == IntToString(version);
      IntToStringRoundTrip(version);
    } else {
      assert Fallback[..|StablePrefix|] != StablePrefix by {
        assert Fallback[0] != StablePrefix[0];
      }
    }
  }

  /** Distinct versions never share a release-branch name. */
  lemma StableNameInjective(a: int, b: int)
    requires StableName(a) == StableName(b)
    ensures a == b
  {
    ResolveRoundTrip(a, true);
    ResolveRoundTrip(b, true);
  }

  lemma StableNamesDistinct(a: int, b: int)
    requires a != b
    ensures StableName(a) != StableName(b)
  {
    if StableName(a) == StableName(b) {
      StableNameInjective(a, b);
    }
  }

  /** `versions.map(v => Resolve(v, probe(v)))`: one branch per version, in version order. */
  function BranchList(versions: seq<int>, probe: int -> bool): (r: seq<string>)
    ensures |r| == |versions|
    ensures forall i :: 0 <= i < |versions| ==> r[i] == Resolve(versions[i], probe(versions[i]))
  {
    if versions == [] then []
    else [Resolve(versions[0], probe(versions[0]))] + BranchList(versions[1..], probe)
  }

  /** The versions whose probe answered yes, in their original order. */
  function Confirmed(versions: seq<int>, probe: int -> bool): (r: seq<int>)
    ensures forall i :: 0 <= i < |r| ==> r[i] in versions && probe(r[i])
    ensures forall i :: 0 <= i < |versions| && probe(versions[i]) ==> versions[i] in r
  {
    if versions == [] then []
    else (if probe(versions[0]) then [versions[0]] else []) + Confirmed(versions[1..], probe)
  }

  lemma {:induction false} ConfirmedAscending(versions: seq<int>, probe: int -> bool)
    requires StrictlyAscending(versions)
    ensures StrictlyAscending(Confirmed(versions, probe))
  {
    if versions != [] {
      var tail := versions[1..];
      assert StrictlyAscending(tail) by {
        forall i, j | 0 <= i < j < |tail| ensures tail[i] < tail[j] {
          assert tail[i] == versions[i + 1] && tail[j] == versions[j + 1];
        }
      }
      ConfirmedAscending(tail, probe);
      var rest := Confirmed(tail, probe);
      forall i | 0 <= i < |rest| ensures versions[0] < rest[i] {
        assert rest[i] in tail;
      }
    }
  }

  /** The release-branch names of `versions`, one each, in order. */
  function StableNames(versions: seq<int>): (r: seq<string>)
    ensures |r| == |versions|
    ensures forall i :: 0 <= i < |r| ==> BranchVersion(r[i]) == Some(versions[i])
  {
    if versions == [] then []
    else
      ResolveRoundTrip(versions[0], true);
      [StableName(versions[0])] + StableNames(versions[1..])
  }

  /** Dropping the fallback from the branch list leaves the confirmed versions' names. */
  lemma {:induction false} BranchListWithoutFallback(versions: seq<int>, probe: int -> bool)
    ensures Without(BranchList(versions, probe), Fallback) == StableNames(Confirmed(versions, probe))
  {
    if versions != [] {
      var v, rest := versions[0], versions[1..];
      BranchListWithoutFallback(rest, probe);
      var bl := BranchList(versions, probe);
      assert bl == [Resolve(v, probe(v))] + BranchList(rest, probe);
      assert bl[0] == Resolve(v, probe(v)) && bl[1..] == BranchList(rest, probe);
      var c := Confirmed(versions, probe);
      if probe(v) {
        assert c == [v] + Confirmed(rest, probe);
        assert c[0] == v && c[1..] == Confirmed(rest, probe);
        calc {
          Without(bl, Fallback);
          [StableName(v)] + Without(BranchList(rest, probe), Fallback);
          [StableName(v)] + StableNames(Confirmed(rest, probe));
          StableNames(c);
        }
      } else {
        assert c == Confirmed(rest, probe);
      }
    }
  }

  /** `master` survives the filter exactly when some version was not confirmed. */
  lemma FallbackEmitted(versions: seq<int>, probe: int -> bool)
    ensures Fallback in Unique(BranchList(versions, probe))
            <==> exists i :: 0 <= i < |versions| && !probe(versions[i])
  {
    var bl := BranchList(versions, probe);
    var e := Unique(bl);
    if Fallback in e {
      var k :| 0 <= k < |e| && e[k] == Fallback;
      assert e[k] in bl;
      var i :| 0 <= i < |bl| && bl[i] == Fallback;
      assert !probe(versions[i]);
    }
    if i :| 0 <= i < |versions| && !probe(versions[i]) {
      assert bl[i] == Fallback;
      assert bl[i] in e;
    }
  }

  /**
   * `branches.filter(onlyUnique)` for distinct versions: no name twice, `master` present exactly
   * when some version was not confirmed, and, with `master` set aside, the confirmed versions'
   * `stable<N>` names in their order.
   */
  lemma EmittedBranches(versions: seq<int>, probe: int -> bool)
    requires StrictlyAscending(versions)
    ensures NoDuplicates(Unique(BranchList(versions, probe)))
    ensures Fallback in Unique(BranchList(versions, probe))
            <==> exists i :: 0 <= i < |versions| && !probe(versions[i])
    ensures Without(Unique(BranchList(versions, probe)), Fallback)
            == StableNames(Confirmed(versions, probe))
    ensures StrictlyAscending(Confirmed(versions, probe))
  {
    var bl := BranchList(versions, probe);
    forall p, q | 0 <= p < q < |bl| && bl[p] == bl[q] ensures bl[p] == Fallback {
      if bl[p] != Fallback {
        StableNameInjective(versions[p], versions[q]);
      }
    }
    UniqueKeepsAllButOne(bl, Fallback);
    BranchListWithoutFallback(versions, probe);
    ConfirmedAscending(versions, probe);
    FallbackEmitted(versions, probe);
  }
}
