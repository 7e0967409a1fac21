/** Installing the modules a restore depends on (`processDependencies`).
    Module names are compared in lower case; the first module that can be
    neither found nor installed ends the run with failure. */
module Dependencies {
  import opened PhpStrings

  /** What a dependency run did: the verdict, the modules installed
      afterwards, and the install attempts in order. */
  datatype DepsResult = DepsResult(ok: bool, installed: set<string>, attempts: seq<string>)

  /** A dependency is available when its lower-cased name is installed or
      the installer can install it. */
  predicate Available(dep: string, installed: set<string>, installable: set<string>)
  {
    ToLower(dep) in installed || ToLower(dep) in installable
  }

  /** Dependencies `deps` are satisfied, given the modules already
      `installed` and those the installer can install. */
  predicate Satisfiable(deps: seq<string>, installed: set<string>, installable: set<string>)
  {
    forall k :: 0 <= k < |deps| ==> Available(deps[k], installed, installable)
  }

  /** The position of the first dependency that is not available, or `|deps|`
      when every one is. */
  function FirstUnavailable(deps: seq<string>, installed: set<string>, installable: set<string>): (n: nat)
    ensures n <= |deps|
    ensures forall k :: 0 <= k < n ==> Available(deps[k], installed, installable)
    ensures n < |deps| ==> !Available(deps[n], installed, installable)
    decreases |deps|
  {
    if |deps| == 0 then 0
    else if !Available(deps[0], installed, installable) then 0
    else
      var n := FirstUnavailable(deps[1..], installed, installable);
      assert forall k :: 0 <= k < n ==> deps[1..][k] == deps[k + 1];
      1 + n
  }

  /** The lower-cased names of `deps`. */
  function Lowered(deps: seq<string>): set<string>
  {
    set k | 0 <= k < |deps| :: ToLower(deps[k])
  }

  /** The install attempts a run over `deps` makes when none of them fails:
      each lower-cased name that is neither installed beforehand nor met
      earlier in the list, in list order. */
  function Missing(deps: seq<string>, installed: set<string>): seq<string>
    decreases |deps|
  {
    if |deps| == 0 then []
    else
      var prefix := deps[..|deps| - 1];
      var dep := ToLower(deps[|deps| - 1]);
      Missing(prefix, installed) + (if dep in installed || dep in Lowered(prefix) then [] else [dep])
  }

  /** `processDependencies($deps)`: for each dependency, skip it when it is
      installed, otherwise try to install it and stop with failure when that
      throws. */
  method ProcessDependencies(deps: seq<string>, installed: set<string>, installable: set<string>)
    returns (r: DepsResult)
    ensures r.ok <==> Satisfiable(deps, installed, installable)
    ensures var n := FirstUnavailable(deps, installed, installable);
            && (r.ok <==> n == |deps|)
            && r.installed == installed + Lowered(deps[..n])
            && r.attempts == Missing(deps[..n], installed) + (if n < |deps| then [ToLower(deps[n])] else [])
  {
    ghost var n := FirstUnavailable(deps, installed, installable);
    var have := installed;
    var attempts: seq<string> := [];
    var i := 0;
    while i < |deps|
      invariant 0 <= i <= n
      invariant have == installed + Lowered(deps[..i])
      invariant attempts == Missing(deps[..i], installed)
    {
      var dep := ToLower(deps[i]);
      LoweredSnoc(deps, i);
      MissingSnoc(deps, i, installed);
      if dep in have {
        SeenIsAvailable(deps, i, installed, installable);
        i := i + 1;
        continue;
      }
      attempts := attempts + [dep];
      if dep !in installable {
        FirstUnavailableAt(deps, i, installed, installable);
        SatisfiableUpTo(deps, installed, installable);
        return DepsResult(false, have, attempts);
      }
      have := have + {dep};
      i := i + 1;
    }
    assert deps[..i] == deps;
    SatisfiableUpTo(deps, installed, installable);
    return DepsResult(true, have, attempts);
  }

  /** An unavailable dependency at or before the first one is the first one. */
  lemma FirstUnavailableAt(deps: seq<string>, i: nat, installed: set<string>, installable: set<string>)
    requires i < |deps| && i <= FirstUnavailable(deps, installed, installable)
    requires !Available(deps[i], installed, installable)
    ensures FirstUnavailable(deps, installed, installable) == i
  {
  }

  /** All dependencies are available exactly when none is unavailable first. */
  lemma SatisfiableUpTo(deps: seq<string>, installed: set<string>, installable: set<string>)
    ensures Satisfiable(deps, installed, installable) <==> FirstUnavailable(deps, installed, installable) == |deps|
  {
  }

  lemma LoweredSnoc(deps: seq<string>, i: nat)
    requires i < |deps|
    ensures Lowered(deps[..i + 1]) == Lowered(deps[..i]) + {ToLower(deps[i])}
  {
    assert deps[..i + 1][i] == deps[i];
    forall k | 0 <= k < i
      ensures deps[..i + 1][k] == deps[..i][k]
    {
    }
  }

  lemma MissingSnoc(deps: seq<string>, i: nat, installed: set<string>)
    requires i < |deps|
    ensures var dep := ToLower(deps[i]);
            Missing(deps[..i + 1], installed) ==
              Missing(deps[..i], installed) + (if dep in installed || dep in Lowered(deps[..i]) then [] else [dep])
  {
    assert deps[..i + 1][..i] == deps[..i];
  }

  /** A name met earlier in the list, before the first unavailable
      dependency, is available. */
  lemma SeenIsAvailable(deps: seq<string>, i: nat, installed: set<string>, installable: set<string>)
    requires i < |deps| && i <= FirstUnavailable(deps, installed, installable)
    requires ToLower(deps[i]) in installed + Lowered(deps[..i])
    ensures Available(deps[i], installed, installable)
  {
    if ToLower(deps[i]) !in installed {
      var k :| 0 <= k < i && ToLower(deps[..i][k]) == ToLower(deps[i]);
      assert deps[..i][k] == deps[k];
    }
  }

  /** The attempts of a run that does not fail are the lower-cased
      dependencies not installed beforehand, each attempted exactly once. */
  lemma {:induction false} MissingOnce(deps: seq<string>, installed: set<string>)
    ensures var m := Missing(deps, installed);
            && (forall a :: a in m <==> a in Lowered(deps) && a !in installed)
            && (forall i, j :: 0 <= i < j < |m| ==> m[i] != m[j])
    decreases |deps|
  {
    if |deps| > 0 {
      var prefix := deps[..|deps| - 1];
      MissingOnce(prefix, installed);
      LoweredSnoc(deps, |deps| - 1);
      assert deps[..|deps|] == deps;
    }
  }
}
