/**
 * `runRetrieveWithRetries`: the bounded loop that rebuilds the manifest, runs the retrieve,
 * and either finishes, aborts, or excludes the types the retriever reported as unknown and
 * tries again.
 */
module Retry {
  import opened Wrappers
  import opened Manifest
  import opened Retrieval
  import opened Diagnostics

  /**
   * What one run is given; the tool runs with `maxRetries` 50. `retrieve(n, xml)` is the reply of attempt `n` (counting from 1)
   * run against manifest text `xml`; `parse` stands for `JSON.parse`.
   */
  datatype Config = Config(
    metadataTypes: seq<string>,
    latestVersion: string,
    maxRetries: nat,
    retrieve: (nat, string) -> Reply,
    parse: Parser)

  /** The four ways a run ends; only `Succeeded` exits with status 0. */
  datatype Exit =
    | Succeeded        // a reply with status 0
    | ParseFailure     // the saved error output is not JSON
    | UnknownFailure   // a failed reply names no missing type
    | RetriesExceeded  // `maxRetries` attempts without success

  /**
   * How a run ended, after how many attempts, with which exclusion list, and the
   * exclusion list each attempt's manifest was built from.
   */
  datatype RunResult = RunResult(exit: Exit, attempts: nat, excluded: seq<string>, history: seq<seq<string>>)

  /** The outcome of attempt `n` when the manifest leaves out `excludeTypes`. */
  function Outcome(c: Config, n: nat, excludeTypes: seq<string>): AttemptOutcome
  {
    Classify(c.retrieve(n, ManifestText(c.metadataTypes, excludeTypes, c.latestVersion)), c.parse)
  }

  /** The rest of a run once `attempt` attempts are done, `excludeTypes` is the working list and `history` their lists. */
  function RunFrom(c: Config, attempt: nat, excludeTypes: seq<string>, history: seq<seq<string>>): RunResult
    requires attempt <= c.maxRetries
    decreases c.maxRetries - attempt
  {
    if attempt == c.maxRetries then RunResult(RetriesExceeded, attempt, excludeTypes, history)
    else
      var n := attempt + 1;
      var h := history + [excludeTypes];
      match Outcome(c, n, excludeTypes)
      case Success => RunResult(Succeeded, n, excludeTypes, h)
      case Unparseable => RunResult(ParseFailure, n, excludeTypes, h)
      case StructuredFailure(retrieveJson) =>
        var ids := Scan(retrieveJson.Text());
        if ids == [] then RunResult(UnknownFailure, n, excludeTypes, h)
        else RunFrom(c, n, AppendNew(excludeTypes, ids), h)
  }

  /** A whole run from the seed exclusion list. */
  function Run(c: Config, seed: seq<string>): RunResult
  {
    RunFrom(c, 0, seed, [])
  }

  /**
   * The controller as the tool runs it: a counter, a private copy of the seed list that the
   * error handler appends to, and a loop that returns as soon as an attempt decides the run.
   */
  method RunRetrieveWithRetries(c: Config, excludeTypes: seq<string>) returns (result: RunResult)
    ensures result == Run(c, excludeTypes)
  {
    var attempt: nat := 0;
    var dynamicExcludeTypes := new ExcludeList(excludeTypes);
    var history: seq<seq<string>> := [];
    while attempt < c.maxRetries
      invariant attempt <= c.maxRetries
      invariant |history| == attempt
      invariant Run(c, excludeTypes) == RunFrom(c, attempt, dynamicExcludeTypes.items, history)
      decreases c.maxRetries - attempt
    {
      attempt := attempt + 1;
      var packageXml := BuildManifest(c.metadataTypes, dynamicExcludeTypes.items, c.latestVersion);
      history := history + [dynamicExcludeTypes.items];
      var reply := c.retrieve(attempt, packageXml);
      match Classify(reply, c.parse)
      case Success =>
        return RunResult(Succeeded, attempt, dynamicExcludeTypes.items, history);
      case Unparseable =>
        return RunResult(ParseFailure, attempt, dynamicExcludeTypes.items, history);
      case StructuredFailure(retrieveJson) =>
        var fatal := HandleRetrieveErrors(retrieveJson, dynamicExcludeTypes);
        if fatal {
          return RunResult(UnknownFailure, attempt, dynamicExcludeTypes.items, history);
        }
    }
    return RunResult(RetriesExceeded, attempt, dynamicExcludeTypes.items, history);
  }

  // ---------------------------------------------------------------------------
  // What a run is, attempt by attempt

  /** Attempt `n`, built from `before`, failed with at least one named type, leaving `after`. */
  ghost predicate Retried(c: Config, n: nat, before: seq<string>, after: seq<string>)
  {
    var o := Outcome(c, n, before);
    && o.StructuredFailure?
    && Scan(o.retrieveJson.Text()) != []
    && after == AppendNew(before, Scan(o.retrieveJson.Text()))
  }

  /**
   * A run's result is explained by its attempts: the first starts from the seed, each
   * attempt but the last failed retryably and produced the next one's list, the last
   * attempt's outcome gives the exit, and only the cap stops a run that keeps failing
   * retryably.
   */
  ghost predicate Explains(c: Config, seed: seq<string>, r: RunResult)
  {
    var h := r.history;
    && |h| == r.attempts <= c.maxRetries
    && (r.attempts > 0 ==> h[0] == seed)
    && (forall k :: 0 <= k < r.attempts - 1 ==> Retried(c, k + 1, h[k], h[k + 1]))
    && match r.exit
       case Succeeded =>
         r.attempts > 0 && r.excluded == h[r.attempts - 1]
         && Outcome(c, r.attempts, r.excluded).Success?
       case ParseFailure =>
         r.attempts > 0 && r.excluded == h[r.attempts - 1]
         && Outcome(c, r.attempts, r.excluded).Unparseable?
       case UnknownFailure =>
         r.attempts > 0 && r.excluded == h[r.attempts - 1]
         && Outcome(c, r.attempts, r.excluded).StructuredFailure?
         && Scan(Outcome(c, r.attempts, r.excluded).retrieveJson.Text()) == []
       case RetriesExceeded =>
         r.attempts == c.maxRetries
         && (r.attempts == 0 ==> r.excluded == seed)
         && (r.attempts > 0 ==> Retried(c, r.attempts, h[r.attempts - 1], r.excluded))
  }

  /** The state after `attempt` attempts that all failed retryably, ending with list `excludeTypes`. */
  ghost predicate RetriedSoFar(c: Config, seed: seq<string>, attempt: nat, excludeTypes: seq<string>, h: seq<seq<string>>)
  {
    && |h| == attempt <= c.maxRetries
    && (attempt == 0 ==> excludeTypes == seed)
    && (attempt > 0 ==> h[0] == seed && Retried(c, attempt, h[attempt - 1], excludeTypes))
    && (forall k :: 0 <= k < attempt - 1 ==> Retried(c, k + 1, h[k], h[k + 1]))
  }

  /** A further retryable failure extends the state. */
  lemma RetriedOnce(c: Config, seed: seq<string>, attempt: nat, excludeTypes: seq<string>, h: seq<seq<string>>, next: seq<string>)
    requires RetriedSoFar(c, seed, attempt, excludeTypes, h)
    requires attempt < c.maxRetries
    requires Retried(c, attempt + 1, excludeTypes, next)
    ensures RetriedSoFar(c, seed, attempt + 1, next, h + [excludeTypes])
  {
    var h' := h + [excludeTypes];
    forall k | 0 <= k < attempt ensures Retried(c, k + 1, h'[k], h'[k + 1]) {
      if k < attempt - 1 {
        assert Retried(c, k + 1, h[k], h[k + 1]);
      } else {
        assert h'[k + 1] == excludeTypes;
      }
    }
  }

  /** An attempt that decides the run by itself is explained by the state before it. */
  lemma DecidedOnce(c: Config, seed: seq<string>, attempt: nat, excludeTypes: seq<string>, h: seq<seq<string>>, r: RunResult)
    requires RetriedSoFar(c, seed, attempt, excludeTypes, h)
    requires attempt < c.maxRetries
    requires r.attempts == attempt + 1 && r.history == h + [excludeTypes] && r.excluded == excludeTypes
    requires r.exit != RetriesExceeded
    requires var o := Outcome(c, attempt + 1, excludeTypes);
             match r.exit
             case Succeeded => o.Success?
             case ParseFailure => o.Unparseable?
             case UnknownFailure => o.StructuredFailure? && Scan(o.retrieveJson.Text()) == []
             case RetriesExceeded => false
    ensures Explains(c, seed, r)
  {
    var h' := h + [excludeTypes];
    forall k | 0 <= k < attempt ensures Retried(c, k + 1, h'[k], h'[k + 1]) {
      if k < attempt - 1 {
        assert Retried(c, k + 1, h[k], h[k + 1]);
      } else {
        assert h'[k + 1] == excludeTypes;
      }
    }
  }

  lemma {:induction false} RunFromExplained(c: Config, seed: seq<string>, attempt: nat, excludeTypes: seq<string>, h: seq<seq<string>>)
    requires RetriedSoFar(c, seed, attempt, excludeTypes, h)
    ensures Explains(c, seed, RunFrom(c, attempt, excludeTypes, h))
    decreases c.maxRetries - attempt
  {
    if attempt < c.maxRetries {
      var n := attempt + 1;
      var o := Outcome(c, n, excludeTypes);
      if o.StructuredFailure? && Scan(o.retrieveJson.Text()) != [] {
        var next := AppendNew(excludeTypes, Scan(o.retrieveJson.Text()));
        RetriedOnce(c, seed, attempt, excludeTypes, h, next);
        RunFromExplained(c, seed, n, next, h + [excludeTypes]);
      } else {
        DecidedOnce(c, seed, attempt, excludeTypes, h, RunFrom(c, attempt, excludeTypes, h));
      }
    }
  }

  /** Every run is explained by its attempts. */
  lemma RunExplained(c: Config, seed: seq<string>)
    ensures Explains(c, seed, Run(c, seed))
  {
    RunFromExplained(c, seed, 0, seed, []);
  }

  /** The list attempt `k + 1` is built from, or the final list once every attempt is done. */
  function ListAt(r: RunResult, k: nat): seq<string>
    requires k <= r.attempts == |r.history|
  {
    if k < r.attempts then r.history[k] else r.excluded
  }

  /** The remainder of an explained run, from any of its attempts on, is what the controller computes. */
  lemma {:induction false} ExplainedFrom(c: Config, seed: seq<string>, r: RunResult, k: nat)
    requires Explains(c, seed, r)
    requires k < r.attempts || (k == r.attempts && r.exit == RetriesExceeded)
    ensures RunFrom(c, k, ListAt(r, k), r.history[..k]) == r
    decreases r.attempts - k
  {
    var h := r.history;
    if k == r.attempts {
      assert h[..k] == h;
    } else {
      assert h[..k] + [h[k]] == h[..k + 1];
      if k + 1 < r.attempts {
        assert Retried(c, k + 1, h[k], h[k + 1]);
        ExplainedFrom(c, seed, r, k + 1);
      } else if r.exit == RetriesExceeded {
        assert Retried(c, k + 1, h[k], r.excluded);
        ExplainedFrom(c, seed, r, k + 1);
      } else {
        assert h[..k + 1] == h;
      }
    }
  }

  /** A result is explained by its attempts exactly when it is the result of the run. */
  lemma RunCharacterized(c: Config, seed: seq<string>, r: RunResult)
    ensures Explains(c, seed, r) <==> r == Run(c, seed)
  {
    if Explains(c, seed, r) {
      ExplainedFrom(c, seed, r, 0);
      assert r.history[..0] == [];
    }
    RunExplained(c, seed);
  }

  // ---------------------------------------------------------------------------
  // Consequences

  /** A run stops within the cap, through one of its four exits. */
  lemma RunTerminates(c: Config, seed: seq<string>)
    ensures var r := Run(c, seed);
            && r.attempts <= c.maxRetries
            && |r.history| == r.attempts
            && (r.exit == RetriesExceeded <==> r.attempts == c.maxRetries && !EndsEarly(c, r))
            && (r.exit != RetriesExceeded ==> 1 <= r.attempts)
  {
    RunExplained(c, seed);
  }

  /** The last attempt of `r` decided the run by itself. */
  ghost predicate EndsEarly(c: Config, r: RunResult)
  {
    && r.attempts > 0 && |r.history| == r.attempts
    && var o := Outcome(c, r.attempts, r.history[r.attempts - 1]);
       o.Success? || o.Unparseable? || (o.StructuredFailure? && Scan(o.retrieveJson.Text()) == [])
  }

  /** A reply with status 0 on the first attempt ends the run at once, with the seed list untouched. */
  lemma FirstAttemptSucceeds(c: Config, seed: seq<string>)
    requires c.maxRetries >= 1
    requires Outcome(c, 1, seed).Success?
    ensures Run(c, seed) == RunResult(Succeeded, 1, seed, [seed])
  {
  }

  /**
   * The working list only grows: the seed is a prefix of every attempt's list, each list is a
   * prefix of the next and of the final one, each manifest names no more types than the one
   * before, and a seed without duplicates stays without.
   */
  lemma RunGrows(c: Config, seed: seq<string>)
    ensures var r := Run(c, seed);
            && IsPrefix(seed, r.excluded)
            && (forall k :: 0 <= k < |r.history| ==> IsPrefix(seed, r.history[k]) && IsPrefix(r.history[k], r.excluded))
            && (forall k :: 0 <= k < |r.history| - 1 ==> IsPrefix(r.history[k], r.history[k + 1]))
            && (forall k :: 0 <= k < |r.history| - 1 ==>
                  |Kept(c.metadataTypes, r.history[k + 1])| <= |Kept(c.metadataTypes, r.history[k])|)
            && (NoDuplicates(seed) ==> NoDuplicates(r.excluded))
  {
    RunFromGrows(c, seed, 0, seed, []);
    var r := Run(c, seed);
    RunExplained(c, seed);
    forall k | 0 <= k < |r.history| - 1
      ensures IsPrefix(r.history[k], r.history[k + 1])
      ensures |Kept(c.metadataTypes, r.history[k + 1])| <= |Kept(c.metadataTypes, r.history[k])|
    {
      assert Retried(c, k + 1, r.history[k], r.history[k + 1]);
      KeptShrinks(c.metadataTypes, r.history[k], r.history[k + 1]);
    }
  }

  lemma PrefixTransitive(a: seq<string>, b: seq<string>, c: seq<string>)
    requires IsPrefix(a, b) && IsPrefix(b, c)
    ensures IsPrefix(a, c)
  {
    assert c[..|a|] == c[..|b|][..|a|];
  }

  lemma {:induction false} RunFromGrows(c: Config, seed: seq<string>, attempt: nat, excludeTypes: seq<string>, h: seq<seq<string>>)
    requires attempt <= c.maxRetries
    requires IsPrefix(seed, excludeTypes)
    requires forall k :: 0 <= k < |h| ==> IsPrefix(seed, h[k]) && IsPrefix(h[k], excludeTypes)
    ensures var r := RunFrom(c, attempt, excludeTypes, h);
            && IsPrefix(excludeTypes, r.excluded)
            && IsPrefix(seed, r.excluded)
            && (forall k :: 0 <= k < |r.history| ==> IsPrefix(seed, r.history[k]) && IsPrefix(r.history[k], r.excluded))
            && (NoDuplicates(excludeTypes) ==> NoDuplicates(r.excluded))
    decreases c.maxRetries - attempt
  {
    var r := RunFrom(c, attempt, excludeTypes, h);
    if attempt < c.maxRetries {
      var n := attempt + 1;
      var h' := h + [excludeTypes];
      var o := Outcome(c, n, excludeTypes);
      if o.StructuredFailure? && Scan(o.retrieveJson.Text()) != [] {
        var next := AppendNew(excludeTypes, Scan(o.retrieveJson.Text()));
        assert IsPrefix(excludeTypes, next);
        PrefixTransitive(seed, excludeTypes, next);
        forall k | 0 <= k < |h'| ensures IsPrefix(seed, h'[k]) && IsPrefix(h'[k], next) {
          if k < |h| {
            PrefixTransitive(h[k], excludeTypes, next);
          } else {
            assert h'[k] == excludeTypes;
          }
        }
        RunFromGrows(c, seed, n, next, h');
        PrefixTransitive(excludeTypes, next, r.excluded);
        if NoDuplicates(excludeTypes) {
          AppendNewNoDuplicates(excludeTypes, Scan(o.retrieveJson.Text()));
        }
      } else {
        assert r.excluded == excludeTypes;
        assert r.history == h';
        assert forall k :: 0 <= k < |h| ==> r.history[k] == h[k];
      }
    }
  }

  /**
   * No short cut: when every attempt fails naming only types that are already excluded,
   * the list never grows and the run goes on until the cap.
   */
  lemma NoProgressRunsToCap(c: Config, seed: seq<string>)
    requires forall n :: 1 <= n <= c.maxRetries ==>
      var o := Outcome(c, n, seed);
      && o.StructuredFailure?
      && Scan(o.retrieveJson.Text()) != []
      && forall t :: t in Scan(o.retrieveJson.Text()) ==> t in seed
    ensures Run(c, seed).exit == RetriesExceeded
    ensures Run(c, seed).attempts == c.maxRetries
    ensures Run(c, seed).excluded == seed
  {
    NoProgressFrom(c, seed, 0, []);
  }

  lemma {:induction false} NoProgressFrom(c: Config, seed: seq<string>, attempt: nat, h: seq<seq<string>>)
    requires attempt <= c.maxRetries
    requires forall n :: attempt < n <= c.maxRetries ==>
      var o := Outcome(c, n, seed);
      && o.StructuredFailure?
      && Scan(o.retrieveJson.Text()) != []
      && forall t :: t in Scan(o.retrieveJson.Text()) ==> t in seed
    ensures var r := RunFrom(c, attempt, seed, h);
            r.exit == RetriesExceeded && r.attempts == c.maxRetries && r.excluded == seed
    decreases c.maxRetries - attempt
  {
    if attempt < c.maxRetries {
      var ids := Scan(Outcome(c, attempt + 1, seed).retrieveJson.Text());
      AppendNewGrows(seed, ids);
      var next := AppendNew(seed, ids);
      assert next == next[..|seed|];
      NoProgressFrom(c, seed, attempt + 1, h + [seed]);
    }
  }
}
