/** The decision path of `main` with the network steps replaced by their
    result: choose and validate the key, sort the model catalogue the
    service returned, and compute the missing required models. */
module Diagnostic {
  import opened Wrappers
  import opened Text
  import opened ApiKey
  import opened Sorting
  import opened RequiredModels
  import opened ModelGap
  import opened Seqs

  /** Why a run with a valid key stops at the service, each with exit
      status 1: the reachability probe returned an empty body (line 104); it
      carried `Retry-After` (line 109, including the uncaught `ValueError` of
      `int(...)` at line 110); the request failed (line 117); the service
      refused authentication or authorisation (lines 120-125, 149-154); it
      reported a rate limit while listing models (line 155); or listing
      failed in any other way (line 162). */
  datatype ServiceFailure =
    | EmptyProbe
    | RetryAfter
    | RequestFailed
    | AuthenticationFailed
    | AuthorizationFailed
    | RateLimited
    | ListingFailed

  /** What the service did for the probe and the model listing: either all
      of it succeeded and these are the `id` fields of the model list, in the
      order the service sent them, or it failed for the given reason. */
  datatype ServiceAnswer =
    | Answered(catalogue: seq<string>)
    | Failed(failure: ServiceFailure)

  /** How a run ends: stopped by key validation, stopped by the service, or
      through to the model report with the key used, the sorted ids
      `listModels` returns and the ids `checkMissingModels` reports missing. */
  datatype Run =
    | Halted(check: KeyCheck)
    | ServiceStopped(failure: ServiceFailure)
    | Completed(key: string, available: seq<string>, missing: seq<string>)

  /** `main` from line 263 to line 275. `service` stands for the calls of
      `connectToOpenAI` and `listModels`; `modelFile` holds the lines of
      "oaimodellist.txt", or `None` when it is not a file. */
  function Diagnose(argv: seq<string>, configured: string, env: Option<string>,
                    service: ServiceAnswer, modelFile: Option<seq<string>>): (r: Run)
    ensures r.Halted? <==> Validate(Resolve(argv, configured, env)) != ValidKey
    ensures r.Halted? ==> r.check == Validate(Resolve(argv, configured, env))
    ensures r.ServiceStopped? <==> Validate(Resolve(argv, configured, env)) == ValidKey && service.Failed?
    ensures r.ServiceStopped? ==> r.failure == service.failure
    ensures r.Completed? <==> Validate(Resolve(argv, configured, env)) == ValidKey && service.Answered?
    ensures r.Completed? ==> Resolve(argv, configured, env) == Some(r.key) && StartsWith(r.key, KeyPrefix)
    ensures r.Completed? ==> Sorted(r.available) && multiset(r.available) == multiset(service.catalogue)
    ensures r.Completed? ==> r.missing == Missing(LoadRequired(modelFile), service.catalogue)
  {
    var key := Resolve(argv, configured, env);
    var check := Validate(key);
    if check != ValidKey then
      Halted(check)
    else
      match service
      case Failed(failure) => ServiceStopped(failure)
      case Answered(catalogue) =>
        ValidIffPrefixed(key.value);
        var available := Sort(catalogue);
        forall x ensures x in available <==> x in catalogue {
          SortKeepsMembers(catalogue, x);
        }
        MissingDependsOnlyOnMembership(LoadRequired(modelFile), available, catalogue);
        Completed(key.value, available, Missing(LoadRequired(modelFile), available))
  }

  /** Process exit status: 1 for every stop, 0 when the run reaches the
      model report. */
  function ExitStatusOf(r: Run): (code: int)
    ensures code == 0 <==> r.Completed?
    ensures code == 0 || code == 1
  {
    match r
    case Completed(_, _, _) => 0
    case _ => 1
  }

  /** The script exits with status 0 exactly when the key is valid and the
      service answers both the probe and the model listing. */
  lemma ExitZeroIff(argv: seq<string>, configured: string, env: Option<string>,
                    service: ServiceAnswer, modelFile: Option<seq<string>>)
    ensures ExitStatusOf(Diagnose(argv, configured, env, service, modelFile)) == 0
            <==> Validate(Resolve(argv, configured, env)) == ValidKey && service.Answered?
  {
  }

  /** A rejected key stops the run before the service is asked anything: the
      outcome depends neither on the service nor on the model file. */
  lemma RejectedKeyIgnoresService(argv: seq<string>, configured: string, env: Option<string>,
                                  s1: ServiceAnswer, f1: Option<seq<string>>,
                                  s2: ServiceAnswer, f2: Option<seq<string>>)
    requires Diagnose(argv, configured, env, s1, f1).Halted?
    ensures Diagnose(argv, configured, env, s2, f2) == Diagnose(argv, configured, env, s1, f1)
    ensures ExitStatusOf(Diagnose(argv, configured, env, s1, f1)) == 1
  {
  }

  /** A required-model file naming an available id and then an unavailable
      one (say "gpt-4" and "nonexistent-model"), one per line, reports exactly
      the second. */
  lemma FileExample(argv: seq<string>, configured: string, env: Option<string>,
                    catalogue: seq<string>, present: string, absent: string)
    requires present != "" && Trimmed(present) && absent != "" && Trimmed(absent)
    requires present in catalogue && absent !in catalogue
    requires Validate(Resolve(argv, configured, env)) == ValidKey
    ensures Diagnose(argv, configured, env, Answered(catalogue), Some([present + "\n", absent + "\n"])).missing == [absent]
  {
    var nl := "\n";
    assert AllSpace(nl) by { assert nl[0] == '\n'; }
    var file := Some([present + nl, absent + nl]);
    TwoLineFile(present, absent, nl);
    assert LoadRequired(file) == [present, absent];
    var r := Diagnose(argv, configured, env, Answered(catalogue), file);
    assert r.Completed?;
    MissingUnique([present, absent], catalogue, [absent]) by {
      assert [present, absent] == [present] + [absent];
      assert IsSubseq([absent], [absent]);
      assert IsSubseq([absent], [present, absent]) by {
        assert [present, absent][1..] == [absent];
      }
    }
  }

  /** Without a model file the nine built-in ids are checked. */
  lemma AbsentFileChecksBuiltIns(argv: seq<string>, configured: string, env: Option<string>, catalogue: seq<string>)
    requires Validate(Resolve(argv, configured, env)) == ValidKey
    ensures Diagnose(argv, configured, env, Answered(catalogue), None).missing == Missing(HardcodedModels, catalogue)
    ensures (forall x :: x in HardcodedModels ==> x in catalogue) <==> Diagnose(argv, configured, env, Answered(catalogue), None).missing == []
  {
    NothingMissingIff(HardcodedModels, catalogue);
  }
}
