/** The ECR side of scripts/create-ecr-repositories.py: the look-up-then-
    create decision for one repository, the loop that tallies the outcomes
    of every mapping entry, and the pre-flight gates of `main`.

    The registry is an abstract value standing for the ECR service: the
    repositories that exist (name to URI) and an oracle saying which
    look-ups fail with an error other than "not found" and which creations
    succeed, with the URI ECR would assign. */
module EcrReconcile {
  import opened Collections
  import opened Text
  import opened Ordering
  import opened EcrMapping

  datatype Registry = Registry(
    repos: map<string, string>,        // existing repositories: name to URI
    lookupFailures: set<string>,       // names whose describe call raises another error
    createUris: map<string, string>)   // names whose create call succeeds, with the URI it returns

  /** What describe_repositories does for one name. */
  datatype Lookup = Found(uri: string) | NotFound | LookupFailed

  function DescribeRepository(reg: Registry, name: string): Lookup
  {
    if name in reg.lookupFailures then LookupFailed
    else if name in reg.repos then Found(reg.repos[name])
    else NotFound
  }

  /** The fixed at-rest encryption setting of every created repository. */
  const EncryptionType: string := "AES256"

  /** One create_repository call, with the configuration it carries. */
  datatype CreateRequest = CreateRequest(repositoryName: string, scanOnPush: bool, encryptionType: string)

  /** What create_repository answers: the new URI, or None when it raises. */
  function CreateRepository(reg: Registry, req: CreateRequest): Option<string>
  {
    if req.repositoryName in reg.createUris then Some(reg.createUris[req.repositoryName]) else None
  }

  /** The result of create_ecr_repository: `uri` is Some(u) for the pair
      (True, u) and None for (False, None); `requests` lists the create
      calls it issued, and `after` is the registry afterwards. */
  datatype Attempt = Attempt(uri: Option<string>, requests: seq<CreateRequest>, after: Registry)

  /** create_ecr_repository: look the name up; an existing repository is
      reused, a missing one is created, and any other error is a failure. */
  function CreateEcrRepository(reg: Registry, name: string, scanOnPush: bool): (a: Attempt)
    // exactly one create call, with the fixed configuration, when the look-up says
    // "not found", and none otherwise
    ensures a.requests ==
      if DescribeRepository(reg, name).NotFound? then [CreateRequest(name, scanOnPush, EncryptionType)] else []
    ensures DescribeRepository(reg, name).Found? ==> a.uri == Some(DescribeRepository(reg, name).uri)
    ensures DescribeRepository(reg, name).LookupFailed? ==> a.uri == None
    ensures DescribeRepository(reg, name).NotFound? ==> a.uri == CreateRepository(reg, a.requests[0])
    // success leaves the repository in the registry under the reported URI
    ensures a.uri.Some? ==> name in a.after.repos && a.after.repos[name] == a.uri.value
    ensures a.uri.Some? ==> name !in a.after.lookupFailures
    // failure changes nothing
    ensures a.uri.None? ==> a.after == reg
    // existing repositories are never altered, and at most `name` is added
    ensures KeepsExisting(reg, a.after)
    ensures a.after.repos.Keys <= reg.repos.Keys + {name}
    ensures a.after.lookupFailures == reg.lookupFailures && a.after.createUris == reg.createUris
  {
    match DescribeRepository(reg, name)
    case Found(uri) => Attempt(Some(uri), [], reg)
    case LookupFailed => Attempt(None, [], reg)
    case NotFound =>
      var req := CreateRequest(name, scanOnPush, EncryptionType);
      match CreateRepository(reg, req)
      case Some(uri) => Attempt(Some(uri), [req], reg.(repos := reg.repos[name := uri]))
      case None => Attempt(None, [req], reg)
  }

  /** Idempotence: once a call has succeeded, calling again with the same
      name issues no create, reports the same URI and changes nothing. */
  lemma CreateIsIdempotent(reg: Registry, name: string, scanOnPush: bool)
    requires CreateEcrRepository(reg, name, scanOnPush).uri.Some?
    ensures var a := CreateEcrRepository(reg, name, scanOnPush);
      var b := CreateEcrRepository(a.after, name, scanOnPush);
      b.requests == [] && b.uri == a.uri && b.after == a.after
  {
  }

  /** Every repository of `before` is still in `after`, with the same URI. */
  ghost predicate KeepsExisting(before: Registry, after: Registry)
  {
    forall n :: n in before.repos ==> n in after.repos && after.repos[n] == before.repos[n]
  }

  /** Every entry of `uris` is the URI `reg` holds for that name. */
  ghost predicate Live(uris: map<string, string>, reg: Registry)
  {
    forall k :: k in uris ==> k in reg.repos && reg.repos[k] == uris[k]
  }

  /** The outcome recorded for one mapping entry. */
  datatype Outcome = Outcome(repoName: string, uri: Option<string>)

  /** Every entry succeeded. */
  ghost predicate AllSucceeded(outcomes: seq<Outcome>)
  {
    forall i :: 0 <= i < |outcomes| ==> outcomes[i].uri.Some?
  }

  /** The whole reconciliation: the outcome of every entry in order, every
      create call issued, and the registry at the end. */
  datatype Reconciled = Reconciled(outcomes: seq<Outcome>, requests: seq<CreateRequest>, final: Registry)

  /** The first `n` entries processed one after the other, each against the
      registry the previous ones left behind. */
  function Reconciliation(reg: Registry, mappings: seq<Mapping>, n: nat, scanOnPush: bool): (run: Reconciled)
    requires n <= |mappings|
    ensures |run.outcomes| == n
    ensures |run.requests| <= n
  {
    if n == 0 then Reconciled([], [], reg)
    else
      var prev := Reconciliation(reg, mappings, n - 1, scanOnPush);
      var name := mappings[n - 1].repoName;
      var a := CreateEcrRepository(prev.final, name, scanOnPush);
      Reconciled(prev.outcomes + [Outcome(name, a.uri)], prev.requests + a.requests, a.after)
  }

  /** The i-th outcome is the outcome of the i-th entry. */
  lemma {:induction false} OutcomeNames(reg: Registry, mappings: seq<Mapping>, n: nat, scanOnPush: bool)
    requires n <= |mappings|
    ensures var run := Reconciliation(reg, mappings, n, scanOnPush);
      forall i :: 0 <= i < n ==> run.outcomes[i].repoName == mappings[i].repoName
  {
    if n > 0 {
      OutcomeNames(reg, mappings, n - 1, scanOnPush);
      var prev := Reconciliation(reg, mappings, n - 1, scanOnPush);
      var name := mappings[n - 1].repoName;
      var o := Outcome(name, CreateEcrRepository(prev.final, name, scanOnPush).uri);
      assert Reconciliation(reg, mappings, n, scanOnPush).outcomes == prev.outcomes + [o];
      NamesStep(prev.outcomes, o, mappings);
    }
  }

  lemma NamesStep(outcomes: seq<Outcome>, o: Outcome, mappings: seq<Mapping>)
    requires |outcomes| < |mappings| && o.repoName == mappings[|outcomes|].repoName
    requires forall i :: 0 <= i < |outcomes| ==> outcomes[i].repoName == mappings[i].repoName
    ensures forall i :: 0 <= i <= |outcomes| ==> (outcomes + [o])[i].repoName == mappings[i].repoName
  {
  }

  function SuccessEntry(o: Outcome): Option<(string, string)>
  {
    if o.uri.Some? then Some((o.repoName, o.uri.value)) else None
  }

  function FailedName(o: Outcome): Option<string>
  {
    if o.uri.None? then Some(o.repoName) else None
  }

  /** The tally `main` keeps: success_count, failed_count, failed_repos and
      the repo_uris dict. */
  datatype Summary = Summary(
    successCount: nat,
    failedCount: nat,
    failedRepos: seq<string>,
    repoUris: map<string, string>)

  /** The tally of a sequence of outcomes. */
  function Summarize(outcomes: seq<Outcome>): (s: Summary)
    ensures s.successCount + s.failedCount == |outcomes|
    ensures s.failedCount == |s.failedRepos|
  {
    CollectSplit(outcomes, SuccessEntry, FailedName);
    Summary(
      |Collect(outcomes, SuccessEntry)|,
      |Collect(outcomes, FailedName)|,
      Collect(outcomes, FailedName),
      Assigned(outcomes, SuccessEntry))
  }

  /** success_count after one more outcome. */
  lemma SuccessStep(outcomes: seq<Outcome>, o: Outcome)
    ensures |Collect(outcomes + [o], SuccessEntry)| ==
      |Collect(outcomes, SuccessEntry)| + (if o.uri.Some? then 1 else 0)
  {
  }

  /** failed_repos after one more outcome. */
  lemma FailedStep(outcomes: seq<Outcome>, o: Outcome)
    ensures Collect(outcomes + [o], FailedName) ==
      Collect(outcomes, FailedName) + (if o.uri.None? then [o.repoName] else [])
  {
  }

  /** repo_uris after one more outcome. */
  lemma UrisStep(outcomes: seq<Outcome>, o: Outcome)
    ensures Assigned(outcomes + [o], SuccessEntry) ==
      if o.uri.Some? then Assigned(outcomes, SuccessEntry)[o.repoName := o.uri.value]
      else Assigned(outcomes, SuccessEntry)
  {
  }

  /** The loop of `main`: process every entry in order and fold its outcome
      into the tally. */
  method CreateRepositories(reg: Registry, mappings: seq<Mapping>, scanOnPush: bool)
    returns (summary: Summary, final: Registry)
    ensures summary.successCount + summary.failedCount == |mappings|
    ensures var run := Reconciliation(reg, mappings, |mappings|, scanOnPush);
      summary == Summarize(run.outcomes) && final == run.final
  {
    var successCount, failedCount := 0, 0;
    var failedRepos: seq<string> := [];
    var repoUris: map<string, string> := map[];
    var registry := reg;
    ghost var outcomes: seq<Outcome> := [];
    for i := 0 to |mappings|
      invariant outcomes == Reconciliation(reg, mappings, i, scanOnPush).outcomes
      invariant registry == Reconciliation(reg, mappings, i, scanOnPush).final
      invariant successCount == |Collect(outcomes, SuccessEntry)|
      invariant failedRepos == Collect(outcomes, FailedName)
      invariant failedCount == |failedRepos|
      invariant repoUris == Assigned(outcomes, SuccessEntry)
    {
      var repoName := mappings[i].repoName;
      var attempt := CreateEcrRepository(registry, repoName, scanOnPush);
      if attempt.uri.Some? {
        successCount := successCount + 1;
        repoUris := repoUris[repoName := attempt.uri.value];
      } else {
        failedCount := failedCount + 1;
        failedRepos := failedRepos + [repoName];
      }
      registry := attempt.after;
      SuccessStep(outcomes, Outcome(repoName, attempt.uri));
      FailedStep(outcomes, Outcome(repoName, attempt.uri));
      UrisStep(outcomes, Outcome(repoName, attempt.uri));
      outcomes := outcomes + [Outcome(repoName, attempt.uri)];
    }
    summary := Summary(successCount, failedCount, failedRepos, repoUris);
    final := registry;
    assert summary == Summarize(outcomes);
  }

  /** failed_repos lists exactly the names whose processing failed, in
      processing order: the list for two runs of entries back to back is the
      first list followed by the second. */
  lemma FailedReposInOrder(first: seq<Outcome>, second: seq<Outcome>, name: string)
    ensures Summarize(first + second).failedRepos == Summarize(first).failedRepos + Summarize(second).failedRepos
    ensures name in Summarize(first).failedRepos <==>
      exists i :: 0 <= i < |first| && first[i].repoName == name && first[i].uri.None?
  {
    CollectAppend(first, second, FailedName);
    CollectMembers(first, FailedName, name);
  }

  /** A name is a key of repo_uris exactly when some entry for it succeeded. */
  lemma RepoUrisKeys(reg: Registry, mappings: seq<Mapping>, scanOnPush: bool, name: string)
    ensures var run := Reconciliation(reg, mappings, |mappings|, scanOnPush);
      name in Summarize(run.outcomes).repoUris <==>
      exists i :: 0 <= i < |mappings| && mappings[i].repoName == name && run.outcomes[i].uri.Some?
  {
    var run := Reconciliation(reg, mappings, |mappings|, scanOnPush);
    OutcomeNames(reg, mappings, |mappings|, scanOnPush);
    AssignedKeys(run.outcomes, SuccessEntry, name);
  }

  /** A name maps in repo_uris to the URI of its last successful entry. */
  lemma RepoUrisLastWins(reg: Registry, mappings: seq<Mapping>, scanOnPush: bool, i: nat)
    requires i < |mappings|
    requires Reconciliation(reg, mappings, |mappings|, scanOnPush).outcomes[i].uri.Some?
    requires forall j :: i < j < |mappings| && mappings[j].repoName == mappings[i].repoName ==>
      Reconciliation(reg, mappings, |mappings|, scanOnPush).outcomes[j].uri.None?
    ensures var run := Reconciliation(reg, mappings, |mappings|, scanOnPush);
      var uris := Summarize(run.outcomes).repoUris;
      mappings[i].repoName in uris && uris[mappings[i].repoName] == run.outcomes[i].uri.value
  {
    var run := Reconciliation(reg, mappings, |mappings|, scanOnPush);
    OutcomeNames(reg, mappings, |mappings|, scanOnPush);
    AssignedLastWins(run.outcomes, SuccessEntry, i);
  }

  /** The registry only grows: whatever existed before a run is still there
      afterwards with the same URI. */
  lemma {:induction false} RunKeepsExisting(reg: Registry, mappings: seq<Mapping>, n: nat, scanOnPush: bool)
    requires n <= |mappings|
    ensures KeepsExisting(reg, Reconciliation(reg, mappings, n, scanOnPush).final)
  {
    if n > 0 {
      RunKeepsExisting(reg, mappings, n - 1, scanOnPush);
    }
  }

  /** Between two points of one run the registry only grows, and the
      look-up errors stay as they were. */
  lemma {:induction false} StepsKeep(reg: Registry, mappings: seq<Mapping>, a: nat, b: nat, scanOnPush: bool)
    requires a <= b <= |mappings|
    ensures var from := Reconciliation(reg, mappings, a, scanOnPush).final;
      var to := Reconciliation(reg, mappings, b, scanOnPush).final;
      KeepsExisting(from, to) && to.lookupFailures == from.lookupFailures
    decreases b - a
  {
    if a < b {
      StepsKeep(reg, mappings, a, b - 1, scanOnPush);
      var from := Reconciliation(reg, mappings, a, scanOnPush).final;
      var mid := Reconciliation(reg, mappings, b - 1, scanOnPush).final;
      var to := Reconciliation(reg, mappings, b, scanOnPush).final;
      assert to == CreateEcrRepository(mid, mappings[b - 1].repoName, scanOnPush).after;
      forall k | k in from.repos
        ensures k in to.repos && to.repos[k] == from.repos[k]
      {
        assert k in mid.repos;
      }
    }
  }

  /** A name the registry holds without look-up errors is simply found: no
      create call, the registry's URI, nothing changed. */
  lemma FoundStep(reg: Registry, name: string, scanOnPush: bool)
    requires name in reg.repos && name !in reg.lookupFailures
    ensures CreateEcrRepository(reg, name, scanOnPush) == Attempt(Some(reg.repos[name]), [], reg)
  {
  }

  /** When the n-th entry succeeds, the registry after it holds that name,
      free of look-up errors, under the URI reported. */
  lemma SuccessIsPresent(reg: Registry, mappings: seq<Mapping>, n: nat, scanOnPush: bool)
    requires 0 < n <= |mappings|
    requires Reconciliation(reg, mappings, n, scanOnPush).outcomes[n - 1].uri.Some?
    ensures var run := Reconciliation(reg, mappings, n, scanOnPush);
      var name := mappings[n - 1].repoName;
      && name in run.final.repos && name !in run.final.lookupFailures
      && run.final.repos[name] == run.outcomes[n - 1].uri.value
  {
    var prev := Reconciliation(reg, mappings, n - 1, scanOnPush);
    var a := CreateEcrRepository(prev.final, mappings[n - 1].repoName, scanOnPush);
    assert Reconciliation(reg, mappings, n, scanOnPush).outcomes[n - 1].uri == a.uri;
  }

  /** A name listed twice is processed twice within one run: once an earlier
      entry for it has succeeded, the later entry finds the repository, issues
      no create call, leaves the registry as it is and reports the same URI. */
  lemma DuplicateIsNoOp(reg: Registry, mappings: seq<Mapping>, scanOnPush: bool, i: nat, j: nat)
    requires i < j < |mappings|
    requires mappings[i].repoName == mappings[j].repoName
    requires Reconciliation(reg, mappings, i + 1, scanOnPush).outcomes[i].uri.Some?
    ensures var before := Reconciliation(reg, mappings, j, scanOnPush);
      var after := Reconciliation(reg, mappings, j + 1, scanOnPush);
      && after.requests == before.requests
      && after.final == before.final
      && after.outcomes[j].uri == Reconciliation(reg, mappings, i + 1, scanOnPush).outcomes[i].uri
  {
    SuccessIsPresent(reg, mappings, i + 1, scanOnPush);
    StepsKeep(reg, mappings, i + 1, j, scanOnPush);
    var before := Reconciliation(reg, mappings, j, scanOnPush);
    FoundStep(before.final, mappings[j].repoName, scanOnPush);
    assert before.requests + [] == before.requests;
  }

  /** Every URI the script lists is the one the registry holds for that name
      when the run is over. */
  lemma {:induction false} ListedUrisAreLive(reg: Registry, mappings: seq<Mapping>, n: nat, scanOnPush: bool)
    requires n <= |mappings|
    ensures var run := Reconciliation(reg, mappings, n, scanOnPush);
      var uris := Summarize(run.outcomes).repoUris;
      forall k :: k in uris ==> k in run.final.repos && run.final.repos[k] == uris[k]
  {
    var run := Reconciliation(reg, mappings, n, scanOnPush);
    UrisAreLive(reg, mappings, n, scanOnPush);
    assert Summarize(run.outcomes).repoUris == Assigned(run.outcomes, SuccessEntry);
  }

  /** One more entry keeps the listed URIs live. */
  lemma LiveStep(uris: map<string, string>, reg: Registry, name: string, scanOnPush: bool)
    requires Live(uris, reg)
    ensures var a := CreateEcrRepository(reg, name, scanOnPush);
      Live(if a.uri.Some? then uris[name := a.uri.value] else uris, a.after)
  {
  }

  lemma {:induction false} UrisAreLive(reg: Registry, mappings: seq<Mapping>, n: nat, scanOnPush: bool)
    requires n <= |mappings|
    ensures var run := Reconciliation(reg, mappings, n, scanOnPush);
      Live(Assigned(run.outcomes, SuccessEntry), run.final)
  {
    if n > 0 {
      var prev := Reconciliation(reg, mappings, n - 1, scanOnPush);
      UrisAreLive(reg, mappings, n - 1, scanOnPush);
      var name := mappings[n - 1].repoName;
      var a := CreateEcrRepository(prev.final, name, scanOnPush);
      var o := Outcome(name, a.uri);
      var run := Reconciliation(reg, mappings, n, scanOnPush);
      assert run.outcomes == prev.outcomes + [o] && run.final == a.after;
      UrisStep(prev.outcomes, o);
      LiveStep(Assigned(prev.outcomes, SuccessEntry), prev.final, name, scanOnPush);
    }
  }

  /** After a run in which every entry succeeded, every name is present and
      free of look-up errors, and each outcome reports the final URI. */
  lemma {:induction false} AllSucceededArePresent(reg: Registry, mappings: seq<Mapping>, n: nat, scanOnPush: bool)
    requires n <= |mappings|
    requires AllSucceeded(Reconciliation(reg, mappings, n, scanOnPush).outcomes)
    ensures var run := Reconciliation(reg, mappings, n, scanOnPush);
      PresentAndReported(run.outcomes, mappings, run.final)
  {
    if n > 0 {
      var prev := Reconciliation(reg, mappings, n - 1, scanOnPush);
      var name := mappings[n - 1].repoName;
      var a := CreateEcrRepository(prev.final, name, scanOnPush);
      var run := Reconciliation(reg, mappings, n, scanOnPush);
      assert run.outcomes == prev.outcomes + [Outcome(name, a.uri)] && run.final == a.after;
      SucceededPrefix(prev.outcomes, Outcome(name, a.uri));
      AllSucceededArePresent(reg, mappings, n - 1, scanOnPush);
      PresentStep(prev.outcomes, prev.final, mappings, scanOnPush);
    }
  }

  /** Outcome i reports the URI `reg` holds for the i-th entry, which is
      present there without look-up errors. */
  ghost predicate PresentAndReported(outcomes: seq<Outcome>, mappings: seq<Mapping>, reg: Registry)
  {
    forall i :: 0 <= i < |outcomes| && i < |mappings| ==>
      && mappings[i].repoName in reg.repos
      && mappings[i].repoName !in reg.lookupFailures
      && outcomes[i].uri == Some(reg.repos[mappings[i].repoName])
  }

  lemma SucceededPrefix(outcomes: seq<Outcome>, o: Outcome)
    requires AllSucceeded(outcomes + [o])
    ensures AllSucceeded(outcomes) && o.uri.Some?
  {
    assert (outcomes + [o])[|outcomes|] == o;
    forall i | 0 <= i < |outcomes|
      ensures outcomes[i].uri.Some?
    {
      assert (outcomes + [o])[i] == outcomes[i];
    }
  }

  /** A successful next entry keeps every earlier entry present and reported,
      and adds its own. */
  lemma PresentStep(outcomes: seq<Outcome>, reg: Registry, mappings: seq<Mapping>, scanOnPush: bool)
    requires |outcomes| < |mappings| && PresentAndReported(outcomes, mappings, reg)
    requires CreateEcrRepository(reg, mappings[|outcomes|].repoName, scanOnPush).uri.Some?
    ensures var name := mappings[|outcomes|].repoName;
      var a := CreateEcrRepository(reg, name, scanOnPush);
      PresentAndReported(outcomes + [Outcome(name, a.uri)], mappings, a.after)
  {
    var name := mappings[|outcomes|].repoName;
    var a := CreateEcrRepository(reg, name, scanOnPush);
    var next := outcomes + [Outcome(name, a.uri)];
    forall i | 0 <= i < |next| && i < |mappings|
      ensures && mappings[i].repoName in a.after.repos
              && mappings[i].repoName !in a.after.lookupFailures
              && next[i].uri == Some(a.after.repos[mappings[i].repoName])
    {
      if i < |outcomes| {
        assert next[i] == outcomes[i];
        assert mappings[i].repoName in reg.repos;
      }
    }
  }

  /** The first `n` entries name repositories `reg` holds, free of look-up
      errors. */
  ghost predicate AllPresent(reg: Registry, mappings: seq<Mapping>, n: nat)
    requires n <= |mappings|
  {
    forall i :: 0 <= i < n ==> mappings[i].repoName in reg.repos && mappings[i].repoName !in reg.lookupFailures
  }

  /** Each outcome reports the URI `reg` holds for its name. */
  ghost predicate ReportsRegistry(outcomes: seq<Outcome>, reg: Registry)
  {
    forall i :: 0 <= i < |outcomes| ==>
      outcomes[i].repoName in reg.repos && outcomes[i].uri == Some(reg.repos[outcomes[i].repoName])
  }

  lemma ReportsRegistryStep(outcomes: seq<Outcome>, o: Outcome, reg: Registry)
    requires ReportsRegistry(outcomes, reg)
    requires o.repoName in reg.repos && o.uri == Some(reg.repos[o.repoName])
    ensures ReportsRegistry(outcomes + [o], reg)
  {
  }

  /** One more entry that the registry holds without look-up errors keeps a
      run a no-op that reports the registry. */
  lemma NoOpStep(prev: Reconciled, reg: Registry, name: string, scanOnPush: bool)
    requires prev.requests == [] && prev.final == reg && ReportsRegistry(prev.outcomes, reg)
    requires name in reg.repos && name !in reg.lookupFailures
    ensures var a := CreateEcrRepository(prev.final, name, scanOnPush);
      var next := Reconciled(prev.outcomes + [Outcome(name, a.uri)], prev.requests + a.requests, a.after);
      next.requests == [] && next.final == reg && ReportsRegistry(next.outcomes, reg)
  {
    FoundStep(reg, name, scanOnPush);
    ReportsRegistryStep(prev.outcomes, Outcome(name, Some(reg.repos[name])), reg);
  }

  /** Against a registry that already holds every name without look-up
      errors, a run creates nothing, changes nothing and reports the
      registry's URIs. */
  lemma {:induction false} AllPresentIsNoOp(reg: Registry, mappings: seq<Mapping>, n: nat, scanOnPush: bool)
    requires n <= |mappings|
    requires AllPresent(reg, mappings, n)
    ensures var run := Reconciliation(reg, mappings, n, scanOnPush);
      run.requests == [] && run.final == reg && ReportsRegistry(run.outcomes, reg)
  {
    if n > 0 {
      assert AllPresent(reg, mappings, n - 1);
      AllPresentIsNoOp(reg, mappings, n - 1, scanOnPush);
      var prev := Reconciliation(reg, mappings, n - 1, scanOnPush);
      NoOpStep(prev, reg, mappings[n - 1].repoName, scanOnPush);
    }
  }

  /** Running the script again after a run in which every entry succeeded
      issues no create call and reports the same outcomes. */
  lemma RerunIsNoOp(reg: Registry, mappings: seq<Mapping>, scanOnPush: bool)
    requires AllSucceeded(Reconciliation(reg, mappings, |mappings|, scanOnPush).outcomes)
    ensures var run := Reconciliation(reg, mappings, |mappings|, scanOnPush);
      var again := Reconciliation(run.final, mappings, |mappings|, scanOnPush);
      again.requests == [] && again.final == run.final && again.outcomes == run.outcomes
  {
    var run := Reconciliation(reg, mappings, |mappings|, scanOnPush);
    AllSucceededArePresent(reg, mappings, |mappings|, scanOnPush);
    assert AllPresent(run.final, mappings, |mappings|);
    AllPresentIsNoOp(run.final, mappings, |mappings|, scanOnPush);
    var again := Reconciliation(run.final, mappings, |mappings|, scanOnPush);
    OutcomeNames(reg, mappings, |mappings|, scanOnPush);
    OutcomeNames(run.final, mappings, |mappings|, scanOnPush);
    SameReports(again.outcomes, run.outcomes, run.final);
  }

  /** Two outcome lists for the same names that both report what `reg` holds
      are equal. */
  lemma SameReports(xs: seq<Outcome>, ys: seq<Outcome>, reg: Registry)
    requires |xs| == |ys| && ReportsRegistry(xs, reg)
    requires forall i :: 0 <= i < |xs| ==> xs[i].repoName == ys[i].repoName
    requires forall i :: 0 <= i < |ys| ==> ys[i].repoName in reg.repos && ys[i].uri == Some(reg.repos[ys[i].repoName])
    ensures xs == ys
  {
    forall i | 0 <= i < |xs|
      ensures xs[i] == ys[i]
    {
    }
  }

  /** What a completed run reports: the account, the tally and the URI
      listing sorted by repository name. */
  datatype Report = Report(accountId: string, summary: Summary, listing: seq<(string, string)>)

  /** `main`: the credential check, then the mapping file, then the
      non-empty check, then the loop and the sorted listing. `identity` is
      the account get_caller_identity returns, or None when it raises. */
  method RunScript(identity: Option<string>, mappingFile: TextFile, reg: Registry, scanOnPush: bool)
    returns (r: Result<Report, Fatal>, final: Registry)
    ensures identity.None? ==> r == Failure(CredentialsMissing) && final == reg
    ensures identity.Some? && mappingFile.Missing? ==> r == Failure(MappingFileMissing) && final == reg
    ensures identity.Some? && mappingFile.File? && ParseMappings(mappingFile.lines) == [] ==>
      r == Failure(NoMappings) && final == reg
    // past the gates the script always completes, whatever fails per entry
    ensures identity.Some? && mappingFile.File? && ParseMappings(mappingFile.lines) != [] ==>
      && r.Success?
      && var mappings := ParseMappings(mappingFile.lines);
      && var run := Reconciliation(reg, mappings, |mappings|, scanOnPush);
      && r.value.accountId == identity.value
      && r.value.summary == Summarize(run.outcomes)
      && final == run.final
    ensures r.Success? ==> SortedByName(r.value.listing)
    ensures r.Success? ==> forall p :: p in r.value.listing <==>
      p.0 in r.value.summary.repoUris && r.value.summary.repoUris[p.0] == p.1
  {
    if identity.None? {
      return Failure(CredentialsMissing), reg;
    }
    var parsed := ParseMappingFile(mappingFile);
    if parsed.Failure? {
      return Failure(parsed.error), reg;
    }
    var mappings := parsed.value;
    if mappings == [] {
      return Failure(NoMappings), reg;
    }
    var summary;
    summary, final := CreateRepositories(reg, mappings, scanOnPush);
    var listing := SortedItems(summary.repoUris);
    r := Success(Report(identity.value, summary, listing));
  }
}
