/** pkg/multiclone/multiclone.go: the SSH-to-HTTPS translator, the worker, and the
    sequential skeleton of MultiClone (header pass, workers in arrival order, drain,
    choice of the final summary). */
module MultiClone {
  import opened Results
  import opened Strings
  import opened Pipeline

  const GitHubDomain := "https://github.com"
  const GitHubSSHPrefix := "git@github.com:"
  const GitHubSSHSuffix := ".git"
  const InvalidSSHURL := "invalid SSH URL"

  /** isSSHURL */
  predicate IsSSHURL(repoURL: string) {
    HasPrefix(repoURL, GitHubSSHPrefix) && HasSuffix(repoURL, GitHubSSHSuffix)
  }

  /** The prefix and the suffix of an SSH URL cannot overlap: the last four characters
      of anything shorter than 19 that starts with the prefix fall inside "com:", which
      is not ".git". So an SSH URL has at least 19 characters, and trimming both leaves
      exactly the characters between them. */
  lemma SSHURLBounds(repoURL: string)
    requires IsSSHURL(repoURL)
    ensures |repoURL| >= 19
    ensures TrimSuffix(TrimPrefix(repoURL, GitHubSSHPrefix), GitHubSSHSuffix) == repoURL[15..|repoURL| - 4]
    ensures repoURL == GitHubSSHPrefix + repoURL[15..|repoURL| - 4] + GitHubSSHSuffix
  {
    var n := |repoURL|;
    assert repoURL[..15] == GitHubSSHPrefix;
    assert repoURL[n - 4..] == GitHubSSHSuffix;
    assert repoURL[n - 4] == '.';
    var trimmed := repoURL[15..];
    assert TrimPrefix(repoURL, GitHubSSHPrefix) == trimmed;
    assert trimmed[|trimmed| - 4..] == GitHubSSHSuffix;
    assert repoURL == repoURL[..15] + repoURL[15..n - 4] + repoURL[n - 4..];
  }

  /** repoHTTPSURLFromSSHURL: rejects anything that is not an SSH URL with the error
      "invalid SSH URL" and no URL; otherwise joins the owner/repo part between the
      prefix and the suffix onto https://github.com. */
  function RepoHTTPSURLFromSSHURL(repoURL: string): (r: Result<string>)
    ensures r.Err? <==> !IsSSHURL(repoURL)
    ensures r.Err? ==> r.msg == InvalidSSHURL
    ensures r.Ok? ==> |repoURL| >= 19 && r.value == JoinPath(GitHubDomain, repoURL[15..|repoURL| - 4])
  {
    if !IsSSHURL(repoURL) then Err(InvalidSSHURL)
    else
      var trimmed := TrimPrefix(repoURL, GitHubSSHPrefix);
      var ownerRepo := TrimSuffix(trimmed, GitHubSSHSuffix);
      SSHURLBounds(repoURL);
      Ok(JoinPath(GitHubDomain, ownerRepo))
  }

  /** Every git@github.com:<owner/repo>.git translates to https://github.com/<owner/repo>. */
  lemma TranslateOwnerRepo(ownerRepo: string)
    ensures IsSSHURL(GitHubSSHPrefix + ownerRepo + GitHubSSHSuffix)
    ensures RepoHTTPSURLFromSSHURL(GitHubSSHPrefix + ownerRepo + GitHubSSHSuffix)
            == Ok(JoinPath(GitHubDomain, ownerRepo))
  {
    var s := GitHubSSHPrefix + ownerRepo + GitHubSSHSuffix;
    assert s[..15] == GitHubSSHPrefix;
    assert s[|s| - 4..] == GitHubSSHSuffix;
    assert s[15..|s| - 4] == ownerRepo;
  }

  /** The cases of TestIsSSHURL. */
  lemma IsSSHURLExamples()
    ensures IsSSHURL("git@github.com:username/repo.git")
    ensures !IsSSHURL("https://github.com/username/repo.git")
    ensures !IsSSHURL("git@github.com:username/repo")
    ensures !IsSSHURL("invalid-url")
  {
    assert "https://github.com/username/repo.git"[0] != GitHubSSHPrefix[0];
    assert "git@github.com:username/repo"[24] != GitHubSSHSuffix[0];
  }

  /** The valid case of TestRepoHTTPSURLFromSSHURL. */
  lemma TranslationExample()
    ensures RepoHTTPSURLFromSSHURL("git@github.com:username/repo.git") == Ok("https://github.com/username/repo")
  {
    IsSSHURLExamples();
    OwnerRepoExample();
    JoinPathExample();
  }

  /** The invalid case of TestRepoHTTPSURLFromSSHURL. */
  lemma InvalidTranslationExample()
    ensures RepoHTTPSURLFromSSHURL("invalid-url") == Err("invalid SSH URL")
  {
    IsSSHURLExamples();
  }

  lemma OwnerRepoExample()
    ensures var s := "git@github.com:username/repo.git"; |s| == 32 && s[15..|s| - 4] == "username/repo"
  {
  }

  lemma JoinPathExample()
    ensures JoinPath(GitHubDomain, "username/repo") == "https://github.com/username/repo"
  {
    assert GitHubDomain + "/" + "username/repo" == "https://github.com/username/repo";
  }

  /** The summary MultiClone prints after the separator line. */
  datatype FinalReport =
    | AllCloned(cloned: int, total: int)              // "All repositories have successfully cloned"
    | SomeCloned(cloned: int, total: int)             // "some repositories have successfully cloned"
    | OneCloned(cloned: int, total: int)              // "one repository has successfully cloned"
    | Tally(cloned: int, total: int, listing: Listing) // "(c/t) repositories are successfully cloned." + listing

  /** The chain of comparisons on the final counter. */
  function Summary(cloned: int, total: int, buffer: string): (r: FinalReport)
    ensures r.cloned == cloned && r.total == total
    ensures r.AllCloned? <==> cloned == total
    ensures r.SomeCloned? <==> cloned != total && cloned > 1
    ensures r.OneCloned? <==> cloned != total && cloned == 1
    ensures r.Tally? ==> r.listing == FailureListing(buffer, total)
  {
    if cloned == total then AllCloned(cloned, total)
    else if cloned > 1 then SomeCloned(cloned, total)
    else if cloned == 1 then OneCloned(cloned, total)
    else Tally(cloned, total, FailureListing(buffer, total))
  }

  /** The report a drained run produces. */
  function RunReport(repoSSHURLs: seq<string>, outcomes: seq<CloneOutcome>, order: seq<nat>): FinalReport
    requires |outcomes| == |repoSSHURLs| && InRange(order, |repoSSHURLs|)
  {
    var run := Run(RepoHTTPSURLFromSSHURL, repoSSHURLs, outcomes, order);
    Summary(run.1, |repoSSHURLs|, FailureBuffer(run.0))
  }

  /** After every response is drained: "All" is printed exactly when every job succeeds
      (so also for no jobs at all); the tally branch is reached only when no job
      succeeded, and then the failure list is always printed, so the trailing
      "All %d repositories are successfully cloned" line cannot be reached. */
  lemma SummaryAfterDrain(repoSSHURLs: seq<string>, outcomes: seq<CloneOutcome>, order: seq<nat>)
    requires |outcomes| == |repoSSHURLs| && IsArrivalOrder(order, |repoSSHURLs|)
    ensures InRange(order, |repoSSHURLs|)
    ensures RunReport(repoSSHURLs, outcomes, order).AllCloned?
            <==> forall j :: 0 <= j < |repoSSHURLs| ==> Succeeds(RepoHTTPSURLFromSSHURL, repoSSHURLs[j], outcomes[j])
    ensures RunReport(repoSSHURLs, outcomes, order).Tally? ==>
              && RunReport(repoSSHURLs, outcomes, order).cloned == 0 < |repoSSHURLs|
              && RunReport(repoSSHURLs, outcomes, order).listing.NotCloned?
  {
    RunAllSucceed(RepoHTTPSURLFromSSHURL, repoSSHURLs, outcomes, order);
    RunBufferNonEmpty(RepoHTTPSURLFromSSHURL, repoSSHURLs, outcomes, order);
  }

  /** The tally and the failure list are printed exactly when there is at least one job
      and none succeeds. So with at least one success and at least one failure the run
      ends on the "some"/"one" line, and the failed URLs gathered in the log are never
      printed. */
  lemma FailuresListedOnlyWithoutSuccess(repoSSHURLs: seq<string>, outcomes: seq<CloneOutcome>, order: seq<nat>)
    requires |outcomes| == |repoSSHURLs| && IsArrivalOrder(order, |repoSSHURLs|)
    ensures InRange(order, |repoSSHURLs|)
    ensures RunReport(repoSSHURLs, outcomes, order).Tally?
            <==> 0 < |repoSSHURLs|
                 && forall j :: 0 <= j < |repoSSHURLs| ==> !Succeeds(RepoHTTPSURLFromSSHURL, repoSSHURLs[j], outcomes[j])
    ensures (exists j :: 0 <= j < |repoSSHURLs| && Succeeds(RepoHTTPSURLFromSSHURL, repoSSHURLs[j], outcomes[j]))
            && (exists j :: 0 <= j < |repoSSHURLs| && !Succeeds(RepoHTTPSURLFromSSHURL, repoSSHURLs[j], outcomes[j]))
            ==> RunReport(repoSSHURLs, outcomes, order).SomeCloned? || RunReport(repoSSHURLs, outcomes, order).OneCloned?
  {
    SummaryAfterDrain(repoSSHURLs, outcomes, order);
    RunNoneSucceed(RepoHTTPSURLFromSSHURL, repoSSHURLs, outcomes, order);
  }

  /** Two arrival orders of the same jobs give the same counter and the same branch; the
      reports are equal outright unless both list failures (whose order follows arrival). */
  lemma ReportIndependentOfOrder(repoSSHURLs: seq<string>, outcomes: seq<CloneOutcome>,
                                 order1: seq<nat>, order2: seq<nat>)
    requires |outcomes| == |repoSSHURLs|
    requires IsArrivalOrder(order1, |repoSSHURLs|) && IsArrivalOrder(order2, |repoSSHURLs|)
    ensures InRange(order1, |repoSSHURLs|) && InRange(order2, |repoSSHURLs|)
    ensures RunReport(repoSSHURLs, outcomes, order1).cloned == RunReport(repoSSHURLs, outcomes, order2).cloned
    ensures RunReport(repoSSHURLs, outcomes, order1).Tally? == RunReport(repoSSHURLs, outcomes, order2).Tally?
    ensures !RunReport(repoSSHURLs, outcomes, order1).Tally? ==>
              RunReport(repoSSHURLs, outcomes, order1) == RunReport(repoSSHURLs, outcomes, order2)
  {
    RunCounterIndependentOfOrder(RepoHTTPSURLFromSSHURL, repoSSHURLs, outcomes, order1);
    RunCounterIndependentOfOrder(RepoHTTPSURLFromSSHURL, repoSSHURLs, outcomes, order2);
  }

  /** MultiClone with the subprocess replaced by `outcomes` and the completion order of
      the workers given by `order`: the header slice and the final report. */
  method MultiClone(repoSSHURLs: seq<string>, outcomes: seq<CloneOutcome>, order: seq<nat>)
    returns (repoHTTPSURLs: seq<string>, report: FinalReport)
    requires |outcomes| == |repoSSHURLs| && IsArrivalOrder(order, |repoSSHURLs|)
    ensures |repoHTTPSURLs| == |repoSSHURLs|
    ensures forall i :: 0 <= i < |repoSSHURLs| ==>
              repoHTTPSURLs[i] == if IsSSHURL(repoSSHURLs[i]) then RepoHTTPSURLFromSSHURL(repoSSHURLs[i]).value else ""
    ensures InRange(order, |repoSSHURLs|) && report == RunReport(repoSSHURLs, outcomes, order)
    ensures report.cloned == SuccessCount(RepoHTTPSURLFromSSHURL, repoSSHURLs, outcomes, Indices(|repoSSHURLs|))
    ensures report.Tally? ==> report.listing.NotCloned?
  {
    var totalReposNum := |repoSSHURLs|;
    repoHTTPSURLs := HeaderPass(RepoHTTPSURLFromSSHURL, repoSSHURLs);
    ArrivalOrderCovers(order, totalReposNum);
    var responses, clonedReposNum := RunWorkers(RepoHTTPSURLFromSSHURL, repoSSHURLs, outcomes, order);
    var buffer := Drain(responses);
    SummaryAfterDrain(repoSSHURLs, outcomes, order);
    RunCounterIndependentOfOrder(RepoHTTPSURLFromSSHURL, repoSSHURLs, outcomes, order);
    if clonedReposNum == totalReposNum {
      report := AllCloned(clonedReposNum, totalReposNum);
      return;
    }
    if clonedReposNum > 1 {
      report := SomeCloned(clonedReposNum, totalReposNum);
      return;
    }
    if clonedReposNum == 1 {
      report := OneCloned(clonedReposNum, totalReposNum);
      return;
    }
    if |buffer| > 0 {
      report := Tally(clonedReposNum, totalReposNum, NotCloned(buffer));
    } else {
      report := Tally(clonedReposNum, totalReposNum, AllSucceeded(totalReposNum));
    }
  }
}
