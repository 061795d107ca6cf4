/** main.go: the earlier prototype. Its translator splits on ':' and '.' without
    checking the URL's shape, and main() runs the same fan-out/fan-in over a fixed
    list of repositories. */
module Prototype {
  import opened Results
  import opened Strings
  import opened Pipeline

  const GitHubDomain := "github.com"

  /** The repositories main() clones. */
  const MainRepoSSHURLs: seq<string> := [
    "git@github.com:yagikota/tapple_clone.git",
    "git@github.com:yagikota/wildcard-domain-scanning.git",
    "git@github.com:gin-gonic/gin.git",
    "git@github.com:labstack/echo.git",
    "git@github.com:golang/go.git"
  ]

  /** A translation, or the run-time panic of indexing [1] into a one-piece split. */
  datatype Translation = Translated(url: string) | IndexOutOfRange

  /** repoHTTPSURLFromSSHURL (prototype): the text between the first and the second ':',
      cut at its first '.', joined onto "github.com". */
  function RepoHTTPSURLFromSSHURL(repoURL: string): (r: Translation)
    ensures r.IndexOutOfRange? <==> ':' !in repoURL
  {
    var repoURLParts := Split(repoURL, ':');
    if |repoURLParts| < 2 then IndexOutOfRange
    else
      var nameParts := Split(repoURLParts[1], '.');
      Translated(JoinPath(GitHubDomain, nameParts[0]))
  }

  /** `name` is the longest prefix of `rest` that contains neither ':' nor '.'. */
  predicate IsRepoName(rest: string, name: string) {
    && HasPrefix(rest, name)
    && ':' !in name && '.' !in name
    && (|name| == |rest| || rest[|name|] == ':' || rest[|name|] == '.')
  }

  lemma IsRepoNameUnique(rest: string, n1: string, n2: string)
    requires IsRepoName(rest, n1) && IsRepoName(rest, n2)
    ensures n1 == n2
  {
  }

  /** Any input with a ':' is accepted, whatever its host or suffix, and translates to
      "github.com/" followed by the text after the first ':' up to the next ':' or '.'. */
  lemma TranslatedRepoName(repoURL: string, name: string)
    requires ':' in repoURL
    requires IsRepoName(repoURL[IndexOf(repoURL, ':') + 1..], name)
    ensures RepoHTTPSURLFromSSHURL(repoURL) == Translated(JoinPath(GitHubDomain, name))
  {
    var rest := repoURL[IndexOf(repoURL, ':') + 1..];
    var segment := Split(rest, ':')[0];
    assert Split(repoURL, ':')[1] == segment;
    FirstPieces(rest, segment, Split(segment, '.')[0]);
    IsRepoNameUnique(rest, Split(segment, '.')[0], name);
  }

  /** Cutting `rest` at its first ':' and the result at its first '.' leaves the repo name. */
  lemma FirstPieces(rest: string, segment: string, piece: string)
    requires segment == Split(rest, ':')[0] && piece == Split(segment, '.')[0]
    ensures IsRepoName(rest, piece)
  {
    assert HasPrefix(rest, segment) && ':' !in segment;
    assert HasPrefix(segment, piece) && '.' !in piece;
    assert rest[..|piece|] == piece by {
      assert rest[..|segment|][..|piece|] == piece;
    }
    assert ':' !in piece by {
      assert forall k :: 0 <= k < |piece| ==> piece[k] == segment[k];
    }
    if |piece| < |segment| {
      assert rest[|piece|] == segment[|piece|];
    }
  }

  /** An input made of a head without ':', then ':', then a name free of ':' and '.',
      then anything that starts with ':' or '.' (or nothing) translates to that name. */
  lemma TranslatedShape(repoURL: string, head: string, name: string, tail: string)
    requires repoURL == head + ":" + name + tail
    requires ':' !in head && ':' !in name && '.' !in name
    requires tail == [] || tail[0] == ':' || tail[0] == '.'
    ensures RepoHTTPSURLFromSSHURL(repoURL) == Translated(JoinPath(GitHubDomain, name))
  {
    var s := repoURL;
    assert s[|head|] == ':';
    assert s[..|head|] == head;
    assert IndexOf(s, ':') == |head| by {
      assert s[|head|] in s;
    }
    var rest := s[|head| + 1..];
    assert rest == name + tail;
    assert IsRepoName(rest, name) by {
      assert rest[..|name|] == name;
      if |name| < |rest| {
        assert rest[|name|] == tail[0];
      }
    }
    TranslatedRepoName(s, name);
  }

  /** An SSH URL on github.com whose owner/repo part has no '.' translates to
      github.com/<owner/repo>, as for git@github.com:gin-gonic/gin.git; when the repository
      name has a '.', `rest` starts there and is dropped: git@github.com:owner/my.repo.git
      gives github.com/owner/my. No "https://" is added. */
  lemma TranslateGitHubSSHURL(ownerRepo: string, rest: string)
    requires ownerRepo != [] && ':' !in ownerRepo && '.' !in ownerRepo
    requires rest == [] || rest[0] == '.' || rest[0] == ':'
    ensures RepoHTTPSURLFromSSHURL("git@github.com:" + ownerRepo + rest) == Translated("github.com/" + ownerRepo)
  {
    var head := "git@github.com";
    assert ':' !in head;
    TranslatedShape("git@github.com:" + ownerRepo + rest, head, ownerRepo, rest);
  }

  /** The hard-coded list never panics. */
  lemma MainReposTranslate()
    ensures forall i :: 0 <= i < |MainRepoSSHURLs| ==> ':' in MainRepoSSHURLs[i]
  {
    forall i | 0 <= i < |MainRepoSSHURLs| ensures ':' in MainRepoSSHURLs[i] {
      assert MainRepoSSHURLs[i][14] == ':';
    }
  }

  /** The translator as the workers see it; the panic case never reaches them, since the
      header pass has already translated every input. */
  function AsResult(repoURL: string): (r: Result<string>)
    ensures r.Ok? <==> ':' in repoURL
  {
    match RepoHTTPSURLFromSSHURL(repoURL)
    case Translated(url) => Ok(url)
    case IndexOutOfRange => Err("index out of range")
  }

  /** How many clones succeed. */
  function ClonedCount(outcomes: seq<CloneOutcome>): (n: nat)
    ensures n <= |outcomes|
  {
    if outcomes == [] then 0
    else ClonedCount(outcomes[..|outcomes| - 1]) + (if outcomes[|outcomes| - 1].Cloned? then 1 else 0)
  }

  /** When every input has a ':', a job succeeds exactly when its clone does. */
  lemma {:induction false} SuccessCountIsClonedCount(repoSSHURLs: seq<string>, outcomes: seq<CloneOutcome>, m: nat)
    requires |outcomes| == |repoSSHURLs| && m <= |repoSSHURLs|
    requires forall i :: 0 <= i < |repoSSHURLs| ==> ':' in repoSSHURLs[i]
    ensures SuccessCount(AsResult, repoSSHURLs, outcomes, Indices(m)) == ClonedCount(outcomes[..m])
  {
    if m > 0 {
      SuccessCountIsClonedCount(repoSSHURLs, outcomes, m - 1);
      assert Indices(m)[..m - 1] == Indices(m - 1);
      assert outcomes[..m][..m - 1] == outcomes[..m - 1];
    }
  }

  /** What main() ends with: a panic in the header pass at the first input without a ':',
      or the tally followed by the failure list or the all-success line. */
  datatype MainReport = Panicked(at: nat) | Report(cloned: int, total: int, listing: Listing)

  /** The header loop of main() over translator `translate`: fills the i-th slot with the
      translation of the i-th input, in order, and stops at the first input whose
      translation panics. */
  method PanickingHeaderPass(translate: string -> Translation, repoSSHURLs: seq<string>)
    returns (repoHTTPSURLs: seq<string>, panicAt: Option<nat>)
    ensures panicAt.None? <==> forall i :: 0 <= i < |repoSSHURLs| ==> translate(repoSSHURLs[i]).Translated?
    ensures panicAt.Some? ==>
              && panicAt.value < |repoSSHURLs| && translate(repoSSHURLs[panicAt.value]).IndexOutOfRange?
              && forall i :: 0 <= i < panicAt.value ==> translate(repoSSHURLs[i]).Translated?
    ensures panicAt.None? ==>
              && |repoHTTPSURLs| == |repoSSHURLs|
              && forall i :: 0 <= i < |repoSSHURLs| ==> translate(repoSSHURLs[i]) == Translated(repoHTTPSURLs[i])
  {
    var a := new string[|repoSSHURLs|](_ => "");
    for i := 0 to |repoSSHURLs|
      invariant forall k :: 0 <= k < i ==> translate(repoSSHURLs[k]) == Translated(a[k])
    {
      var url := translate(repoSSHURLs[i]);
      if url.IndexOutOfRange? {
        repoHTTPSURLs, panicAt := a[..], Some(i);
        return;
      }
      a[i] := url.url;
    }
    repoHTTPSURLs, panicAt := a[..], None;
  }

  /** The header pass of main(): translates every input in order, panicking at the
      first one without a ':'. */
  method MainHeaderPass(repoSSHURLs: seq<string>) returns (repoHTTPSURLs: seq<string>, panicAt: Option<nat>)
    ensures panicAt.None? <==> forall i :: 0 <= i < |repoSSHURLs| ==> ':' in repoSSHURLs[i]
    ensures panicAt.Some? ==>
              && panicAt.value < |repoSSHURLs| && ':' !in repoSSHURLs[panicAt.value]
              && forall i :: 0 <= i < panicAt.value ==> ':' in repoSSHURLs[i]
    ensures panicAt.None? ==>
              && |repoHTTPSURLs| == |repoSSHURLs|
              && forall i :: 0 <= i < |repoSSHURLs| ==>
                   RepoHTTPSURLFromSSHURL(repoSSHURLs[i]) == Translated(repoHTTPSURLs[i])
  {
    repoHTTPSURLs, panicAt := PanickingHeaderPass(RepoHTTPSURLFromSSHURL, repoSSHURLs);
  }

  /** Once the header pass is through, the tally is the number of successful clones. */
  lemma MainRunCounter(repoSSHURLs: seq<string>, outcomes: seq<CloneOutcome>, order: seq<nat>)
    requires |outcomes| == |repoSSHURLs| && IsArrivalOrder(order, |repoSSHURLs|)
    requires forall i :: 0 <= i < |repoSSHURLs| ==> ':' in repoSSHURLs[i]
    ensures InRange(order, |repoSSHURLs|)
    ensures Run(AsResult, repoSSHURLs, outcomes, order).1 == ClonedCount(outcomes)
  {
    RunCounterIndependentOfOrder(AsResult, repoSSHURLs, outcomes, order);
    SuccessCountIsClonedCount(repoSSHURLs, outcomes, |repoSSHURLs|);
    assert outcomes[..|repoSSHURLs|] == outcomes;
  }

  /** Once the header pass is through, the failure buffer is empty exactly when every
      clone succeeded. */
  lemma MainRunBuffer(repoSSHURLs: seq<string>, outcomes: seq<CloneOutcome>, order: seq<nat>)
    requires |outcomes| == |repoSSHURLs| && IsArrivalOrder(order, |repoSSHURLs|)
    requires forall i :: 0 <= i < |repoSSHURLs| ==> ':' in repoSSHURLs[i]
    ensures InRange(order, |repoSSHURLs|)
    ensures |FailureBuffer(Run(AsResult, repoSSHURLs, outcomes, order).0)| == 0
            <==> forall j :: 0 <= j < |outcomes| ==> outcomes[j].Cloned?
  {
    assert forall j :: 0 <= j < |repoSSHURLs| ==> AsResult(repoSSHURLs[j]).Ok?;
    RunBufferAllTranslate(AsResult, repoSSHURLs, outcomes, order);
  }

  /** What `cmd.CombinedOutput()` gives the prototype's worker. `cmd.Stdout` is set to
      os.Stdout just before, and os/exec then refuses to start git: it returns the error
      "exec: Stdout already set" and no output, so the worker's error is errors.New(""). */
  const StdoutAlreadySet: CloneOutcome := Failed("")

  /** The clone outcomes of main() as written: every clone ends that way. */
  function AsWrittenOutcomes(n: nat): (outcomes: seq<CloneOutcome>)
    ensures |outcomes| == n
    ensures forall j :: 0 <= j < n ==> outcomes[j].Failed? && outcomes[j].output == ""
  {
    seq(n, _ => StdoutAlreadySet)
  }

  /** Once the header pass is through, main() as written ends with the counter at 0 and
      every translated URL in the log, one per line, in arrival order. */
  lemma MainRunAllFail(repoSSHURLs: seq<string>, repoHTTPSURLs: seq<string>, order: seq<nat>)
    requires |repoHTTPSURLs| == |repoSSHURLs| && InRange(order, |repoSSHURLs|)
    requires forall i :: 0 <= i < |repoSSHURLs| ==>
               RepoHTTPSURLFromSSHURL(repoSSHURLs[i]) == Translated(repoHTTPSURLs[i])
    ensures Run(AsResult, repoSSHURLs, AsWrittenOutcomes(|repoSSHURLs|), order).1 == 0
    ensures FailureBuffer(Run(AsResult, repoSSHURLs, AsWrittenOutcomes(|repoSSHURLs|), order).0)
            == ArrivalLines(repoHTTPSURLs, order)
  {
    assert forall j :: 0 <= j < |repoSSHURLs| ==> AsResult(repoSSHURLs[j]) == Ok(repoHTTPSURLs[j]);
    RunAllFail(AsResult, repoSSHURLs, AsWrittenOutcomes(|repoSSHURLs|), order, repoHTTPSURLs);
  }

  /** main() as written, over the inputs `repoSSHURLs`, with the completion order of the
      workers given by `order`: it panics as RunMain does; otherwise no clone is ever
      counted, so it reports (0/n) and, for at least one input, lists every translated
      URL in arrival order. */
  method RunMainAsWritten(repoSSHURLs: seq<string>, order: seq<nat>)
    returns (repoHTTPSURLs: seq<string>, report: MainReport)
    requires IsArrivalOrder(order, |repoSSHURLs|)
    ensures report.Panicked? <==> exists i :: 0 <= i < |repoSSHURLs| && ':' !in repoSSHURLs[i]
    ensures report.Panicked? ==>
              && report.at < |repoSSHURLs| && ':' !in repoSSHURLs[report.at]
              && forall i :: 0 <= i < report.at ==> ':' in repoSSHURLs[i]
    ensures report.Report? ==>
              && |repoHTTPSURLs| == |repoSSHURLs| && InRange(order, |repoHTTPSURLs|)
              && (forall i :: 0 <= i < |repoSSHURLs| ==>
                    RepoHTTPSURLFromSSHURL(repoSSHURLs[i]) == Translated(repoHTTPSURLs[i]))
              && report.cloned == 0 && report.total == |repoSSHURLs|
              && (report.listing.NotCloned? <==> |repoSSHURLs| > 0)
              && (report.listing.NotCloned? ==> report.listing.buffer == ArrivalLines(repoHTTPSURLs, order))
              && report.listing == FailureListing(ArrivalLines(repoHTTPSURLs, order), |repoSSHURLs|)
  {
    var totalReposNum := |repoSSHURLs|;
    var panicAt;
    repoHTTPSURLs, panicAt := MainHeaderPass(repoSSHURLs);
    if panicAt.Some? {
      report := Panicked(panicAt.value);
      return;
    }
    ArrivalOrderCovers(order, totalReposNum);
    var responses, clonedReposNum := RunWorkers(AsResult, repoSSHURLs, AsWrittenOutcomes(totalReposNum), order);
    var buffer := Drain(responses);
    MainRunAllFail(repoSSHURLs, repoHTTPSURLs, order);
    report := Report(clonedReposNum, totalReposNum, FailureListing(buffer, totalReposNum));
  }

  /** The discrepancy: for any inputs that pass the header pass (the five hard-coded ones
      among them) and whose clones would all succeed, main() as written counts none of
      them, while the intended worker, which lets git run, counts all of them. */
  lemma StdoutSetDiscardsClones(repoSSHURLs: seq<string>, repoHTTPSURLs: seq<string>, order: seq<nat>)
    requires |repoHTTPSURLs| == |repoSSHURLs| && IsArrivalOrder(order, |repoSSHURLs|)
    requires forall i :: 0 <= i < |repoSSHURLs| ==>
               RepoHTTPSURLFromSSHURL(repoSSHURLs[i]) == Translated(repoHTTPSURLs[i])
    ensures InRange(order, |repoSSHURLs|)
    ensures Run(AsResult, repoSSHURLs, AsWrittenOutcomes(|repoSSHURLs|), order).1 == 0
    ensures Run(AsResult, repoSSHURLs, seq(|repoSSHURLs|, _ => Cloned), order).1 == |repoSSHURLs|
  {
    ArrivalOrderCovers(order, |repoSSHURLs|);
    MainRunAllFail(repoSSHURLs, repoHTTPSURLs, order);
    var allCloned: seq<CloneOutcome> := seq(|repoSSHURLs|, _ => Cloned);
    assert forall j :: 0 <= j < |repoSSHURLs| ==> AsResult(repoSSHURLs[j]).Ok? && allCloned[j].Cloned?;
    RunAllSucceed(AsResult, repoSSHURLs, allCloned, order);
  }

  /** main() as evidently intended, with git actually run: over the inputs `repoSSHURLs`,
      with the subprocess replaced by `outcomes` and the completion order of the workers
      given by `order`. */
  method RunMain(repoSSHURLs: seq<string>, outcomes: seq<CloneOutcome>, order: seq<nat>)
    returns (repoHTTPSURLs: seq<string>, report: MainReport)
    requires |outcomes| == |repoSSHURLs| && IsArrivalOrder(order, |repoSSHURLs|)
    ensures report.Panicked? <==> exists i :: 0 <= i < |repoSSHURLs| && ':' !in repoSSHURLs[i]
    ensures report.Panicked? ==>
              && report.at < |repoSSHURLs| && ':' !in repoSSHURLs[report.at]
              && forall i :: 0 <= i < report.at ==> ':' in repoSSHURLs[i]
    ensures report.Report? ==>
              && |repoHTTPSURLs| == |repoSSHURLs|
              && (forall i :: 0 <= i < |repoSSHURLs| ==>
                    RepoHTTPSURLFromSSHURL(repoSSHURLs[i]) == Translated(repoHTTPSURLs[i]))
              && report.cloned == ClonedCount(outcomes) && report.total == |repoSSHURLs|
              && (report.listing.AllSucceeded? <==> forall j :: 0 <= j < |outcomes| ==> outcomes[j].Cloned?)
              && InRange(order, |repoSSHURLs|)
              && report.listing == FailureListing(FailureBuffer(Run(AsResult, repoSSHURLs, outcomes, order).0), |repoSSHURLs|)
  {
    var totalReposNum := |repoSSHURLs|;
    var panicAt;
    repoHTTPSURLs, panicAt := MainHeaderPass(repoSSHURLs);
    if panicAt.Some? {
      report := Panicked(panicAt.value);
      return;
    }
    ArrivalOrderCovers(order, totalReposNum);
    var responses, clonedReposNum := RunWorkers(AsResult, repoSSHURLs, outcomes, order);
    var buffer := Drain(responses);
    MainRunCounter(repoSSHURLs, outcomes, order);
    MainRunBuffer(repoSSHURLs, outcomes, order);
    report := Report(clonedReposNum, totalReposNum, FailureListing(buffer, totalReposNum));
  }
}
