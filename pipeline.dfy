/** The sequential skeleton of the clone fan-out/fan-in shared by the package
    (pkg/multiclone/multiclone.go) and the prototype (main.go): one worker per job,
    each sending exactly one Response; a single consumer drains them in arrival order.
    The URL translator is a parameter, since the two programs use different ones. */
module Pipeline {
  import opened Results

  /** What `git clone <url>` did for one job: the oracle standing in for
      exec.Command("git", "clone", url).CombinedOutput(). */
  datatype CloneOutcome = Cloned | Failed(output: string)

  /** A message on the result channel: the display URL, the shared counter as read
      after the clone, and the error (`None` for nil). */
  datatype Response = Response(repoURL: string, clonedReposNum: int, error: Option<string>)

  /** The display URL of a job: its translation, or "" when translation fails. */
  function Display(translate: string -> Result<string>, repoSSHURL: string): string {
    match translate(repoSSHURL)
    case Ok(url) => url
    case Err(_) => ""
  }

  /** A job ends without error exactly when its URL translates and its clone succeeds. */
  predicate Succeeds(translate: string -> Result<string>, repoSSHURL: string, outcome: CloneOutcome) {
    translate(repoSSHURL).Ok? && outcome.Cloned?
  }

  /** gitClone: the Response a worker sends and the counter after it, given the counter
      before it. */
  function CloneStep(translate: string -> Result<string>, repoSSHURL: string,
                     outcome: CloneOutcome, counter: int): (step: (Response, int))
    ensures step.0.repoURL == Display(translate, repoSSHURL)
    ensures step.0.error.None? <==> Succeeds(translate, repoSSHURL, outcome)
    ensures step.1 == if Succeeds(translate, repoSSHURL, outcome) then counter + 1 else counter
    ensures translate(repoSSHURL).Err? ==>
              step.0 == Response("", 0, Some(translate(repoSSHURL).msg))
    ensures translate(repoSSHURL).Ok? && outcome.Failed? ==> step.0.error == Some(outcome.output)
    ensures step.0.error.None? ==> step.0.clonedReposNum == step.1
  {
    match translate(repoSSHURL)
    case Err(msg) => (Response("", 0, Some(msg)), counter)
    case Ok(url) =>
      if outcome.Failed? then (Response(url, counter, Some(outcome.output)), counter)
      else (Response(url, counter + 1, None), counter + 1)
  }

  /** A job whose URL does not translate never reaches the subprocess: its step is the
      same whatever the clone would have done. */
  lemma NoCloneOnInvalidURL(translate: string -> Result<string>, repoSSHURL: string,
                            o1: CloneOutcome, o2: CloneOutcome, counter: int)
    requires translate(repoSSHURL).Err?
    ensures CloneStep(translate, repoSSHURL, o1, counter) == CloneStep(translate, repoSSHURL, o2, counter)
  {
  }

  /** 0, 1, ..., n - 1: the jobs in submission order. */
  function Indices(n: nat): (r: seq<nat>)
    ensures |r| == n
    ensures forall i :: 0 <= i < n ==> r[i] == i
  {
    if n == 0 then [] else Indices(n - 1) + [n - 1]
  }

  /** The order in which the n workers finish (and send) is some permutation of the jobs. */
  predicate IsArrivalOrder(order: seq<nat>, n: nat) {
    multiset(order) == multiset(Indices(n))
  }

  predicate InRange(order: seq<nat>, n: nat) {
    forall k :: 0 <= k < |order| ==> order[k] < n
  }

  /** An arrival order names every job exactly once, so it has n entries, all below n,
      and every job is among them. */
  lemma ArrivalOrderCovers(order: seq<nat>, n: nat)
    requires IsArrivalOrder(order, n)
    ensures |order| == n && InRange(order, n)
    ensures forall j :: 0 <= j < n ==> j in order
  {
    assert |multiset(order)| == |multiset(Indices(n))|;
    forall k | 0 <= k < |order| ensures order[k] < n {
      assert order[k] in multiset(Indices(n));
    }
    forall j | 0 <= j < n ensures j in order {
      assert Indices(n)[j] == j;
      assert j in multiset(order);
    }
  }

  /** Whether job `j` ends without error. */
  predicate JobSucceeds(translate: string -> Result<string>, jobs: seq<string>,
                        outcomes: seq<CloneOutcome>, j: nat) {
    j < |jobs| && j < |outcomes| && Succeeds(translate, jobs[j], outcomes[j])
  }

  /** How many of the jobs named in `order` end without error. */
  function SuccessCount(translate: string -> Result<string>, jobs: seq<string>,
                        outcomes: seq<CloneOutcome>, order: seq<nat>): (n: nat)
    ensures n <= |order|
  {
    if order == [] then 0
    else
      SuccessCount(translate, jobs, outcomes, order[..|order| - 1])
      + (if JobSucceeds(translate, jobs, outcomes, order[|order| - 1]) then 1 else 0)
  }

  lemma {:induction false} SuccessCountAppend(translate: string -> Result<string>, jobs: seq<string>,
                                              outcomes: seq<CloneOutcome>, a: seq<nat>, b: seq<nat>)
    ensures SuccessCount(translate, jobs, outcomes, a + b)
            == SuccessCount(translate, jobs, outcomes, a) + SuccessCount(translate, jobs, outcomes, b)
    decreases |b|
  {
    if b != [] {
      var b' := b[..|b| - 1];
      assert (a + b)[..|a + b| - 1] == a + b';
      SuccessCountAppend(translate, jobs, outcomes, a, b');
    } else {
      assert a + b == a;
    }
  }

  /** Taking one job out of an order leaves the others' multiset. */
  lemma MultisetRemove(t: seq<nat>, i: nat)
    requires i < |t|
    ensures multiset(t[..i] + t[i + 1..]) == multiset(t) - multiset{t[i]}
  {
    assert t == t[..i] + [t[i]] + t[i + 1..];
  }

  /** Counting an order is counting it without its job at `i`, plus that one job. */
  lemma SuccessCountWithout(translate: string -> Result<string>, jobs: seq<string>,
                            outcomes: seq<CloneOutcome>, t: seq<nat>, i: nat)
    requires i < |t|
    ensures SuccessCount(translate, jobs, outcomes, t)
            == SuccessCount(translate, jobs, outcomes, t[..i] + t[i + 1..])
               + SuccessCount(translate, jobs, outcomes, [t[i]])
  {
    assert t == (t[..i] + [t[i]]) + t[i + 1..];
    SuccessCountAppend(translate, jobs, outcomes, t[..i] + [t[i]], t[i + 1..]);
    SuccessCountAppend(translate, jobs, outcomes, t[..i], [t[i]]);
    SuccessCountAppend(translate, jobs, outcomes, t[..i], t[i + 1..]);
  }

  /** The number of successful jobs does not depend on the order the jobs are counted in. */
  lemma {:induction false} SuccessCountPermutation(translate: string -> Result<string>, jobs: seq<string>,
                                                   outcomes: seq<CloneOutcome>, s: seq<nat>, t: seq<nat>)
    requires multiset(s) == multiset(t)
    ensures SuccessCount(translate, jobs, outcomes, s) == SuccessCount(translate, jobs, outcomes, t)
    decreases |s|
  {
    if s == [] {
      assert |t| == |multiset(t)| == 0;
    } else {
      var x := s[|s| - 1];
      var s' := s[..|s| - 1];
      assert s == s' + [x];
      assert x in multiset(t);
      var i :| 0 <= i < |t| && t[i] == x;
      MultisetRemove(t, i);
      MultisetRemove(s, |s| - 1);
      SuccessCountPermutation(translate, jobs, outcomes, s', t[..i] + t[i + 1..]);
      SuccessCountWithout(translate, jobs, outcomes, t, i);
      SuccessCountAppend(translate, jobs, outcomes, s', [x]);
    }
  }

  /** Every job in `order` succeeds exactly when the count reaches the length of `order`. */
  lemma {:induction false} SuccessCountFull(translate: string -> Result<string>, jobs: seq<string>,
                                            outcomes: seq<CloneOutcome>, order: seq<nat>)
    ensures SuccessCount(translate, jobs, outcomes, order) == |order|
            <==> forall k :: 0 <= k < |order| ==> JobSucceeds(translate, jobs, outcomes, order[k])
  {
    if order != [] {
      var o' := order[..|order| - 1];
      SuccessCountFull(translate, jobs, outcomes, o');
      assert forall k :: 0 <= k < |o'| ==> o'[k] == order[k];
    }
  }

  /** No job in `order` succeeds exactly when the count is 0. */
  lemma {:induction false} SuccessCountZero(translate: string -> Result<string>, jobs: seq<string>,
                                            outcomes: seq<CloneOutcome>, order: seq<nat>)
    ensures SuccessCount(translate, jobs, outcomes, order) == 0
            <==> forall k :: 0 <= k < |order| ==> !JobSucceeds(translate, jobs, outcomes, order[k])
  {
    if order != [] {
      var o' := order[..|order| - 1];
      SuccessCountZero(translate, jobs, outcomes, o');
      assert forall k :: 0 <= k < |o'| ==> o'[k] == order[k];
    }
  }

  /** How many responses carry no error. */
  function ErrorFree(responses: seq<Response>): (n: nat)
    ensures n <= |responses|
  {
    if responses == [] then 0
    else ErrorFree(responses[..|responses| - 1]) + (if responses[|responses| - 1].error.None? then 1 else 0)
  }

  /** The workers of the jobs in `order` run one after another in that order, sharing one
      counter that starts at 0: the responses in arrival order and the final counter. */
  function Run(translate: string -> Result<string>, jobs: seq<string>,
               outcomes: seq<CloneOutcome>, order: seq<nat>): (run: (seq<Response>, int))
    requires |outcomes| == |jobs| && InRange(order, |jobs|)
    ensures |run.0| == |order|
    ensures run.1 == ErrorFree(run.0) == SuccessCount(translate, jobs, outcomes, order)
  {
    if order == [] then ([], 0)
    else
      var prev := Run(translate, jobs, outcomes, order[..|order| - 1]);
      var j := order[|order| - 1];
      var step := CloneStep(translate, jobs[j], outcomes[j], prev.1);
      var responses := prev.0 + [step.0];
      assert responses[..|responses| - 1] == prev.0;
      (responses, step.1)
  }

  /** Response k of a run is the one from the worker of job order[k]: it carries that
      job's display URL, no error exactly when that job succeeds, and a counter reading
      no greater than the final counter. */
  lemma {:induction false} RunResponses(translate: string -> Result<string>, jobs: seq<string>,
                                        outcomes: seq<CloneOutcome>, order: seq<nat>)
    requires |outcomes| == |jobs| && InRange(order, |jobs|)
    ensures forall k :: 0 <= k < |order| ==>
              && Run(translate, jobs, outcomes, order).0[k].repoURL == Display(translate, jobs[order[k]])
              && (Run(translate, jobs, outcomes, order).0[k].error.None?
                  <==> Succeeds(translate, jobs[order[k]], outcomes[order[k]]))
              && 0 <= Run(translate, jobs, outcomes, order).0[k].clonedReposNum
                   <= Run(translate, jobs, outcomes, order).1
  {
    if order != [] {
      var n := |order| - 1;
      var o' := order[..n];
      RunResponses(translate, jobs, outcomes, o');
      var prev := Run(translate, jobs, outcomes, o');
      var run := Run(translate, jobs, outcomes, order);
      var j := order[n];
      var step := CloneStep(translate, jobs[j], outcomes[j], prev.1);
      assert run == (prev.0 + [step.0], step.1);
      forall k | 0 <= k < |order|
        ensures && run.0[k].repoURL == Display(translate, jobs[order[k]])
                && (run.0[k].error.None? <==> Succeeds(translate, jobs[order[k]], outcomes[order[k]]))
                && 0 <= run.0[k].clonedReposNum <= run.1
      {
        if k < n {
          assert o'[k] == order[k] && run.0[k] == prev.0[k];
        } else {
          assert run.0[k] == step.0;
        }
      }
    }
  }

  /** The deferred-error log: `RepoURL + "\n"` for every errored response, in arrival order. */
  function FailureBuffer(responses: seq<Response>): string {
    if responses == [] then ""
    else
      var last := responses[|responses| - 1];
      FailureBuffer(responses[..|responses| - 1]) + (if last.error.Some? then last.repoURL + "\n" else "")
  }

  /** The log is non-empty exactly when some response carries an error. */
  lemma {:induction false} FailureBufferNonEmpty(responses: seq<Response>)
    ensures |FailureBuffer(responses)| > 0 <==> ErrorFree(responses) < |responses|
  {
    if responses != [] {
      FailureBufferNonEmpty(responses[..|responses| - 1]);
    }
  }

  /** Whatever the arrival order, the final counter is the number of jobs that
      succeed, counted in submission order. */
  lemma RunCounterIndependentOfOrder(translate: string -> Result<string>, jobs: seq<string>,
                                     outcomes: seq<CloneOutcome>, order: seq<nat>)
    requires |outcomes| == |jobs| && IsArrivalOrder(order, |jobs|)
    ensures InRange(order, |jobs|)
    ensures Run(translate, jobs, outcomes, order).1 == SuccessCount(translate, jobs, outcomes, Indices(|jobs|))
  {
    ArrivalOrderCovers(order, |jobs|);
    SuccessCountPermutation(translate, jobs, outcomes, order, Indices(|jobs|));
  }

  /** The final counter stays at 0 exactly when no job succeeds. */
  lemma RunNoneSucceed(translate: string -> Result<string>, jobs: seq<string>,
                       outcomes: seq<CloneOutcome>, order: seq<nat>)
    requires |outcomes| == |jobs| && IsArrivalOrder(order, |jobs|)
    ensures InRange(order, |jobs|)
    ensures Run(translate, jobs, outcomes, order).1 == 0
            <==> forall j :: 0 <= j < |jobs| ==> !Succeeds(translate, jobs[j], outcomes[j])
  {
    var n := |jobs|;
    RunCounterIndependentOfOrder(translate, jobs, outcomes, order);
    SuccessCountZero(translate, jobs, outcomes, Indices(n));
    assert forall k :: 0 <= k < n ==>
             (JobSucceeds(translate, jobs, outcomes, Indices(n)[k]) <==> Succeeds(translate, jobs[k], outcomes[k]));
  }

  /** The final counter reaches the number of jobs exactly when every job succeeds. */
  lemma RunAllSucceed(translate: string -> Result<string>, jobs: seq<string>,
                      outcomes: seq<CloneOutcome>, order: seq<nat>)
    requires |outcomes| == |jobs| && IsArrivalOrder(order, |jobs|)
    ensures InRange(order, |jobs|)
    ensures Run(translate, jobs, outcomes, order).1 == |jobs|
            <==> forall j :: 0 <= j < |jobs| ==> Succeeds(translate, jobs[j], outcomes[j])
  {
    ArrivalOrderCovers(order, |jobs|);
    ArrivalOrderAllSucceed(translate, jobs, outcomes, order);
  }

  lemma ArrivalOrderAllSucceed(translate: string -> Result<string>, jobs: seq<string>,
                               outcomes: seq<CloneOutcome>, order: seq<nat>)
    requires |outcomes| == |jobs| && |order| == |jobs| && InRange(order, |jobs|)
    requires forall j :: 0 <= j < |jobs| ==> j in order
    ensures SuccessCount(translate, jobs, outcomes, order) == |jobs|
            <==> forall j :: 0 <= j < |jobs| ==> Succeeds(translate, jobs[j], outcomes[j])
  {
    SuccessCountFull(translate, jobs, outcomes, order);
    if forall j :: 0 <= j < |jobs| ==> Succeeds(translate, jobs[j], outcomes[j]) {
      forall k | 0 <= k < |order| ensures JobSucceeds(translate, jobs, outcomes, order[k]) {
        var j := order[k];
        assert j < |jobs|;
      }
    }
    if SuccessCount(translate, jobs, outcomes, order) == |jobs| {
      forall j | 0 <= j < |jobs| ensures Succeeds(translate, jobs[j], outcomes[j]) {
        assert j in order;
        var k :| 0 <= k < |order| && order[k] == j;
        assert JobSucceeds(translate, jobs, outcomes, order[k]);
      }
    }
  }

  /** After the drain the log is non-empty exactly when the counter is short of the
      number of jobs; in particular it is non-empty when no job succeeded and there
      was at least one. */
  lemma RunBufferNonEmpty(translate: string -> Result<string>, jobs: seq<string>,
                          outcomes: seq<CloneOutcome>, order: seq<nat>)
    requires |outcomes| == |jobs| && IsArrivalOrder(order, |jobs|)
    ensures InRange(order, |jobs|)
    ensures |FailureBuffer(Run(translate, jobs, outcomes, order).0)| > 0
            <==> Run(translate, jobs, outcomes, order).1 < |jobs|
  {
    ArrivalOrderCovers(order, |jobs|);
    FailureBufferNonEmpty(Run(translate, jobs, outcomes, order).0);
  }

  /** When every URL translates, the log ends up empty exactly when every clone succeeds. */
  lemma RunBufferAllTranslate(translate: string -> Result<string>, jobs: seq<string>,
                              outcomes: seq<CloneOutcome>, order: seq<nat>)
    requires |outcomes| == |jobs| && IsArrivalOrder(order, |jobs|)
    requires forall j :: 0 <= j < |jobs| ==> translate(jobs[j]).Ok?
    ensures InRange(order, |jobs|)
    ensures |FailureBuffer(Run(translate, jobs, outcomes, order).0)| == 0
            <==> forall j :: 0 <= j < |outcomes| ==> outcomes[j].Cloned?
  {
    ArrivalOrderCovers(order, |jobs|);
    RunAllSucceed(translate, jobs, outcomes, order);
    RunBufferNonEmpty(translate, jobs, outcomes, order);
    var run := Run(translate, jobs, outcomes, order);
    assert run.1 <= |jobs|;
    assert forall j :: 0 <= j < |jobs| ==>
             (Succeeds(translate, jobs[j], outcomes[j]) <==> outcomes[j].Cloned?);
  }

  /** The lines `urls[j] + "\n"` for the jobs j of `order`, in that order. */
  function ArrivalLines(urls: seq<string>, order: seq<nat>): (lines: string)
    requires InRange(order, |urls|)
    ensures |lines| >= |order|
  {
    if order == [] then ""
    else ArrivalLines(urls, order[..|order| - 1]) + urls[order[|order| - 1]] + "\n"
  }

  /** When every URL translates (job j to urls[j]) and every clone fails, the counter
      stays at 0 and the log holds every translated URL, one per line, in arrival order. */
  lemma {:induction false} RunAllFail(translate: string -> Result<string>, jobs: seq<string>,
                                      outcomes: seq<CloneOutcome>, order: seq<nat>, urls: seq<string>)
    requires |outcomes| == |jobs| && |urls| == |jobs| && InRange(order, |jobs|)
    requires forall j :: 0 <= j < |jobs| ==> translate(jobs[j]) == Ok(urls[j]) && outcomes[j].Failed?
    ensures Run(translate, jobs, outcomes, order).1 == 0
    ensures FailureBuffer(Run(translate, jobs, outcomes, order).0) == ArrivalLines(urls, order)
  {
    if order != [] {
      var n := |order| - 1;
      var o' := order[..n];
      RunAllFail(translate, jobs, outcomes, o', urls);
      var prev := Run(translate, jobs, outcomes, o');
      var j := order[n];
      var step := CloneStep(translate, jobs[j], outcomes[j], prev.1);
      var responses := prev.0 + [step.0];
      assert Run(translate, jobs, outcomes, order) == (responses, step.1);
      assert responses[..|responses| - 1] == prev.0;
      assert step.0.error.Some? && step.0.repoURL == urls[j];
    }
  }

  /** What the final report says after the tally line: the failed URLs when the log is
      non-empty, else the "All n repositories are successfully cloned" line. */
  datatype Listing = NotCloned(buffer: string) | AllSucceeded(total: int)

  function FailureListing(buffer: string, total: int): (l: Listing)
    ensures l.NotCloned? <==> |buffer| > 0
    ensures l.NotCloned? ==> l.buffer == buffer
    ensures l.AllSucceeded? ==> l.total == total
  {
    if |buffer| > 0 then NotCloned(buffer) else AllSucceeded(total)
  }

  /** The workers' shared state: the success counter they increment and the channel
      they send on (what has been sent, in arrival order). */
  class CloneRun {
    var clonedReposNum: int
    var sent: seq<Response>

    constructor ()
      ensures clonedReposNum == 0 && sent == []
    {
      clonedReposNum := 0;
      sent := [];
    }

    /** gitClone: translate, clone unless translation failed, bump the counter on
        success, and send exactly one response. */
    method GitClone(translate: string -> Result<string>, repoSSHURL: string, outcome: CloneOutcome)
      modifies this
      ensures sent == old(sent) + [CloneStep(translate, repoSSHURL, outcome, old(clonedReposNum)).0]
      ensures clonedReposNum == CloneStep(translate, repoSSHURL, outcome, old(clonedReposNum)).1
    {
      var res := Response("", 0, None);
      var translated := translate(repoSSHURL);
      res := res.(repoURL := if translated.Ok? then translated.value else "");
      if translated.Err? {
        res := res.(error := Some(translated.msg));
        sent := sent + [res];
        return;
      }
      if outcome.Failed? {
        res := res.(error := Some(outcome.output));
      } else {
        clonedReposNum := clonedReposNum + 1;
      }
      res := res.(clonedReposNum := clonedReposNum);
      sent := sent + [res];
    }
  }

  /** Runs the workers in arrival order `order` against a fresh shared state. */
  method RunWorkers(translate: string -> Result<string>, jobs: seq<string>,
                    outcomes: seq<CloneOutcome>, order: seq<nat>)
    returns (responses: seq<Response>, clonedReposNum: int)
    requires |outcomes| == |jobs| && InRange(order, |jobs|)
    ensures (responses, clonedReposNum) == Run(translate, jobs, outcomes, order)
  {
    var run := new CloneRun();
    for k := 0 to |order|
      invariant (run.sent, run.clonedReposNum) == Run(translate, jobs, outcomes, order[..k])
    {
      assert order[..k + 1][..k] == order[..k];
      run.GitClone(translate, jobs[order[k]], outcomes[order[k]]);
    }
    assert order[..|order|] == order;
    responses, clonedReposNum := run.sent, run.clonedReposNum;
  }

  /** The index-aligned header pass: entry i is the translation of job i, or "" (the
      slice's zero value) when it does not translate. */
  method HeaderPass(translate: string -> Result<string>, repoSSHURLs: seq<string>)
    returns (repoHTTPSURLs: seq<string>)
    ensures |repoHTTPSURLs| == |repoSSHURLs|
    ensures forall i :: 0 <= i < |repoSSHURLs| ==>
              repoHTTPSURLs[i] == if translate(repoSSHURLs[i]).Ok? then translate(repoSSHURLs[i]).value else ""
  {
    var a := new string[|repoSSHURLs|](_ => "");
    for i := 0 to |repoSSHURLs|
      invariant forall k :: 0 <= k < i ==>
                  a[k] == if translate(repoSSHURLs[k]).Ok? then translate(repoSSHURLs[k]).value else ""
      invariant forall k :: i <= k < a.Length ==> a[k] == ""
    {
      var url := translate(repoSSHURLs[i]);
      if url.Err? {
        continue;
      }
      a[i] := url.value;
    }
    repoHTTPSURLs := a[..];
  }

  /** The consumer's loop: appends `RepoURL + "\n"` to the log for each errored response. */
  method Drain(responses: seq<Response>) returns (buffer: string)
    ensures buffer == FailureBuffer(responses)
    ensures |buffer| > 0 <==> exists k :: 0 <= k < |responses| && responses[k].error.Some?
  {
    buffer := "";
    for k := 0 to |responses|
      invariant buffer == FailureBuffer(responses[..k])
    {
      assert responses[..k + 1][..k] == responses[..k];
      var res := responses[k];
      if res.error.Some? {
        buffer := buffer + res.repoURL + "\n";
      }
    }
    assert responses[..|responses|] == responses;
    FailureBufferNonEmpty(responses);
    ErrorFreeAll(responses);
  }

  lemma {:induction false} ErrorFreeAll(responses: seq<Response>)
    ensures ErrorFree(responses) == |responses|
            <==> forall k :: 0 <= k < |responses| ==> responses[k].error.None?
  {
    if responses != [] {
      var r' := responses[..|responses| - 1];
      ErrorFreeAll(r');
      assert forall k :: 0 <= k < |r'| ==> r'[k] == responses[k];
    }
  }
}
