/** pkg/multiclone/printer.go: MultiCloneHandler, which keeps the translations of the
    valid inputs, the inputs themselves, the goroutine bound and a failure buffer. */
module Printer {
  import opened Results
  import opened Pipeline
  import opened MultiClone

  /** The translations of the inputs that are SSH URLs, in input order. */
  function ValidTranslations(repoSSHURLs: seq<string>): seq<string> {
    if repoSSHURLs == [] then []
    else
      var last := RepoHTTPSURLFromSSHURL(repoSSHURLs[|repoSSHURLs| - 1]);
      ValidTranslations(repoSSHURLs[..|repoSSHURLs| - 1]) + (if last.Ok? then [last.value] else [])
  }

  /** Filtering never adds entries, and drops none exactly when every input is valid. */
  lemma {:induction false} ValidTranslationsLength(repoSSHURLs: seq<string>)
    ensures |ValidTranslations(repoSSHURLs)| <= |repoSSHURLs|
    ensures |ValidTranslations(repoSSHURLs)| == |repoSSHURLs|
            <==> forall i :: 0 <= i < |repoSSHURLs| ==> IsSSHURL(repoSSHURLs[i])
  {
    if repoSSHURLs != [] {
      var init := repoSSHURLs[..|repoSSHURLs| - 1];
      ValidTranslationsLength(init);
      assert forall i :: 0 <= i < |init| ==> init[i] == repoSSHURLs[i];
    }
  }

  /** A URL is kept exactly when it is the translation of some input. */
  lemma {:induction false} ValidTranslationsMembers(repoSSHURLs: seq<string>, url: string)
    ensures url in ValidTranslations(repoSSHURLs)
            <==> exists i :: 0 <= i < |repoSSHURLs| && RepoHTTPSURLFromSSHURL(repoSSHURLs[i]) == Ok(url)
  {
    if repoSSHURLs != [] {
      var init := repoSSHURLs[..|repoSSHURLs| - 1];
      ValidTranslationsMembers(init, url);
      assert forall i :: 0 <= i < |init| ==> init[i] == repoSSHURLs[i];
      if exists i :: 0 <= i < |repoSSHURLs| && RepoHTTPSURLFromSSHURL(repoSSHURLs[i]) == Ok(url) {
        var i :| 0 <= i < |repoSSHURLs| && RepoHTTPSURLFromSSHURL(repoSSHURLs[i]) == Ok(url);
        if i < |init| {
          assert RepoHTTPSURLFromSSHURL(init[i]) == Ok(url);
        }
      }
    }
  }

  /** The slice with the "" entries removed. */
  function NonEmpty(urls: seq<string>): seq<string> {
    if urls == [] then []
    else NonEmpty(urls[..|urls| - 1]) + (if urls[|urls| - 1] != "" then [urls[|urls| - 1]] else [])
  }

  /** The handler keeps what MultiClone's header pass writes, without the gaps: a valid
      input never translates to "". */
  lemma {:induction false} ValidTranslationsAreHeaderEntries(repoSSHURLs: seq<string>, header: seq<string>)
    requires |header| == |repoSSHURLs|
    requires forall i :: 0 <= i < |repoSSHURLs| ==>
               header[i] == if IsSSHURL(repoSSHURLs[i]) then RepoHTTPSURLFromSSHURL(repoSSHURLs[i]).value else ""
    ensures ValidTranslations(repoSSHURLs) == NonEmpty(header)
  {
    if repoSSHURLs != [] {
      var n := |repoSSHURLs|;
      ValidTranslationsAreHeaderEntries(repoSSHURLs[..n - 1], header[..n - 1]);
      var last := RepoHTTPSURLFromSSHURL(repoSSHURLs[n - 1]);
      if last.Ok? {
        assert |last.value| >= |GitHubDomain|;
      }
    }
  }

  class MultiCloneHandler {
    var maxGoroutine: int
    var repoSSHURLs: seq<string>
    var repoHTTPSURLs: seq<string>
    var buffer: string

    /** NewMultiCloneHandler */
    constructor (repoSSHURLs: seq<string>, maxGoroutine: int)
      ensures this.maxGoroutine == maxGoroutine && this.repoSSHURLs == repoSSHURLs
      ensures this.repoHTTPSURLs == ValidTranslations(repoSSHURLs)
      ensures buffer == ""
    {
      var kept: seq<string> := [];
      for i := 0 to |repoSSHURLs|
        invariant kept == ValidTranslations(repoSSHURLs[..i])
      {
        assert repoSSHURLs[..i + 1][..i] == repoSSHURLs[..i];
        var url := RepoHTTPSURLFromSSHURL(repoSSHURLs[i]);
        if url.Err? {
          continue;
        }
        kept := kept + [url.value];
      }
      assert repoSSHURLs[..|repoSSHURLs|] == repoSSHURLs;
      this.maxGoroutine := maxGoroutine;
      this.repoSSHURLs := repoSSHURLs;
      this.repoHTTPSURLs := kept;
      this.buffer := "";
    }

    /** TotalReposNum: the number of inputs, valid or not. */
    function TotalReposNum(): (n: int)
      reads this
      ensures n == |repoSSHURLs|
    {
      |repoSSHURLs|
    }

    /** ClonedReposNum: also the number of inputs, whatever was cloned. */
    function ClonedReposNum(): (n: int)
      reads this
      ensures n == TotalReposNum()
    {
      |repoSSHURLs|
    }

    /** Buffer: what has been written to the handler's buffer so far. */
    function Buffer(): (b: string)
      reads this
      ensures b == buffer
    {
      buffer
    }

    /** A write through the pointer Buffer() returns. */
    method WriteBuffer(s: string)
      modifies this
      ensures buffer == old(buffer) + s
      ensures maxGoroutine == old(maxGoroutine) && repoSSHURLs == old(repoSSHURLs)
      ensures repoHTTPSURLs == old(repoHTTPSURLs)
    {
      buffer := buffer + s;
    }

    /** printFinalResult: the tally, then the failure list when the buffer is non-empty
        and the all-success line otherwise. */
    function FinalResult(clonedReposNum: int): (r: (int, int, Listing))
      reads this
      ensures r.0 == clonedReposNum && r.1 == |repoSSHURLs|
      ensures r.2.NotCloned? <==> |buffer| > 0
      ensures r.2.NotCloned? ==> r.2.buffer == buffer
      ensures r.2.AllSucceeded? ==> r.2.total == |repoSSHURLs|
    {
      var totalReposNum := TotalReposNum();
      (clonedReposNum, totalReposNum, FailureListing(buffer, totalReposNum))
    }
  }

  /** A handler whose buffer holds the drained failure log prints the all-success line
      exactly when every response was error-free. */
  lemma FinalResultAfterDrain(h: MultiCloneHandler, responses: seq<Response>, clonedReposNum: int)
    requires h.buffer == FailureBuffer(responses)
    ensures h.FinalResult(clonedReposNum).2.AllSucceeded?
            <==> forall k :: 0 <= k < |responses| ==> responses[k].error.None?
  {
    FailureBufferNonEmpty(responses);
    ErrorFreeAll(responses);
  }
}
