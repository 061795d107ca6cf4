# git-multi in Dafny

git-multi clones many GitHub repositories at once. Each input is an SSH remote such as
`git@github.com:owner/repo.git`. The tool prints the HTTPS URL of each input. It starts one
goroutine per input to run `git clone`. Every goroutine sends one response on a channel and
bumps a shared atomic counter when its clone succeeds. A single consumer drains the channel.
It prints a progress line for each success, collects the URLs of the failures in a buffer,
and ends with a summary chosen from the final counter.

This project models that core in three places:

- `pkg/multiclone/multiclone.go` is the package version. Its translator accepts
  `git@github.com:` + any text + `.git`. The text is meant to be owner/repo but is not
  checked. `MultiClone` runs the header pass, the workers, the drain and the chain of
  summary branches.
- `pkg/multiclone/printer.go` is the `MultiCloneHandler`. Its constructor keeps the
  translations of the valid inputs. It also has the counters, the buffer and
  `printFinalResult`.
- `main.go` is the earlier prototype. Its translator splits on `':'` and `'.'` without
  checking the shape of the URL. It panics on an input with no `':'`. `main()` runs the same
  fan-out/fan-in over a fixed list of five repositories. Its worker sets `cmd.Stdout` before
  calling `cmd.CombinedOutput()`, and os/exec then refuses to start git, so as written it
  clones nothing (see "## Findings").

How the model is organised:

- `results.dfy`: `Option` and `Result`.
- `strings.dfy`: the parts of Go's `strings` and `net/url` that the translators use.
- `pipeline.dfy`: the worker (`gitClone`) and the fan-out/fan-in. The translator is a
  parameter, because the package and the prototype share the same worker and drain.
- `multiclone.dfy`, `printer.dfy` and `prototype.dfy`: the three source files.

Concurrency and the subprocess become inputs:

- `outcomes[j]` is what `git clone` does for job `j`: `Cloned`, or `Failed(output)` with
  the combined output. In the prototype as written every outcome is `Failed("")`, because
  git is never started.
- `order` is the order in which the workers' responses reach the consumer. It is any
  permutation of the job indices (`IsArrivalOrder`).
- Workers run one after another in that order. In the model the counter a response carries
  is the count of successes up to and including it; in the source another worker may bump
  the counter between a worker's increment and its read, so only the bound stated by
  `RunResponses` carries over (see "## Left out").

Properties proved:

- The final counter is the number of jobs that translate and clone, whatever the arrival
  order.
- The failure buffer is empty exactly when no response carries an error.
- The "All" summary is printed exactly when every job succeeds.
- The tally and the failure list are printed exactly when there is at least one job and
  none succeeds. So once one clone succeeds, the collected failures are never printed, and
  the last "All %d repositories are successfully cloned" line of `MultiClone` cannot be
  reached.
- The prototype's translator accepts anything with a `':'`. It produces
  `github.com` with no scheme, followed by `/<name>` when `<name>` is non-empty, where
  `<name>` is the text after the first `':'` up to the next `':'` or `'.'`.
- The prototype's `main()` as written never counts a clone. With at least one input and no
  panic it reports (0/n) and lists every translated URL, one per line, in arrival order.
- `MultiCloneHandler.ClonedReposNum` returns the number of inputs, the same as
  `TotalReposNum`, whatever was cloned. It is modelled as written.

Behaviour worth noting:

- A job whose URL does not translate reports the empty string as its URL, not the input.
  So its line in the failure buffer is just `"\n"`.
- Only the host `github.com` is accepted, not any `git@<host>:`.
- With one success and one failure, the package prints "one repository has successfully
  cloned (1/2)" and no failure list.
- The prototype's `main()` panics on an input with no `':'`.

## Model

| member | source | states |
|---|---|---|
| Strings.TrimPrefix | pkg/multiclone/multiclone.go:36 | when `s` starts with the prefix, prefix + result is `s`; otherwise the result is `s` |
| Strings.TrimSuffix | pkg/multiclone/multiclone.go:37 | when `s` ends with the suffix, result + suffix is `s`; otherwise the result is `s` |
| Strings.IndexOf | main.go:18 | -1 exactly when the character is absent; otherwise that position holds it and no earlier one does |
| Strings.Split | main.go:18-19 | at least one piece; exactly one exactly when the separator is absent; no piece holds the separator; the first piece is the longest separator-free prefix |
| Strings.JoinSplit | main.go:18-19 | joining the pieces of a split with the separator gives the string back |
| Strings.SplitJoin | main.go:18-19 | splitting the join of one or more separator-free pieces gives the pieces back |
| Strings.JoinPath | pkg/multiclone/multiclone.go:38 | the result starts with the base; an empty element leaves the base alone; otherwise the element follows one "/" |
| MultiClone.IsSSHURL | pkg/multiclone/multiclone.go:27-29 | the input starts with `git@github.com:` and ends with `.git`; what that implies is stated by SSHURLBounds |
| MultiClone.SSHURLBounds | pkg/multiclone/multiclone.go:27-29 | an SSH URL has at least 19 characters, and trimming prefix and suffix leaves exactly the text between them (they cannot overlap) |
| MultiClone.RepoHTTPSURLFromSSHURL | pkg/multiclone/multiclone.go:31-43 | an error exactly when the input is not an SSH URL, with message "invalid SSH URL"; otherwise https://github.com joined with the owner/repo text between prefix and suffix |
| MultiClone.TranslateOwnerRepo | pkg/multiclone/multiclone.go:31-43 | every `git@github.com:` + x + `.git` is an SSH URL and translates to https://github.com joined with x |
| MultiClone.IsSSHURLExamples | pkg/multiclone/multiclone_test.go:10-44 | the four cases of TestIsSSHURL: the valid URL is accepted; wrong prefix, missing suffix and an unrelated string are rejected |
| MultiClone.TranslationExample | pkg/multiclone/multiclone_test.go:46-74 | git@github.com:username/repo.git translates to https://github.com/username/repo |
| MultiClone.InvalidTranslationExample | pkg/multiclone/multiclone_test.go:46-74 | "invalid-url" fails with the error "invalid SSH URL" |
| MultiClone.Summary | pkg/multiclone/multiclone.go:106-125 | "All" exactly when counter equals total; else "some" exactly when counter > 1; else "one" exactly when counter is 1; else the tally with the listing of the buffer |
| MultiClone.SummaryAfterDrain | pkg/multiclone/multiclone.go:96-125 | after the drain, "All" is printed exactly when every job translates and clones; the tally branch has counter 0 and total > 0 and always lists failures |
| MultiClone.FailuresListedOnlyWithoutSuccess | pkg/multiclone/multiclone.go:106-125 | the tally and failure list are printed exactly when there is a job and none succeeds; with one success and one failure the run ends on "some"/"one" |
| MultiClone.ReportIndependentOfOrder | pkg/multiclone/multiclone.go:77-125 | two arrival orders give the same counter and branch, and equal reports outside the failure-list branch |
| MultiClone.MultiClone | pkg/multiclone/multiclone.go:64-126 | the header slice holds each valid input's translation and "" elsewhere; the report is that of the drained run; its counter is the number of successful jobs; the tally branch always lists failures |
| Pipeline.CloneStep | pkg/multiclone/multiclone.go:45-62 | the response carries the display URL; no error exactly when the URL translates and the clone succeeds; the counter grows by one exactly then; a translation error gives ("", 0, that error); a failed clone carries its output |
| Pipeline.NoCloneOnInvalidURL | pkg/multiclone/multiclone.go:47-53 | a job whose URL does not translate never reaches the subprocess: its step is the same whatever the clone would have done |
| Pipeline.CloneRun.constructor | pkg/multiclone/multiclone.go:78-80 | the shared counter starts at 0 and nothing has been sent |
| Pipeline.CloneRun.GitClone | pkg/multiclone/multiclone.go:45-62 | appends exactly one response to what was sent and moves the shared counter as the step says |
| Pipeline.ArrivalOrderCovers | pkg/multiclone/multiclone.go:81-87 | an arrival order has one entry per job, all in range, and names every job |
| Pipeline.SuccessCountAppend | pkg/multiclone/multiclone.go:58 | the count of successes over two stretches of arrivals is the sum of their counts |
| Pipeline.SuccessCountPermutation | pkg/multiclone/multiclone.go:58 | the number of successful jobs is the same in every order they are counted in |
| Pipeline.SuccessCountFull | pkg/multiclone/multiclone.go:58 | the count reaches the number of jobs counted exactly when every one succeeds |
| Pipeline.SuccessCountZero | pkg/multiclone/multiclone.go:58 | the count is 0 exactly when none succeeds |
| Pipeline.Run | pkg/multiclone/multiclone.go:77-104 | one response per arrival; the final counter equals the number of error-free responses and the number of successful jobs |
| Pipeline.RunResponses | pkg/multiclone/multiclone.go:45-62 | response k comes from job order[k]: its URL, no error exactly when that job succeeds, and a counter reading between 0 and the final counter |
| Pipeline.RunCounterIndependentOfOrder | pkg/multiclone/multiclone.go:80-87 | the final counter does not depend on the arrival order |
| Pipeline.RunAllSucceed | pkg/multiclone/multiclone.go:107 | the final counter equals the number of jobs exactly when every job succeeds |
| Pipeline.ArrivalOrderAllSucceed | pkg/multiclone/multiclone.go:107 | over a full arrival order, the count reaches the number of jobs exactly when every job succeeds |
| Pipeline.RunNoneSucceed | pkg/multiclone/multiclone.go:111-119 | the final counter stays at 0 exactly when no job succeeds |
| Pipeline.FailureBuffer | pkg/multiclone/multiclone.go:96-104 | the log: `RepoURL + "\n"` for each errored response, in arrival order; its properties are stated by Drain, FailureBufferNonEmpty and RunAllFail |
| Pipeline.FailureBufferNonEmpty | pkg/multiclone/multiclone.go:96-104 | the buffer is non-empty exactly when fewer responses are error-free than were received |
| Pipeline.ErrorFreeAll | pkg/multiclone/multiclone.go:96-104 | every response is error-free exactly when the error-free count equals the number of responses |
| Pipeline.RunBufferNonEmpty | pkg/multiclone/multiclone.go:96-104 | after the drain the buffer is non-empty exactly when the counter is short of the number of jobs |
| Pipeline.RunBufferAllTranslate | main.go:97-114 | when every URL translates, the buffer ends empty exactly when every clone succeeds |
| Pipeline.ArrivalLines | main.go:97-105 | at least one character per arrival, so the lines of a non-empty arrival order are never empty |
| Pipeline.RunAllFail | main.go:43-51 | when every URL translates and every clone fails, the counter stays at 0 and the log is every translated URL plus newline, in arrival order |
| Pipeline.FailureListing | pkg/multiclone/printer.go:70-75 | the failure list exactly when the buffer is non-empty, carrying the buffer; otherwise the all-success line with the total |
| Pipeline.RunWorkers | pkg/multiclone/multiclone.go:77-94 | running the workers in arrival order on a fresh counter yields exactly the responses and counter of the run |
| Pipeline.HeaderPass | pkg/multiclone/multiclone.go:65-75 | one slot per input: the translation where it succeeds, "" (the zero value) where it does not |
| Pipeline.Drain | pkg/multiclone/multiclone.go:96-104 | the buffer is the URL plus newline of each errored response in arrival order; it is non-empty exactly when some response has an error |
| Printer.ValidTranslationsLength | pkg/multiclone/printer.go:33-47 | the filter never adds entries, and keeps all of them exactly when every input is an SSH URL |
| Printer.ValidTranslationsMembers | pkg/multiclone/printer.go:33-47 | a URL is kept exactly when it is the translation of some input |
| Printer.ValidTranslationsAreHeaderEntries | pkg/multiclone/printer.go:33-47 | the handler's list is MultiClone's header slice with its "" gaps removed |
| Printer.MultiCloneHandler.constructor | pkg/multiclone/printer.go:33-47 | keeps the inputs, the goroutine bound, the translations of the valid inputs in order, and an empty buffer |
| Printer.MultiCloneHandler.TotalReposNum | pkg/multiclone/printer.go:49-51 | the number of inputs, valid or not |
| Printer.MultiCloneHandler.ClonedReposNum | pkg/multiclone/printer.go:53-55 | the same number as TotalReposNum, whatever was cloned |
| Printer.MultiCloneHandler.Buffer | pkg/multiclone/printer.go:63-65 | the handler's own buffer |
| Printer.MultiCloneHandler.WriteBuffer | pkg/multiclone/printer.go:63-65 | a write through the returned pointer appends to the handler's buffer and changes nothing else |
| Printer.MultiCloneHandler.FinalResult | pkg/multiclone/printer.go:67-76 | the given counter over the number of inputs; the failure list exactly when the buffer is non-empty, else the all-success line with the total |
| Printer.FinalResultAfterDrain | pkg/multiclone/printer.go:67-76 | with the drained failure log in the buffer, the all-success line is printed exactly when every response was error-free |
| Prototype.RepoHTTPSURLFromSSHURL | main.go:17-25 | panics (index out of range) exactly when the input has no ':' |
| Prototype.TranslatedRepoName | main.go:17-25 | any input with a ':' translates to github.com joined with the longest text after the first ':' that has neither ':' nor '.' |
| Prototype.FirstPieces | main.go:18-19 | cutting at the first ':' and then at the first '.' leaves that longest ':'/'.'-free prefix |
| Prototype.IsRepoNameUnique | main.go:18-19 | that prefix is unique |
| Prototype.TranslatedShape | main.go:17-25 | head + ":" + name + tail translates to github.com joined with name (so plain github.com for an empty name) when the head has no ':', the name has no ':' or '.', and the tail is empty or starts with ':' or '.' |
| Prototype.TranslateGitHubSSHURL | main.go:17-25 | git@github.com:owner/repo followed by nothing or by text starting with '.' or ':' translates to "github.com/owner/repo", with no scheme |
| Prototype.MainReposTranslate | main.go:56-64 | every hard-coded input has a ':', so the header pass never panics on the fixed list |
| Prototype.AsResult | main.go:36-42 | the workers see a successful translation exactly when the input has a ':' |
| Prototype.SuccessCountIsClonedCount | main.go:45-49 | for the intended worker (git runs) and inputs that all have a ':', the successful jobs are exactly the successful clones |
| Prototype.PanickingHeaderPass | main.go:65-75 | stops at the first input whose translation panics and reports its index; otherwise fills every slot with its input's translation |
| Prototype.MainHeaderPass | main.go:65-75 | panics exactly when some input has no ':', at the first such input; otherwise every slot holds its input's translation |
| Prototype.MainRunCounter | main.go:77-108 | for the intended worker, once the header pass is through, the final counter is the number of successful clones |
| Prototype.MainRunBuffer | main.go:97-114 | for the intended worker, once the header pass is through, the buffer is empty exactly when every clone succeeded |
| Prototype.RunMain | main.go:33-115 | main() with git actually run: panics exactly when some input has no ':', at the first one; otherwise it reports the successful clones over the total, the all-success line exactly when every clone succeeded, and otherwise the failure list built from the drained responses of the run |
| Prototype.AsWrittenOutcomes | main.go:43-46 | one outcome per job, each a failure with empty output: what `CombinedOutput` yields once `Stdout` is set |
| Prototype.MainRunAllFail | main.go:43-51 | once the header pass is through, main() as written ends with the counter at 0 and every translated URL in the log, in arrival order |
| Prototype.RunMainAsWritten | main.go:33-115 | main() as written: panics exactly when some input has no ':', at the first one; otherwise it reports (0/n), lists every translated URL in arrival order when n > 0, and prints the all-success line, with total 0, only for no input |
| Prototype.StdoutSetDiscardsClones | main.go:43-49 | for inputs that pass the header pass and whose clones would all succeed, main() as written counts none of them while the intended worker counts all of them |

## Left out

- Goroutines, the `sync.WaitGroup`, the closing goroutine and the buffered channel: these are replaced by running the workers one after another in an arbitrary arrival order. Deadlock freedom and the `maxGoroutines` buffer size are not modelled.
- Pipeline.RunResponses: the per-response counter is modelled as the count of successes up to that arrival. In the source another worker's `atomic.AddInt32` can land between pkg/multiclone/multiclone.go:58 and the unsynchronised read at :60 (likewise main.go:48-50), so two successes may both report 2; only the bound 0 <= counter <= final counter is promised for the source.
- The `int32` counter and total and `atomic.AddInt32`: they are modelled as unbounded integers, and wrap-around past 2^31 - 1 inputs is not modelled.
- `exec.Command("git", "clone", …)`: it becomes the `outcomes` input. Its effect on the file system is not modelled. In the prototype as written git never starts, and the outcomes are fixed by `AsWrittenOutcomes`.
- `url.JoinPath`: path cleaning (`..`, `.`, repeated slashes), escaping and its error return are not modelled. The error branches at pkg/multiclone/multiclone.go:39-41 and main.go:21-23, and the `continue` at main.go:70-72, are unreachable for these bases in the model.
- Printing: the `==> Cloning` header, the per-URL `... ` lines, the progress lines, the separator and the exact wording of each summary are not modelled. They become the `FinalReport`, `MainReport` and `Listing` values, which carry the numbers and the buffer.
- `fmt.Fprintf(&buffer, RepoURL + "\n")` uses the URL as a format string. The treatment of a `%` in a URL is not modelled; the model appends the URL and a newline.
- Printer.MultiCloneHandler.Buffer: the returned `*bytes.Buffer` aliases the handler's field. The model exposes the contents and models writes through the pointer as the separate method `WriteBuffer`.
- `PrintRepoSSHURLs`, `Result`, `NewResult` and `PrintOnProgressResult` in pkg/multiclone/printer.go are printing only and are not modelled.
- The cobra command in cmd/ and the `maxgoroutine` flag are not modelled. The command calls `MultiClone` with two arguments while pkg/multiclone/multiclone.go declares it with one; the model follows the one-argument declaration.
- Panics: a Go panic ends the process. The model reports the panic as `Panicked(index)` and runs no workers. The panic inside a worker goroutine cannot happen, because the header pass has already translated every input.

## Findings

| source | as written | input that shows it | evidently intended | confidence | as-written member | corrected member |
|---|---|---|---|---|---|---|
| main.go:43-49 | `cmd.Stdout = os.Stdout` is set before `cmd.CombinedOutput()`. os/exec then returns the error "exec: Stdout already set" without starting git, so every translated job errors with message "" and the counter never moves | the five hard-coded repositories, all reachable: main() prints (0/5) and lists all five URLs as not cloned | run `git clone` for each job and count each success | high (documented os/exec behaviour); not executed | Prototype.RunMainAsWritten, Prototype.StdoutSetDiscardsClones | Prototype.RunMain |
