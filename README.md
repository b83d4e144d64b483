# PR review helpers — a verified model of their decision cores

This project models, in Dafny, the deterministic parts of two command-line
helpers that work on GitHub pull requests:

- **PR feedback audit** (`check_pr_feedback.py`, module `PrFeedback`).
  It parses the hunk headers of a `git diff` and tests whether a review
  comment's line falls inside a changed old-side hunk. It classifies review
  threads as Resolved, Outdated, Addressed or Unresolved, by priority. It can
  auto-resolve Addressed threads. It also counts, filters and orders the
  threads for the markdown report, and parses the `--pr` argument.
- **Review dashboard** (`review_dashboard.py`, module `ReviewDashboard`).
  It merges the results of three PR searches into one entry per PR number,
  marking PRs seen under two interaction kinds as `both`. It drops the user's
  own PRs and sorts the rest by number. It also formats an action draft,
  builds the `gh pr review` argument list, picks the PR target of the `act`
  command, and parses the `origin` remote into `owner/repo`.

The shared string helpers (Python's `str.strip`, `truncate`, digit strings,
`"\n".join`) are in module `Text`. The GitHub PR-URL regular expression used by
both scripts is in module `GitHub`. `Option` and `Result` are in `Wrappers`.

Every subprocess call is an input value:

- `git diff <commit> HEAD -- <path>` is `GitOracle.diff(commit, path)`.
- `git cat-file -t HEAD:<path>` is `GitOracle.catFile(path)`.
  For these `git` calls, `None` stands for a non-zero exit, which the scripts handle.
- The resolve mutation's outcome is `resolve(threadId)`: the `isResolved` answer
  (false for any error `resolve_thread` catches), or `GhFailed` when `gh` exits
  non-zero. `run_gh` then calls `sys.exit(1)`, which `except Exception` does not
  catch, so the auto-resolve loop stops at that thread.
- `gh pr list --search <term>` is `gh(term)`, the already-decoded list of hits.
  `None` is a non-zero exit of `gh`, which ends `find_user_prs` with the fatal exit.
- The exit code of `gh pr review …` is `exitCode(args)`. That call does not go
  through `run_gh`, so a non-zero code is a `False` result, not an exit.
- The `origin` remote URL is an `Option<string>`.

The places where the source mutates state keep that form:

- `classify_threads` and the auto-resolve loop update an `array<ReviewThread>` in place.
- `parse_diff_hunks`, the merge loops of `find_user_prs`, `format_action_draft`,
  `execute_action` and `format_markdown` are methods with loops or appends.
- Each of these methods is proved equal to a specification function, and the
  properties are proved about those functions.

The hunk-header pattern `^@@ -(\d+)(?:,(\d+))? \+` under `re.MULTILINE` is
modelled by position: `Hunks(diff)` collects the header found at each line
start, in order. The overlap test is `start <= line <= start + count`. Its
upper bound is inclusive, exactly as in the code.

## Model

| member | source | states |
|---|---|---|
| `Text.Strip` | skills/tools/pr-feedback-audit/scripts/check_pr_feedback.py:335 | `str.strip()`: the result is a contiguous slice of the input with non-whitespace ends, and everything removed on either side is Python whitespace |
| `Text.StripUnchanged` | skills/development/review-dashboard/scripts/review_dashboard.py:112 | text without surrounding whitespace is returned unchanged by strip |
| `Text.ReplaceNewlines` | skills/tools/pr-feedback-audit/scripts/check_pr_feedback.py:335 | `replace("\n", " ")`: the length is kept, every newline becomes a space and every other character stays in place, so no newline is left |
| `Text.PyPrefix` | skills/tools/pr-feedback-audit/scripts/check_pr_feedback.py:338 | the slice `text[:k]`: for `0 <= k <= len` exactly the first `k` characters |
| `Text.Truncate` | skills/tools/pr-feedback-audit/scripts/check_pr_feedback.py:333-338 | no newline in the result; a cleaned text that fits is returned as is; for `max_len >= 3` the result never exceeds `max_len`, and a longer text becomes exactly `max_len` characters ending in `...` that agree with the cleaned text's prefix |
| `Text.TruncateIdempotent` | skills/development/review-dashboard/scripts/review_dashboard.py:111-113 | truncating an already truncated text changes nothing |
| `Text.NatToString` | skills/development/review-dashboard/scripts/review_dashboard.py:173 | `str(n)` of a PR number is a non-empty string of ASCII digits without leading zeros: it starts with `0` exactly for `0`, which is written as the single digit |
| `Text.DigitsRoundTrip` | skills/tools/pr-feedback-audit/scripts/check_pr_feedback.py:166-167 | `int(str(n)) == n` for every natural number |
| `Text.IsDigitString` | skills/tools/pr-feedback-audit/scripts/check_pr_feedback.py:166 | `str.isdigit()` over ASCII digits: a non-empty string of `0`–`9` |
| `Text.DigitsValue` | skills/tools/pr-feedback-audit/scripts/check_pr_feedback.py:167 | `int(s)` of a digit string; characterised by `DigitsRoundTrip` |
| `Text.NatToStringInjective` | skills/development/review-dashboard/scripts/review_dashboard.py:173 | different PR numbers give different argument strings |
| `Text.DigitRunEnd` | skills/tools/pr-feedback-audit/scripts/check_pr_feedback.py:245 | the greedy `\d+` run: every character in it is a digit and the one after it is not |
| `Text.DigitRunOf` | skills/tools/pr-feedback-audit/scripts/check_pr_feedback.py:245 | a digit string followed by a non-digit is exactly the greedy run |
| `Text.JoinContains` | skills/development/review-dashboard/scripts/review_dashboard.py:169 | every line passed to `"\n".join` occurs in the joined text |
| `GitHub.NonSlashRunEnd` | skills/tools/pr-feedback-audit/scripts/check_pr_feedback.py:162 | the greedy `[^/]+` run stops exactly at the next slash or at the end |
| `GitHub.NonSlashRunOf` | skills/tools/pr-feedback-audit/scripts/check_pr_feedback.py:162 | a slash-free word followed by a slash or the end is exactly that run |
| `GitHub.OwnerRepoEndOf` | skills/tools/pr-feedback-audit/scripts/check_pr_feedback.py:162 | `([^/]+/[^/]+)` captures `owner/repo` when both parts are non-empty and slash-free |
| `GitHub.PullNumberOf` | skills/tools/pr-feedback-audit/scripts/check_pr_feedback.py:162 | `/pull/(\d+)` reads the full digit run after `/pull/` as the number |
| `GitHub.MatchPrUrl` | skills/tools/pr-feedback-audit/scripts/check_pr_feedback.py:162 | the `re.match` of the PR-URL pattern, also used at review_dashboard.py line 202: the `owner/repo` group and the number, or no match; characterised by `MatchPrUrlShape` and `PrUrlRoundTrip` |
| `GitHub.MatchPrUrlShape` | skills/tools/pr-feedback-audit/scripts/check_pr_feedback.py:162 | any match starts with `https://github.com/`, the captured group and `/pull/`, and the group has a slash inside it |
| `GitHub.PrUrlRoundTrip` | skills/tools/pr-feedback-audit/scripts/check_pr_feedback.py:162-164 | a URL built from owner, repo and number, followed by anything that does not start with a digit, matches and gives back `(owner/repo, number)` |
| `PrFeedback.ParseDiffHunks` | skills/tools/pr-feedback-audit/scripts/check_pr_feedback.py:242-249 | the appending loop returns exactly the headers found at the line starts of the diff, in order |
| `PrFeedback.CountAndPlus` | skills/tools/pr-feedback-audit/scripts/check_pr_feedback.py:245-247 | the optional `,count` group and the ` +` after the start digits: the count, 1 when the group is absent, or no match |
| `PrFeedback.HeaderOf` | skills/tools/pr-feedback-audit/scripts/check_pr_feedback.py:245-248 | the header found at the start of one line; a header is only ever found on a line starting with `@@ -` |
| `PrFeedback.Hunks` | skills/tools/pr-feedback-audit/scripts/check_pr_feedback.py:244-249 | the specification of the parser: the header at each line start (`^` under `re.MULTILINE`), in order; characterised line by line by `HunksOfLines` |
| `PrFeedback.HeaderOfParts` | skills/tools/pr-feedback-audit/scripts/check_pr_feedback.py:245-246 | after `@@ -` the start is the whole digit run, and the header stands or falls with what follows it |
| `PrFeedback.CountOfParts` | skills/tools/pr-feedback-audit/scripts/check_pr_feedback.py:245-247 | `,<digits> +` after the start gives that count |
| `PrFeedback.HeaderRoundTrip` | skills/tools/pr-feedback-audit/scripts/check_pr_feedback.py:245-248 | the header `@@ -start,count +…` is parsed back to `(start, count)` |
| `PrFeedback.HeaderWithoutCount` | skills/tools/pr-feedback-audit/scripts/check_pr_feedback.py:247 | a header without `,count` has count 1 |
| `PrFeedback.NoHeaderNoHunk` | skills/tools/pr-feedback-audit/scripts/check_pr_feedback.py:245 | a line that does not start with `@@ -` yields no hunk |
| `PrFeedback.EmptyDiffNoHunks` | skills/tools/pr-feedback-audit/scripts/check_pr_feedback.py:244-249 | the empty diff yields `[]` |
| `PrFeedback.HeaderBeforeNewline` | skills/tools/pr-feedback-audit/scripts/check_pr_feedback.py:245 | a header match never looks past the end of its line |
| `PrFeedback.HunksConcat` | skills/tools/pr-feedback-audit/scripts/check_pr_feedback.py:245-249 | the hunks of two diff parts joined by a newline are those of the first part, then those of the second |
| `PrFeedback.HunksOfLine` | skills/tools/pr-feedback-audit/scripts/check_pr_feedback.py:245 | a single line yields at most its own header |
| `PrFeedback.HunksOfLines` | skills/tools/pr-feedback-audit/scripts/check_pr_feedback.py:244-249 | the diff made of given lines yields one hunk per header line, in the order of the lines |
| `PrFeedback.FirstOverlap` | skills/tools/pr-feedback-audit/scripts/check_pr_feedback.py:272-274 | the index found overlaps the line and no earlier hunk does; no index means no hunk overlaps |
| `PrFeedback.Overlaps` | skills/tools/pr-feedback-audit/scripts/check_pr_feedback.py:273 | the inclusive test `start <= original_line <= start + count` |
| `PrFeedback.DiffOverlap` | skills/tools/pr-feedback-audit/scripts/check_pr_feedback.py:252-276 | the specification of `check_diff_overlap`, branch by branch: no commit, failed diff with or without the file, blank diff, then the first overlapping hunk; characterised by `DiffOverlapOutcomes` and `OverlapIffSomeHunk` |
| `PrFeedback.CheckDiffOverlap` | skills/tools/pr-feedback-audit/scripts/check_pr_feedback.py:252-276 | the loop over the hunks returns the outcome and evidence of the specification `DiffOverlap` |
| `PrFeedback.DiffOverlapOutcomes` | skills/tools/pr-feedback-audit/scripts/check_pr_feedback.py:257-269 | no commit gives `(false, "no original commit")`; a blank diff gives `(false, "no changes in file")`; a failed diff gives `(true, "file deleted")` when the file is gone at HEAD and `(false, "diff failed")` otherwise |
| `PrFeedback.OverlapIffSomeHunk` | skills/tools/pr-feedback-audit/scripts/check_pr_feedback.py:271-276 | on a non-blank diff the outcome is true if and only if some hunk has `start <= line <= start + count`, and the evidence names the first such hunk |
| `PrFeedback.Classify` | skills/tools/pr-feedback-audit/scripts/check_pr_feedback.py:281-308 | classifying a thread changes only its status and evidence, and always sets the evidence |
| `PrFeedback.Checkable` | skills/tools/pr-feedback-audit/scripts/check_pr_feedback.py:293-297 | the diff check runs only when the first comment has a truthy commit and the line is truthy |
| `PrFeedback.ClassifyThreads` | skills/tools/pr-feedback-audit/scripts/check_pr_feedback.py:279-310 | in place, every thread of the list is replaced by its classification; length and order are kept |
| `PrFeedback.ClassifyPriority` | skills/tools/pr-feedback-audit/scripts/check_pr_feedback.py:282-305 | resolved wins over outdated, outdated wins over the diff check, and otherwise the thread is Addressed exactly when commit and line are known and the diff overlaps |
| `PrFeedback.MissingInfoUnresolved` | skills/tools/pr-feedback-audit/scripts/check_pr_feedback.py:293-308 | an open, current thread without first-comment commit or with a falsy line is Unresolved with evidence mentioning "missing" |
| `PrFeedback.DeletedFileAddressed` | skills/tools/pr-feedback-audit/scripts/check_pr_feedback.py:260-265 | an open, current, checkable thread whose file is gone at HEAD is Addressed with "deleted" evidence |
| `PrFeedback.ClassifyIdempotent` | skills/tools/pr-feedback-audit/scripts/check_pr_feedback.py:279-310 | classifying twice gives the same threads as classifying once |
| `PrFeedback.AutoResolve` | skills/tools/pr-feedback-audit/scripts/check_pr_feedback.py:461-467 | in place, each thread up to the first one whose resolve call makes `gh` fail becomes its auto-resolve step under the mutation's answer; that thread and all later ones are unchanged, and `aborted` says whether such a thread exists |
| `PrFeedback.AutoResolveOne` | skills/tools/pr-feedback-audit/scripts/check_pr_feedback.py:463-467 | one thread after the step: an Addressed thread whose resolve succeeded becomes Resolved with " (auto-resolved)" appended to its evidence; characterised by `AutoResolveOnlyAddressed` |
| `PrFeedback.AutoResolveOnlyAddressed` | skills/tools/pr-feedback-audit/scripts/check_pr_feedback.py:463-467 | a thread is Resolved afterwards if and only if it was Resolved, or Addressed and the resolve succeeded; all others are untouched |
| `PrFeedback.Count` | skills/tools/pr-feedback-audit/scripts/check_pr_feedback.py:349-351 | a status count never exceeds the number of threads |
| `PrFeedback.CountAppend` | skills/tools/pr-feedback-audit/scripts/check_pr_feedback.py:350-351 | one more thread adds one to its own status's count and nothing to the others |
| `PrFeedback.CountTotal` | skills/tools/pr-feedback-audit/scripts/check_pr_feedback.py:349-351 | the four status counts add up to the number of threads |
| `PrFeedback.AutoResolveCounts` | skills/tools/pr-feedback-audit/scripts/check_pr_feedback.py:461-467 | auto-resolve keeps the Outdated and Unresolved counts, only moves threads from Addressed to Resolved, and never lowers the Resolved count |
| `PrFeedback.OnlyUnresolved` | skills/tools/pr-feedback-audit/scripts/check_pr_feedback.py:382 | the action-required list holds as many threads as are Unresolved, and a thread is in it if and only if it is an Unresolved thread of the input |
| `PrFeedback.OnlyUnresolvedConcat` | skills/tools/pr-feedback-audit/scripts/check_pr_feedback.py:382 | the comprehension filter keeps input order: it splits over concatenation |
| `PrFeedback.OnlyUnresolvedSingle` | skills/tools/pr-feedback-audit/scripts/check_pr_feedback.py:382 | a single thread is kept exactly when it is Unresolved |
| `PrFeedback.WithoutResolved` | skills/tools/pr-feedback-audit/scripts/check_pr_feedback.py:343-344 | the `exclude_resolved` filter; characterised by `WithoutResolvedKeeps` |
| `PrFeedback.Visible` | skills/tools/pr-feedback-audit/scripts/check_pr_feedback.py:343-344 | the threads the report shows: all of them, or the filtered ones under `exclude_resolved` |
| `PrFeedback.RowOf` | skills/tools/pr-feedback-audit/scripts/check_pr_feedback.py:367-379 | one table row: status, path, the original line when truthy, the first comment's author and body truncated to 80, or "?" and "" without comments, and the evidence or "" |
| `PrFeedback.WithoutResolvedKeeps` | skills/tools/pr-feedback-audit/scripts/check_pr_feedback.py:343-344 | the filter keeps exactly the non-Resolved threads, so the Resolved count drops to 0 and the other counts stay |
| `PrFeedback.WithoutResolvedConcat` | skills/tools/pr-feedback-audit/scripts/check_pr_feedback.py:343-344 | the `exclude_resolved` filter keeps input order: it splits over concatenation |
| `PrFeedback.WithoutResolvedSingle` | skills/tools/pr-feedback-audit/scripts/check_pr_feedback.py:343-344 | a single thread is dropped exactly when it is Resolved |
| `PrFeedback.AllResolvedWhenExcluded` | skills/tools/pr-feedback-audit/scripts/check_pr_feedback.py:343-346 | with `exclude_resolved` the "all resolved" report appears if and only if every thread is Resolved |
| `PrFeedback.SumCountsAppend` | skills/tools/pr-feedback-audit/scripts/check_pr_feedback.py:355-359 | summary totals add up over concatenated summaries |
| `PrFeedback.SummaryUnrolled` | skills/tools/pr-feedback-audit/scripts/check_pr_feedback.py:355-359 | the summary is the Resolved, Outdated, Addressed and Unresolved lines, in that order |
| `PrFeedback.SummaryOfEntries` | skills/tools/pr-feedback-audit/scripts/check_pr_feedback.py:355-359 | every summary line carries a listed status with its positive count, and every listed status with a positive count has a line |
| `PrFeedback.SummaryOfOrdered` | skills/tools/pr-feedback-audit/scripts/check_pr_feedback.py:355 | summary lines follow the order of the statuses they are drawn from |
| `PrFeedback.SummaryCounts` | skills/tools/pr-feedback-audit/scripts/check_pr_feedback.py:349-359 | each summary line's count equals the number of threads with that status; exactly the nonzero statuses appear, in enum order |
| `PrFeedback.SummaryTotal` | skills/tools/pr-feedback-audit/scripts/check_pr_feedback.py:349-359 | the summary counts add up to the number of listed threads |
| `PrFeedback.SumCountsPart` | skills/tools/pr-feedback-audit/scripts/check_pr_feedback.py:356-358 | a status's summary line contributes exactly that status's count |
| `PrFeedback.SummaryOf` | skills/tools/pr-feedback-audit/scripts/check_pr_feedback.py:355-359 | the summary lines for the given statuses in order: each status with a positive count, and its count |
| `PrFeedback.Summary` | skills/tools/pr-feedback-audit/scripts/check_pr_feedback.py:355-359 | the summary over all four statuses in enum order; characterised by `SummaryCounts` and `SummaryTotal` |
| `PrFeedback.CountStatuses` | skills/tools/pr-feedback-audit/scripts/check_pr_feedback.py:349-351 | the `counts` loop: a status is a key exactly when it occurs, and its value is the number of threads with that status |
| `PrFeedback.SummaryFromCounts` | skills/tools/pr-feedback-audit/scripts/check_pr_feedback.py:355-359 | walking the statuses in enum order over those counts gives exactly `Summary` |
| `PrFeedback.TableRows` | skills/tools/pr-feedback-audit/scripts/check_pr_feedback.py:367-380 | the table loop appends one row per shown thread, in order: row `k` is `RowOf` of thread `k` |
| `PrFeedback.FormatMarkdown` | skills/tools/pr-feedback-audit/scripts/check_pr_feedback.py:341-396 | the report says "all resolved" exactly when no thread is left after the filter; otherwise it has the summary, one row per remaining thread in order, and exactly the Unresolved threads as action required |
| `PrFeedback.ParsePrArgUrl` | skills/tools/pr-feedback-audit/scripts/check_pr_feedback.py:162-164 | a PR URL gives its `owner/repo` and number |
| `PrFeedback.ParsePrArgNumber` | skills/tools/pr-feedback-audit/scripts/check_pr_feedback.py:166-167 | a plain number gives no repository and that number |
| `PrFeedback.ParsePrArgRejects` | skills/tools/pr-feedback-audit/scripts/check_pr_feedback.py:159-169 | the argument is an error if and only if it neither matches the PR-URL pattern nor is all digits; without the GitHub prefix it is accepted exactly when it is all digits |
| `PrFeedback.ParsePrArgNotPull` | skills/tools/pr-feedback-audit/scripts/check_pr_feedback.py:162-169 | an issue URL, a PR URL without a number and a URL without a repository part are all rejected |
| `PrFeedback.ParsePrArg` | skills/tools/pr-feedback-audit/scripts/check_pr_feedback.py:159-169 | `parse_pr_arg`: the URL's repository and number, a bare number with no repository, or the fatal error; characterised by the `ParsePrArg…` lemmas |
| `ReviewDashboard.StripTrailing` | skills/development/review-dashboard/scripts/review_dashboard.py:57 | stripping a trimmed remote followed by whitespace gives the trimmed remote |
| `ReviewDashboard.AfterHostOf` | skills/development/review-dashboard/scripts/review_dashboard.py:58 | both accepted hosts, SSH and HTTPS, are recognised and cut off |
| `ReviewDashboard.AfterHost` | skills/development/review-dashboard/scripts/review_dashboard.py:58 | the host alternative `git@github.com:` or `https://github.com/` cut off, or no match |
| `ReviewDashboard.RemoteGroup` | skills/development/review-dashboard/scripts/review_dashboard.py:58 | the group `(.+/.+?)` before an optional `.git` and the end, as the regex backtracking settles it: `.git` is cut off only when the rest still has a slash with a character on each side and does not end in a slash |
| `ReviewDashboard.RemoteGroupShape` | skills/development/review-dashboard/scripts/review_dashboard.py:58 | a captured group is the text after the host, with or without a final `.git`; it has an inner slash and no newline |
| `ReviewDashboard.DetectRepo` | skills/development/review-dashboard/scripts/review_dashboard.py:51-62 | `detect_repo`: no remote is an error, otherwise the stripped remote's group or a parse error; characterised by the `DetectRepo…` lemmas |
| `ReviewDashboard.RemoteGroupGitSuffix` | skills/development/review-dashboard/scripts/review_dashboard.py:58 | `owner/repo.git` captures `owner/repo` without the `.git` |
| `ReviewDashboard.RemoteGroupNoSuffix` | skills/development/review-dashboard/scripts/review_dashboard.py:58 | `owner/repo` without `.git` is captured whole |
| `ReviewDashboard.DetectRepoGitSuffix` | skills/development/review-dashboard/scripts/review_dashboard.py:51-62 | an SSH or HTTPS GitHub remote ending in `.git`, with trailing whitespace, gives `owner/repo` |
| `ReviewDashboard.DetectRepoNoSuffix` | skills/development/review-dashboard/scripts/review_dashboard.py:51-62 | the same remote without `.git` gives `owner/repo` |
| `ReviewDashboard.DetectRepoShape` | skills/development/review-dashboard/scripts/review_dashboard.py:53-62 | a detected repository comes from a present remote that is one of the two GitHub prefixes, the group and an optional `.git`; any other host fails |
| `ReviewDashboard.SearchTerms` | skills/development/review-dashboard/scripts/review_dashboard.py:75-79 | the three searches in order: reviewed-by as reviewer, commenter as commenter, review-requested as reviewer |
| `ReviewDashboard.AuthorLogin` | skills/development/review-dashboard/scripts/review_dashboard.py:90-91 | the author login, or "unknown" without an author object |
| `ReviewDashboard.TaggedSearches` | skills/development/review-dashboard/scripts/review_dashboard.py:75-88 | the loops visit the reviewed-by hits, then the commenter hits, then the review-requested hits, each in the order returned and paired with its search's interaction |
| `ReviewDashboard.FirstWith` | skills/development/review-dashboard/scripts/review_dashboard.py:88-96 | the position of the first hit carrying a PR number, or `None` exactly when no search returned it |
| `ReviewDashboard.MergeHit` | skills/development/review-dashboard/scripts/review_dashboard.py:92-102 | one update of `seen`: a new number gets an entry from the hit, a known one becomes `both` when the kind differs |
| `ReviewDashboard.Merge` | skills/development/review-dashboard/scripts/review_dashboard.py:73-102 | `seen` after the tagged hits in order (`Tagged` and `Tag` pair each search's hits with its interaction); characterised against the independent `FirstWith`/`ExpectedEntry` by `MergeEntries` |
| `ReviewDashboard.MergeEntries` | skills/development/review-dashboard/scripts/review_dashboard.py:73-102 | `seen` has one entry per PR number returned by some search; its title, author and url come from the first hit, and its kind is that hit's kind or `both` when another kind was seen |
| `ReviewDashboard.ReviewerSearchesNotBoth` | skills/development/review-dashboard/scripts/review_dashboard.py:75-94 | a PR is `both` if and only if a reviewer search and the commenter search returned it, so the two reviewer searches together never make `both` |
| `ReviewDashboard.TaggedKinds` | skills/development/review-dashboard/scripts/review_dashboard.py:75-79 | no search hit is tagged `both` |
| `ReviewDashboard.MergeNumbers` | skills/development/review-dashboard/scripts/review_dashboard.py:96-97 | each entry of `seen` records its own key as its number |
| `ReviewDashboard.MergeStep` | skills/development/review-dashboard/scripts/review_dashboard.py:92-102 | one more hit is one update of `seen` |
| `ReviewDashboard.MergeBatch` | skills/development/review-dashboard/scripts/review_dashboard.py:88-102 | the inner loop folds one search's hits into `seen` |
| `ReviewDashboard.MergeSearches` | skills/development/review-dashboard/scripts/review_dashboard.py:73-102 | the nested loops build exactly the merged `seen` of the three searches in order, and give the fatal exit exactly when one of the searches fails |
| `ReviewDashboard.SortByNumber` | skills/development/review-dashboard/scripts/review_dashboard.py:105-108 | the sorted list is strictly ascending by number and holds exactly the kept entries |
| `ReviewDashboard.FindUserPrs` | skills/development/review-dashboard/scripts/review_dashboard.py:71-108 | the fatal exit exactly when a search fails; otherwise strictly ascending by number and exactly the merged entries whose author is not the user |
| `ReviewDashboard.UserPrsComplete` | skills/development/review-dashboard/scripts/review_dashboard.py:104-108 | every PR some search returned is listed if and only if its recorded author is not the user |
| `ReviewDashboard.UserPrsUnique` | skills/development/review-dashboard/scripts/review_dashboard.py:88-108 | no PR number is listed twice, and a PR whose first hit has no author is listed with author "unknown" |
| `ReviewDashboard.DraftLines` | skills/development/review-dashboard/scripts/review_dashboard.py:157-168 | the seven lines appended: title, repository, PR, action label, body line, rule and hint |
| `ReviewDashboard.ActionLabel` | skills/development/review-dashboard/scripts/review_dashboard.py:152-161 | the `action_labels.get(action, action)` lookup; characterised by `ActionLabels` |
| `ReviewDashboard.BodyLine` | skills/development/review-dashboard/scripts/review_dashboard.py:163-166 | the quoted body when it is truthy, otherwise the "(empty …)" line |
| `ReviewDashboard.DraftText` | skills/development/review-dashboard/scripts/review_dashboard.py:169 | the draft lines joined with newlines; characterised by `DraftShows` |
| `ReviewDashboard.FormatActionDraft` | skills/development/review-dashboard/scripts/review_dashboard.py:151-169 | the appended lines joined by newlines are the specification draft text |
| `ReviewDashboard.QuotedBodyShown` | skills/development/review-dashboard/scripts/review_dashboard.py:163-164 | a non-empty body appears quoted with `> ` |
| `ReviewDashboard.DraftShows` | skills/development/review-dashboard/scripts/review_dashboard.py:151-169 | the draft names the repository, the PR number, the action's label, and either the quoted body or the "(empty …)" line |
| `ReviewDashboard.ActionLabels` | skills/development/review-dashboard/scripts/review_dashboard.py:152-161 | approve, request-changes and comment map to APPROVE, REQUEST_CHANGES and COMMENT; an action keeps its own name if and only if it is none of them |
| `ReviewDashboard.ReviewFlag` | skills/development/review-dashboard/scripts/review_dashboard.py:175-183 | the action flag for approve, request-changes and comment, or none for any other action |
| `ReviewDashboard.ReviewArgs` | skills/development/review-dashboard/scripts/review_dashboard.py:173-186 | the `gh` argument list, or none for an unknown action; characterised by `ReviewArgsRoundTrip` |
| `ReviewDashboard.ReviewArgsRoundTrip` | skills/development/review-dashboard/scripts/review_dashboard.py:173-184 | arguments exist if and only if the action is known; they are `pr review <n> --repo <repo>` with exactly one action flag and `--body` only for a non-empty body, and they decode back to repository, number, action and body |
| `ReviewDashboard.ExecuteAction` | skills/development/review-dashboard/scripts/review_dashboard.py:172-194 | an unknown action invokes nothing and fails; otherwise `gh` is invoked with those arguments and the result is true if and only if the exit code is 0 |
| `ReviewDashboard.ActTargetChoice` | skills/development/review-dashboard/scripts/review_dashboard.py:197-207 | a PR URL overrides the repository with its own `owner/repo`; a plain number keeps the given or detected repository |
| `ReviewDashboard.BaseRepo` | skills/development/review-dashboard/scripts/review_dashboard.py:199 | a truthy `--repo` value, otherwise `detect_repo` |
| `ReviewDashboard.ActTarget` | skills/development/review-dashboard/scripts/review_dashboard.py:199-210 | the repository and PR number `act` works on, or the fatal error |
| `ReviewDashboard.ActTargetRejects` | skills/development/review-dashboard/scripts/review_dashboard.py:199-210 | `act` fails if and only if no repository is found or the argument is neither a PR URL nor all digits, then with "could not parse PR" |
| `ReviewDashboard.ActTargetNeedsRepo` | skills/development/review-dashboard/scripts/review_dashboard.py:199 | when there is no `--repo` and the remote cannot be parsed, `act` fails with the remote's error, even for a PR URL |

## Left out

- Process I/O: `run_gh`, `run_git` and every `subprocess.run` call. Their results are parameters (see above). A `git` call that exits non-zero is `None`; a time-out is covered below. A non-zero exit of `gh` in `find_user_prs` or in the resolve mutation is modelled as the fatal exit. The other `gh` calls belong to left-out functions.
- Time-outs: every `subprocess.run` call of `run_git`, `run_gh` and `execute_action` passes a time limit: `timeout=30`, or `timeout=60` for the `run_gh` of `review_dashboard.py`. On a time-out it raises `TimeoutExpired`, which ends the program. The one exception is inside `resolve_thread`, whose `except Exception` turns it into a `False` answer (modelled as `Answer(false)`). The model's oracles return only normal results, so it does not capture a run ended by a time-out.
- What `main` does after an aborted auto-resolve loop: the program exits and prints no report. `PrFeedback.AutoResolve` reports the abort and stops there.
- `fetch_threads`: GraphQL pagination and JSON field extraction depend on the remote API. Threads are given as values.
- `resolve_thread`, `detect_pr_number` and `get_current_user` are network calls. The resolver's answer and the user name are parameters.
- `format_json`, the JSON printing of `cmd_discover`, `main`, `cmd_discover`, argument parsing, and all stderr/stdout printing. Fatal exits are `Failure` results.
- The `detect_repo` of `check_pr_feedback.py` is not part of this model. The one of `review_dashboard.py` is modelled, and its pattern covers both hosts.
- `PrFeedback.FormatMarkdown`: returns the report's structure, not its markdown bytes. This covers the filter, the empty-report case, the summary, the row fields and the action-required list. Emoji markers, table punctuation, the `created_at` and `diff_hunk` lines of the unresolved section, and the `:line` location suffix are left out.
- `ReviewDashboard.DraftShows`: states which pieces the draft contains rather than its exact bytes. The exact text is `DraftText`, which `FormatActionDraft` is proved to return.
- Python's `\d` and `str.isdigit()` also accept non-ASCII digits. The model accepts only `0`–`9`.
- `str.strip()` is modelled with Python's whitespace set for the characters listed in `Text.IsSpace`.
- Object identity: a thread listed twice in the Python list would be updated twice through one object. The model's array holds values.
- Dictionary insertion order of `seen` is not modelled, because the result is sorted by the unique PR number.
- `ReviewDashboard.UserPrsUnique`: a search hit whose author object has `login: null` would record `None` as the author in Python. The model has no such value and treats a missing author object as "unknown".
- The `--limit 100` cap and the `--state open` filter belong to the `gh` search and are part of what `gh(term)` returns.
