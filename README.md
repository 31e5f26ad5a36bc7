# Hackathon application evaluation: a Dafny model of its core

The system scores hackathon applicants and teams that are stored in an Airtable
base. For each applicant or team it:

- renders a prompt;
- sends the prompt to a language model;
- reads a score (0 to 100) and a feedback text out of the model's free-text reply;
- writes both back to the table.

For the applicant prompt it also looks up the applicant's GitHub profile and project.

This project models the deterministic core of that pipeline and proves properties about it:

- **Reply parsing** (`services/ai_eval.py`, modules `ReplyParser`, `ReplyParserFacts` and `ReplyExamples`).
  - The ordered list of score regexes; only the leftmost match of each counts; the case-insensitive search.
  - The check that the score is in 0..100.
  - The `Feedback:` and `Team Feedback:` labels, and the fallback that drops score lines.
  - The default score of 10.
  - A proof that a reply written in the format the prompts ask for parses back to its own score and feedback.
- **Airtable records** (`services/airtable.py`, module `Airtable`).
  - The filter and projection of the team fetch.
  - Grouping applicants by stripped team code, keeping only teams of two or more.
  - Shaping a team for the prompt.
  - Writing one team result to every member's record. The table is a class whose `Update` method changes it in place.
- **Prompt templates** (`prompts/prompts_template.py`, module `Prompts`).
  - The team prompt: numbered member summaries and an average over the truthy scores.
  - The applicant prompt: the GitHub lookups are made only for non-empty links, and the defaults are used otherwise.
- **GitHub helpers** (`services/github.py`, module `GitHub`; `services/github_repo.py`, module `GitHubRepo`).
  - Blank-input defaults.
  - Reading the account name out of a profile link.
  - The digits-or-zero reading of counters.
  - Reading owner and name out of a repository link, either by splitting it or by `urlparse`, with `.git` removed.
  - The order in which HTTP statuses are checked, and the shape of each result dict.
  - The README lookup and the README-only result.

Supporting modules:

- `Wrappers`: `Option` and `Result`.
- `Strings`: ASCII `str` operations such as `strip`, `split`, `join`, `isdigit` and `int`.
- `Values`: a Python scalar value, a dict as a map, truthiness, an HTTP response.

External effects are parameters of the model:

- HTTP requests are a function from URL to `Result<Response, string>`, where `Err` is a raised exception.
- The parsed profile page is a `Page` record.
- Base64 and UTF-8 decoding of a README is a function.
- The `:.1f` formatting of the average is a function.
- The two GitHub lookups of the applicant prompt are functions.
- `table.all()` is the sequence of rows it returns.

## Model

| member | source | states |
|---|---|---|
| ReplyParser.FirstValidScore | services/ai_eval.py:46-56 | whatever score the pattern loop settles on is at most 100; a pattern whose digit group `int()` refuses is passed over like one out of range |
| ReplyParser.ExtractScore | services/ai_eval.py:46-56 | the loop with its `break` returns the first pattern's in-range leftmost match, and never a score above 100 |
| ReplyParser.Feedback | services/ai_eval.py:58-68 | the applicant feedback has no surrounding whitespace, whichever branch produced it |
| ReplyParser.UnscoredText | services/ai_eval.py:63-68 | the fallback loop keeps exactly the filtered lines, in order, rejoined with newlines and stripped |
| ReplyParser.Parsed | services/ai_eval.py:29-76 | every reply yields a score in 0..100 and a feedback without surrounding whitespace |
| ReplyParser.ParseAiResponse | services/ai_eval.py:29-76 | the applicant parser returns the score and feedback of the reply's evaluation, with the score in 0..100 |
| ReplyParser.ParseTeamAiResponse | services/ai_eval.py:100-156 | the team parser returns the score and feedback of the reply's team evaluation, with the score in 0..100 |
| ReplyParserFacts.SearchFindsLeftmost | services/ai_eval.py:47 | re.search reports a real match at the leftmost matching position, with no match before it; when it reports nothing, there is no match anywhere |
| ReplyParserFacts.FirstValidScoreIsFirstAccepted | services/ai_eval.py:46-56 | the score is v if and only if some pattern yields v and every earlier pattern yields nothing |
| ReplyParserFacts.NoValidScore | services/ai_eval.py:46-56 | no score is found if and only if no pattern yields an in-range leftmost match |
| ReplyParserFacts.FallbackScore | services/ai_eval.py:71-74 | a reply in which no pattern yields a score gets score 10, and its whole stripped text is the feedback |
| ReplyParserFacts.LeftmostOnly | services/ai_eval.py:47-56 | only a pattern's leftmost match counts: its digits are accepted exactly when `int()` reads them (at most 4300 digits) as a number up to 100, and otherwise the pattern is discarded, even if a later match is in range |
| ReplyParserFacts.ScoreIgnoresCase | services/ai_eval.py:47 | two replies that differ only in letter case get the same score (re.IGNORECASE) |
| ReplyParserFacts.ApplicantFeedbackAfterLabel | services/ai_eval.py:59-61 | the applicant feedback is the stripped text after the first `Feedback:` |
| ReplyParserFacts.TeamFeedbackAfterTeamLabel | services/ai_eval.py:134-136 | for a team, the text after the first `Team Feedback:` wins, wherever `Feedback:` occurs |
| ReplyParserFacts.TeamFeedbackFallsBack | services/ai_eval.py:137-141 | without `Team Feedback:`, a team reply takes its feedback after `Feedback:`, exactly as an applicant reply does |
| ReplyParserFacts.KeptLinesMembers | services/ai_eval.py:65-67 | the fallback keeps a line if and only if it is a line of the reply and not a score line |
| ReplyParserFacts.KeptLinesAppend | services/ai_eval.py:65-67 | the fallback filters line by line and keeps the lines' order |
| ReplyParserFacts.NoScoreLinesKeepsText | services/ai_eval.py:63-68 | a reply without score lines loses only its outer whitespace in the fallback |
| ReplyParserFacts.TeamFilterIsWider | services/ai_eval.py:146 | the team line filter drops every line the applicant filter drops, and also `Team Score: 7`, which the applicant filter keeps |
| ReplyExamples.CompliantScore | services/ai_eval.py:37-56 | a reply that opens with `Score: n/100` (n at most 100) scores n |
| ReplyExamples.CompliantTeamScore | services/ai_eval.py:110-131 | a reply that opens with `Team Score: n/100` scores n |
| ReplyExamples.CompliantReply | services/ai_eval.py:29-76 | the reply format the applicant prompt asks for parses back to the score and the stripped feedback body written into it |
| ReplyExamples.CompliantTeamReply | services/ai_eval.py:100-156 | the reply format the team prompt asks for parses back to the score and the stripped team feedback body written into it |
| ReplyExamples.OverlongScoreFallsBack | services/ai_eval.py:46-56 | `Score: <more than 4300 digits>/100`: every pattern's match is refused by `int()` (ValueError, then `continue`) or absent, so the reply gets the default score 10 and its whole stripped text as feedback |
| Airtable.TeamApplicants | services/airtable.py:59-68 | at most one applicant per row, and every fetched applicant carries a truthy "Team Code" |
| Airtable.FetchTeamApplicants | services/airtable.py:59-68 | the loop over the rows produces the projected applicants of the rows with a truthy team code, in row order |
| Airtable.TeamApplicantShape | services/airtable.py:64-65 | each applicant dict holds exactly the eight team fields plus record_id; a missing field becomes "" |
| Airtable.TeamApplicantsAreCodedRows | services/airtable.py:60-66 | a dict is fetched if and only if it is the projection of some row with a truthy team code |
| Airtable.CodedRowFetched | services/airtable.py:60-66 | every row with a truthy team code is fetched, as its projection |
| Airtable.FetchedFromCodedRow | services/airtable.py:60-66 | every fetched applicant is the projection of some row with a truthy team code |
| Airtable.GroupByTeam | services/airtable.py:70-83 | a code is a team if and only if it is non-empty after strip and has more than one applicant; the team holds exactly those applicants, in input order |
| Airtable.MembersAppend | services/airtable.py:77-80 | grouping keeps input order: the members from a later stretch of input follow those from an earlier one |
| Airtable.MembersCount | services/airtable.py:77-80 | a team holds each applicant with its code as often as that applicant occurs in the input, and no other applicant |
| Airtable.ApplicantInOwnTeamOnly | services/airtable.py:78-80 | every applicant is in the group of its own stripped code and in no other group |
| Airtable.TwoOfAOneOfB | services/airtable.py:78-83 | codes "A", " A " and "B": the two A applicants form one group, and B's group has a single member, so the filter drops it |
| Airtable.MemberData | services/airtable.py:98-104 | each member's data has exactly the five keys the team prompt reads; the score is copied when present and becomes 0 when missing, a missing name becomes "" |
| Airtable.PrepareTeamData | services/airtable.py:85-115 | None if and only if the team is empty; otherwise the track and name come from the first member (name defaulting to "Team <code>"), with one member dict per member, in order |
| Airtable.Table.constructor | services/airtable.py:121-122 | the table holds the given records |
| Airtable.Table.Update | services/airtable.py:126-129 | an update succeeds if and only if the service accepts it and the record exists, and then merges the fields into that record alone; otherwise nothing changes |
| Airtable.WriteAll | services/airtable.py:124-132 | the writes of the loop never add or remove a record, whichever of them fail |
| Airtable.UpdateTeamMembers | services/airtable.py:117-132 | the table ends up as the writes for every member, in order; a member whose write fails, for a missing record or any other refusal, is skipped and the loop goes on |
| Airtable.WriteOneEffect | services/airtable.py:126-129 | one write keeps the table's ids and changes at most the member's own record, and that one only when the write is accepted |
| Airtable.TargetsStep | services/airtable.py:124-129 | the records the loop's accepted writes reach are those reached before the last member, plus the last member's record when its write is accepted |
| Airtable.WriteAllEffect | services/airtable.py:124-132 | after the loop, every member record reached by an accepted write carries the team fields, every other record is unchanged, and no record is added |
| Airtable.WriteAllTwice | services/airtable.py:117-132 | two runs of the update loop with the same fields leave the store as one run in which a write is refused only where both runs refused it |
| Airtable.WriteAllIdempotent | services/airtable.py:117-132 | when every write is accepted, running the team update a second time is the same as running it once |
| Airtable.SameTeamResultForAll | services/airtable.py:124-129 | every member record reached by an accepted write ends with the same Team Score (None written as 0) and the same Team Feedback (falsy feedback written as "No team feedback generated."); its other fields are unchanged |
| Prompts.StrippedCore | prompts/prompts_template.py:112-164 | .strip() removes only the two framing newlines, so the prompt opens with the emoji and ends with its instruction |
| Prompts.SummarizeMembers | prompts/prompts_template.py:95-110 | the enumerate loop produces the member summaries joined with blank lines |
| Prompts.SummariesNumbered | prompts/prompts_template.py:96-108 | there is one summary per member, and the k-th member's summary is numbered k + 1 |
| Prompts.SummaryHeading | prompts/prompts_template.py:102-103 | each summary starts with `MEMBER i:` |
| Prompts.SummaryDefaultName | prompts/prompts_template.py:97 | a member without a first name is called `Member i` in the summary |
| Prompts.CountedScoresAreTruthy | prompts/prompts_template.py:91 | a value enters the average if and only if it is some member's present, truthy score |
| Prompts.NoScoresAverageZero | prompts/prompts_template.py:91-92 | with no truthy score, the average reads 0.0 |
| Prompts.AllScoredAllCounted | prompts/prompts_template.py:91 | when every member has a truthy score, every member is counted |
| Prompts.GetTeamEvaluationPrompt | prompts/prompts_template.py:71-164 | the loop-built prompt is the rendered team template |
| Prompts.TeamPrompt | prompts/prompts_template.py:112-164 | the team prompt is the emoji, the rendered team body and the instruction, so it opens with the emoji and ends with the instruction |
| Prompts.TeamPromptShape | prompts/prompts_template.py:112-164 | the team prompt opens with the emoji and ends with the instruction to start with `Team Score: [number]/100` |
| Prompts.TeamSizeReported | prompts/prompts_template.py:144-146 | the Team Size line reports the number of members, right after the team's head |
| Prompts.ApplicantPrompt | prompts/prompts_template.py:185-254 | the applicant prompt is the emoji, the rendered applicant body and the instruction, so it opens with the emoji and ends with the instruction |
| Prompts.ApplicantPromptShape | prompts/prompts_template.py:185-254 | the applicant prompt is the emoji, the body and the instruction, with nothing stripped from them |
| Prompts.ApplicantPromptEnds | prompts/prompts_template.py:185-254 | the applicant prompt opens with the emoji and ends with the instruction to start with `Score: [number]/100` |
| Prompts.ProfileBlockPlaced | prompts/prompts_template.py:231-244 | the GitHub Profile block follows the applicant's own fields |
| Prompts.NoProfileLookup | prompts/prompts_template.py:182 | without a profile URL, the prompt does not depend on the profile lookup |
| Prompts.NoRepoLookup | prompts/prompts_template.py:183 | without a project URL, the prompt does not depend on the repository lookup |
| Prompts.NoProfileBlock | prompts/prompts_template.py:241-244 | without a profile URL, the profile block reads Not provided, N/A, 0 and 0 |
| Prompts.NoRepoBlock | prompts/prompts_template.py:246-251 | without a project URL, the project block reads Not provided, N/A, N/A, 0, 0 and N/A |
| Prompts.DefaultApplicantName | prompts/prompts_template.py:169 | an applicant without a first name is called Applicant |
| Strings.DigitsOrZeroReads | services/github.py:38-39 | `int(t) if t.isdigit() else 0` reads back a decimal numeral of at most 4300 digits, also with a leading zero, gives 0 for empty text or text holding a non-digit, and raises ValueError (with CPython's message) exactly on a digit string longer than 4300 |
| Strings.JoinSplit | services/ai_eval.py:65-68 | joining the pieces of a split with the separator gives back the text |
| Strings.SplitSeveral | services/github.py:62-63 | a split has at least two pieces if and only if the separator occurs |
| GitHub.FetchGitHubProfile | services/github.py:4-43 | a blank input gives the defaults; otherwise the result has the five profile keys or only "error", "error" appears if and only if the page request failed or `int()` refused a follower or repository counter of more than 4300 digits, and a profile names the designated account |
| GitHub.CountOrZero | services/github.py:38-39 | reading a counter raises exactly when its stripped text is all digits and longer than 4300, and otherwise gives an integer |
| GitHub.ProfileOf | services/github.py:34-43 | the dict built from a fetched page has the five profile keys and names the account, unless a counter is refused, in which case it is the error dict |
| GitHub.ProfileFetchedOnce | services/github.py:20-26 | only the profile page of the designated account is requested |
| GitHub.ProfileCounts | services/github.py:34-43 | a count written in decimal with surrounding whitespace is refused by `int()` exactly when it has more than 4300 digits, and a refused follower count makes the result the error dict with `int()`'s message; when neither counter is refused, the username is the designated account, a count reads as its number and a missing element gives 0 |
| GitHub.Username | services/github.py:20-23 | the designated account name never holds `github.com/`, and when read from a link it has no slash at either end |
| Strings.SplitOnLast | services/github.py:21 | for a separator that cannot overlap itself, the last piece of a split is the text after the separator's last occurrence |
| GitHub.UsernameAfterLast | services/github.py:21 | `split("github.com/")[-1]` of the stripped input is the text after its last `github.com/`, so the account name is that text without outer slashes |
| GitHub.UsernameOfProfileUrl | services/github.py:20-23 | the account name is read back from its profile link (any prefix, with or without a trailing slash) |
| GitHub.RepoPath | services/github.py:62-64 | a repository link names a repository if and only if a `/` remains once the outer slashes are stripped, and then neither owner nor name holds a `/` |
| GitHub.FetchRepoInfo | services/github.py:45-92 | a blank input gives the defaults; a link naming no repository gives the invalid-URL error; otherwise the result has the seven summary keys or only "error", a failed repository request gives the error dict of its exception, and so does a failed commits request whatever the repository's status |
| GitHub.RepoRequestsOnly | services/github.py:66-71 | only the repository and its commit list are requested |
| GitHub.RepoStatusesAndCommits | services/github.py:73-89 | a bad repository status is reported first, then a bad commits status; with both 200, commit_count is the number of listed commits and last_commit_date is the newest commit's date, or None without commits; a failing date lookup is an error |
| GitHub.RepoPathOfJoin | services/github.py:62-66 | for a slash-joined link, owner and name are its last two pieces, with or without a trailing slash |
| GitHub.RepoPathOfLink | services/github.py:62-66 | `https://github.com/owner/name`, with or without a trailing slash, names that owner and repository |
| GitHubRepo.Normalize | services/github_repo.py:28-30 | the normalised link starts with http:// or https:// |
| GitHubRepo.NormalizeLink | services/github_repo.py:28-30 | normalisation adds https:// only when the scheme is missing, and removes the trailing slash |
| GitHubRepo.ParseLink | services/github_repo.py:32 | urlparse splits a link into host and path when the host holds no delimiter and the path no query, fragment or parameters |
| GitHubRepo.StripGitOnce | services/github_repo.py:40-41 | exactly one `.git` suffix is removed, and a name without it is kept |
| GitHubRepo.Locate | services/github_repo.py:28-41 | a link designates a repository if and only if its host is github.com and a `/` remains inside its path, and then neither owner nor name holds a `/` |
| GitHubRepo.LocateLink | services/github_repo.py:28-41 | a link host/owner/name, with or without a scheme, a `.git` suffix or a trailing slash, designates (owner, name without .git) if and only if the host is github.com |
| GitHubRepo.FetchReadme | services/github_repo.py:78-105 | a README answer has exactly the two README keys; it holds text if and only if the endpoint answered 200 with a truthy content that decodes; with text, the content is the decoded `content` field and the file name is the body's `name`, README by default; without content the file name is None |
| GitHubRepo.Summarize | services/github_repo.py:43-75 | a located repository's summary has the eight summary keys or only "error"; "error" appears if and only if the repository request failed (the error dict of its exception) or answered a status other than 200 (the status message) |
| GitHubRepo.FetchRepoInfo | services/github_repo.py:5-75 | a blank link gives the defaults; a link that designates no repository gives the invalid-URL error; otherwise the result has the eight summary keys or only "error", and "error" appears if and only if the repository request failed or answered a status other than 200, with the exception's text or the status message |
| GitHubRepo.ReadmeMerged | services/github_repo.py:56-72 | with the README requested, the summary carries the README answer alongside the repository's own fields; without it, both README fields stay None |
| GitHubRepo.SummarizeRequests | services/github_repo.py:48-70 | a located repository's summary requests only the repository and, when asked for, its README |
| GitHubRepo.RequestsOnly | services/github_repo.py:43-70 | only the repository and (when asked for) its README are requested |
| GitHubRepo.FetchReadmeOnly | services/github_repo.py:108-120 | the README-only answer has the two README keys or only "error" |
| GitHubRepo.ReadmeOnlyShape | services/github_repo.py:108-120 | the README-only answer passes an error through unchanged; otherwise it is exactly the two README fields of the full summary |
| GitHubRepo.SummaryReadme | services/github_repo.py:108-120 | the README fields of a found repository's summary are the README answer |
| GitHubRepo.ReadmeOnlyFound | services/github_repo.py:108-120 | a blank link gives no README; a found repository gives the README answer |

## Left out

- Text is ASCII. Python's `str.strip`, `\s`, `\d`, `isdigit` and `re.IGNORECASE` are modelled for ASCII characters. Unicode whitespace, digits and case folding are not modelled.
- The regexes are not a general regex engine. Each score pattern and each label is matched by a function written for its shape. The no-backtracking argument is in the module comment of `ReplyParser`.
- `int()` of a digit string is modelled with the 4300-digit limit of CPython 3.11 and later (`Strings.MaxStrDigits`, leading zeros included). In the reply parsers a longer group raises ValueError and the loop moves to the next pattern; in the profile scraper a longer follower or repository counter raises ValueError, which the scraper's `except` turns into the error dict, with the message text of CPython 3.12. Interpreters without that limit accept every digit string. `IndexError` cannot occur, since every pattern has one group.
- The calls to the language model (`evaluate_applicant`, `evaluate_team`) are not modelled. Neither are the pipeline that drives the evaluation, the configuration module, or the `print` warnings and progress lines.
- The Airtable client is not modelled: `Api`, `table.all()` and `table.update` against the network. The table is a map held by the `Airtable.Table` class. Whether the service refuses a write (network error, permissions, invalid field) is a parameter: the `rejected` flag of `Airtable.Table.Update`, and the set of refused member positions of `Airtable.UpdateTeamMembers`.
- `Airtable.GroupByTeam`: does not model the insertion order of the dict it returns. The result is a `map`, and each group's member order is kept.
- `Airtable.GroupByTeam`: requires every "Team Code" to be text (`CodeIsText`), because `.strip()` on a non-string raises in the source.
- `Prompts.GetTeamEvaluationPrompt`: requires every truthy score to be an int or a bool (`ScoresAreNumbers`; `True` counts as 1, as in `sum()`), because `sum()` raises a TypeError on text and floats are not modelled.
- `Prompts.GetTeamEvaluationPrompt`: the `:.1f` rendering of the average is a parameter. Floating point is not modelled, and the average is passed as a sum and a count.
- The fixed template texts take part in the proofs only as parameters (`TeamTemplate`, the opening text), so the prompt lemmas hold for every such text.
- The GitHub lookups are parameters. This covers HTTP (`requests.get` and its `headers`), BeautifulSoup's CSS selection (the `Page` record), and base64 and UTF-8 decoding (the `decode` function).
- A failed `.json()`, a JSON body that is not an object, and any other exception inside the request are modelled only as the `Err` of the request function.
- `GitHub.FetchGitHubProfile`: `not username_or_url` on None is not modelled, because every input is a string.
- `GitHubRepo.Parse`: models `urlparse` only for http and https links after normalisation. The removal of tab, CR and LF, IPv6 bracket validation, and port and userinfo splitting are not modelled; the network location is compared as a whole string, as the source does.
- `fetch_repo_info` appears twice in the source, in `services/github.py` and in `services/github_repo.py`. Both are modelled, as `GitHub.FetchRepoInfo` and `GitHubRepo.FetchRepoInfo`. The applicant prompt calls the former; its lookup is a parameter of `Prompts.ApplicantPrompt`.
- The example usage block of `services/github_repo.py` (`__main__`) is not modelled.
