# Webhook code-deployment service, modelled in Dafny

Besides a `GET /` home page, the service does its work on one kind of request: a POST to `/api-endpoint` carrying
a task, a brief, a nonce and an evaluation URL. The handler, `receive_task`,
works through these steps:

- It checks a shared secret.
- It looks the nonce up in a JSON ledger.
- It asks a language model for code.
- It cuts the model's reply into files with `extract_code_blocks`.
- It pushes those files to GitHub:
  - For a new nonce it uses `push_to_github`. That creates a repository, commits each file and an MIT `LICENSE`, asks for GitHub Pages, and records the nonce in the ledger.
  - For a known nonce it uses `push_to_github_update`. That updates or adds each file in the recorded repository.
- It tells the evaluation server with up to five POSTs. The retries back off exponentially.

This project models that workflow as pure functions over immutable data and proves what each step promises.

The outside world becomes parameters:

- **The services.** The model, GitHub and the evaluation server are represented by the replies they give. Each reply is a value or an exception (`Base.Reply`). The exception is either a `GithubException` with its status or some other exception.
- **The GitHub account.** It is a map from repository name to commit history (`RepoStore.Store`).
- **The ledger.** It is a map from nonce to record (`Ledger.Ledger`).

Modules:

- `Base` holds `Option`, `Failure` and `Reply`.
- `Text` holds Python's `strip`, `lower`, `isspace`, `in` and `split('/')[-1]` on ASCII text.
- `FileSet` is the insertion-ordered dict the extractor fills.
- `Extract` holds the fence scanner, the naming rule and the keyword fallback. `ExtractExamples` gives worked inputs for it.
- `Ledger`, `RepoStore` and `Github` cover the two push functions.
- `Notifier` is the retry loop.
- `Orchestrator` is `receive_task` itself.

## Behaviour worth knowing

The model follows the code on these points:

- **File numbering.** `file_<n>.html` counts ALL blocks, named ones included, not only unnamed ones (main.py:525-529).
- **Names with '/'.** A block name may contain '/'.
- **Repeated names.** A repeated name keeps the position of its first block and the body of its last.
- **The fallback.** It needs output that is not blank after stripping. Output that is merely non-empty is not enough.
- **Notification sleeps.** Five failed notifications sleep 1+2+4+8+16 = 31 units, because a sleep follows the fifth failure too (main.py:202-213).
- **Empty tuple on creation.** An exception during creation other than a `GithubException` gives the all-`None` tuple, and the handler still answers 200 with no Pages URL (main.py:454-456, 186-219). It does not fail the request.
- **Status text.** The create path answers with status text `"200 ok"`, the update path with `"200 OK"`.

## Model

| member | source | states |
|---|---|---|
| Text.StripSpec | main.py:527-528 | `s.strip()` is the slice of `s` left between a blank prefix and a blank suffix. It is empty exactly when `s` is all whitespace. Otherwise it starts and ends with a non-space. It leaves whitespace-free text unchanged. |
| Text.StripSlice | main.py:527-528 | What `strip` removes: the text before the result is all whitespace, and so is the text after it. The result is the slice between them. |
| Text.DecimalDigits | main.py:527 | `str(file_counter)` is the decimal numeral of the counter: digits only, no leading zero, and reading it back gives the counter. |
| Text.Lower | main.py:532 | `brief.lower()` keeps the length and lowercases each character on its own. |
| Text.ContainsIffOccurs | main.py:534-541 | The left-to-right `in` scan succeeds exactly when some index of the brief starts an occurrence of the keyword. |
| Text.LastSegment | main.py:476 | `split("/")[-1]` is a suffix of the URL with no '/'. When it is shorter than the URL, a '/' comes right before it. |
| FileSet.Assign | main.py:528 | `files[filename] = ...` gives the name the new content and leaves every other name alone. A present name keeps its position. A new name is appended. |
| FileSet.FromPairsMembers | main.py:526-529 | The dict built by the loop holds exactly the names assigned. |
| FileSet.FromPairsOrder | main.py:526-529 | The dict lists its names in the order they are first assigned. |
| FileSet.FromPairsValues | main.py:526-529 | A name holds the content of the last pair assigned to it. |
| FileSet.FromPairsDistinct | main.py:526-529 | Pairs with distinct names build a dict listing them exactly as given. |
| Extract.FindFence | main.py:523 | The scan finds the first fence. No fence lies before it. None means there is no fence at all. |
| Extract.Blocks | main.py:523 | `re.findall` of the fence pattern, scanned left to right. Each match spends two three-character fences, so there are at most a sixth as many matches as the text has characters. Its other properties are stated by BlocksScanned, BlocksEmptyIff, ParseRender and BlocksSkipPlainText. |
| Extract.AfterOpen | main.py:523 | Counting the opening fence, each match spends at least six characters. The header and body facts are stated by AfterOpenScanned, and through Blocks by BlocksEmptyIff and ParseRender. |
| Extract.ReadHeaderSpec | main.py:523 | The optional `([\w\.\-\/]+)?\n` group takes a run of name characters only when a newline follows it directly. Otherwise it takes a lone newline, or nothing. |
| Extract.ReadHeaderNoName | main.py:523 | A run of name characters followed by neither a newline nor another name character is not a header. Nothing is taken, and the run becomes part of the body. |
| Extract.BlocksScanned | main.py:523 | Every block found has a header of name characters. Its body holds no fence, because the lazy `(.*?)` stops at the first closing fence. |
| Extract.BlocksEmptyIff | main.py:523 | `re.findall` finds no block exactly when the text lacks two non-overlapping fences. |
| Extract.ParseRender | main.py:523 | Well-formed blocks written out with fences scan back as the same blocks. The scan is the inverse of rendering. |
| Extract.BlocksSkipPlainText | main.py:523 | Backtick-free text before a block does not change what the scan finds. |
| Extract.HeaderNameIsVerbatim | main.py:527 | A header holding a '.' is its own file name. Stripping a run of name characters changes nothing. |
| Extract.CollectIsFromPairs | main.py:524-529 | The `for` loop with its counter builds the same dict as assigning the labelled pairs in order. |
| Extract.DefaultNameIsFirstRule | main.py:534-543 | The `if`/`elif` chain is the ordered keyword table: script.js, style.css, app.py, index.html, then output.txt. |
| Extract.ExtractCodeBlocks | main.py:518-547 | The names are unique. The result is empty exactly when there is no block and the output is blank. With blocks, it is the dict of the labelled blocks. Otherwise it is one fallback entry named by the first matching rule and holding the stripped output. |
| Extract.BlockKeyPresent | main.py:526-529 | Every block's name (its header, or `file_<k>.html` with k counting all blocks) is a key of the result. |
| Extract.BlockValue | main.py:528 | A key holds the stripped body of the last block carrying that name. |
| Extract.KeysInFirstAppearanceOrder | main.py:526-529 | The keys appear in the order their blocks first appear. |
| Extract.NamedBlocksVerbatim | main.py:523-529 | Blocks with distinct dotted headers come back in order, each under its header with its body stripped. |
| Extract.KeysNonEmpty | main.py:527-545 | No key of the result is the empty string. |
| ExtractExamples.TwoNamedBlocks | main.py:518-547 | Two fenced blocks with distinct dotted headers and any plain text between them give exactly those two entries, in order. |
| ExtractExamples.JsonBriefFallsBackToScript | main.py:534-535 | Keywords match as substrings, so a brief mentioning "json" falls back to `script.js`. |
| ExtractExamples.HappyBriefFallsBackToPython | main.py:538-539 | "happy" contains "py", so such a brief, with no earlier keyword, falls back to `app.py`. |
| Ledger.Lookup | main.py:72-73 | A nonce finds an entry exactly when it is a string key of the ledger. A missing nonce never finds one. |
| Ledger.CreatesRepoIff | main.py:70-76 | A request creates a repository exactly when its nonce is missing, unknown, or records an empty repository URL. |
| Ledger.WriteThenLookup | main.py:436 | After an entry is written for a nonce, the same nonce finds it and other nonces find what they found before. |
| Ledger.MissingNonceEntry | main.py:436-438 | An entry written for a missing nonce lands under "null". Another missing nonce does not find it. The string nonce "null" does. |
| RepoStore.Extend | main.py:387-395 | Committing appends to that repository's history and leaves every other repository unchanged. |
| RepoStore.RunWrites | main.py:483-503 | The write loop commits each reply's commit in order and stops at the first exception. Earlier commits stay, with no rollback. It completes exactly when no reply raised. It ends with the sha of the last commit. The create loop at main.py:387-395 is the same loop. |
| RepoStore.RunWritesCommits | main.py:387-395 | Position by position, the new history is the old one followed by the commits before the first exception. |
| Github.PushToGithub | main.py:362-456 | `push_to_github` itself. A raising `create_repo` leaves the ledger and the repositories as they were and yields the classified exception. Its full contract is stated by PushToGithubResult, PushToGithubLedger and PushToGithubHistory. |
| Github.Classify | main.py:442-456 | A `GithubException` with status 422 naming an existing repository becomes the conflict result. Any other `GithubException` is re-raised. Every other exception becomes the all-`None` tuple. |
| Github.PushToGithubResult | main.py:362-456 | The result follows the first exception among create_repo, the file writes and the LICENSE write. Without one, it is the repository URL, the Pages URL and the LICENSE sha. It is all `None` when the Pages request raised. |
| Github.PushToGithubLedger | main.py:428-440 | The ledger gains the record (task, repository URL, Pages URL) under the nonce's key exactly when every call went through. Otherwise it is unchanged. |
| Github.PushToGithubHistory | main.py:366-418 | A created repository's history is the `Add <name>` commits in dict order, then the LICENSE commit. A failure keeps the commits made before it. Other repositories do not change. |
| Github.PushToGithubUpdate | main.py:461-512 | `push_to_github_update` itself. An unknown nonce gives the all-`None` tuple and touches nothing. Its full contract is stated by PushToGithubUpdateCommits, PushToGithubUpdateResult and PushToGithubUpdateAbsent. |
| Github.PushToGithubUpdateCommits | main.py:474-503 | Each file is committed in order, as `Update <name>` when it could be read and updated and as `Add new file <name>` otherwise, up to the first file that can be neither. Only the recorded repository changes. |
| Github.PushToGithubUpdateResult | main.py:474-512 | The tuple is all `None` when some file failed. Otherwise it is the recorded URLs and the last commit's sha, which is `None` when there were no files. |
| Github.PushToGithubUpdateAbsent | main.py:471-512 | An unknown nonce or an unreachable repository gives the all-`None` tuple and commits nothing. |
| Notifier.Loop | main.py:201-213 | From a given attempt, with the delay doubled once per earlier attempt: delivery happens exactly when a 200 comes within the first five attempts, the attempts run up to and including the first 200, and each failed attempt sleeps the doubled delay. The first 200 is given by the reference definition FirstAccepted. |
| Notifier.Notify | main.py:200-213 | Delivery happens exactly when one of the first five replies is a 200. The loop stops right after the first 200. Undelivered means five attempts. The sleeps are 1, 2, 4, ... one per failed attempt. |
| Notifier.BackoffTotal | main.py:201-213 | The first n sleeps add up to 2^n - 1. |
| Notifier.NotifySleepTotal | main.py:200-213 | An undelivered notification sleeps 31 units in all. One delivered at attempt k sleeps 2^(k-1) - 1. |
| Orchestrator.ExtractFiles | main.py:531-532 | A missing brief raises exactly when the fallback is needed: no block, and output that is not blank. Both paths call it, at main.py:171 and main.py:310. |
| Orchestrator.ExtractFilesAnyBrief | main.py:531-545 | A given brief yields `extract_code_blocks` for it. Without a brief, when nothing is raised, the files are those any brief would give. |
| Orchestrator.Notified | main.py:189-198 | Only a non-empty evaluation URL is notified. The payload holds the request's email, task, round and nonce and the pushed tuple's Pages URL, repository URL and commit sha. The retries are those of Notify. The update path repeats it at main.py:316-325. |
| Orchestrator.CreatePath | main.py:76-219 | Case 1, a new nonce. The status is 200, 409 or 500. A rejection notifies nobody. A 200 notifies as Notified does for some tuple, and the notified Pages URL is the one in the reply. An exception before the push aborts with 500 and changes nothing. StatusMapping, LedgerWriteRule and EmptyTupleStillSucceeds state the rest. |
| Orchestrator.UpdatePath | main.py:225-346 | Case 2, a known nonce. The ledger never changes. The status is 200 or 500. A 500 notifies nobody. A 200 notifies as Notified does for some tuple, and the notified Pages URL is the one in the reply. An exception before the push aborts and changes nothing. UpdateResponse and OneRepositoryTouched state the rest. |
| Orchestrator.ReceiveTask | main.py:31-357 | The reply is 403 exactly when the secret differs. A request without a secret therefore passes when the server has none. A 403 changes nothing. The status is one of 200, 403, 409, 500. Only a creating request can change the ledger. The evaluation server is notified exactly for a 200 to a request naming it, and the Pages URL it is sent is the one in the reply. |
| Orchestrator.StatusMapping | main.py:31-357 | Each request's status equals a reference definition built from the first exception: 403, then 500 for an early exception, then 409 or 500 or 200 from `push_to_github`, and 200 on the update path. |
| Orchestrator.LedgerWriteRule | main.py:428-440 | The ledger is written exactly for a request that passes the secret, has a new nonce, meets no exception and sends the Pages request. It is written with that record. |
| Orchestrator.CreatedThenUpdated | main.py:70-76 | After such a write, the same nonce takes the update path. |
| Orchestrator.EmptyTupleStillSucceeds | main.py:454-456 | A non-GitHub exception during creation still answers 200 with no Pages URL. It writes no ledger entry and notifies with an all-`None` tuple. The handler then answers 200 at main.py:216-219. |
| Orchestrator.UpdateResponse | main.py:343-346 | The update path answers 200 with the recorded Pages URL, or with none when some file failed. |
| Orchestrator.NotifierIsInert | main.py:200-219 | The evaluation server's replies never change the reply, the ledger or the repositories. |
| Orchestrator.OneRepositoryTouched | main.py:476-479 | A request changes at most one repository: the task's on creation, the recorded URL's last segment on update. The creating path names its repository at main.py:366-367. |

## Left out

- The FastAPI application is not part of this model: JSON parsing of the request, the home page and the print logging. Request fields are modelled as optional strings (`round` as an optional integer). Request values of other JSON types are not modelled.
- The language-model call is not modelled: the prompt text (main.py:79-162, 229-299), the attachments and the checks. One reply stands for it, either the content or the exception that the call, `raise_for_status` or the JSON lookups raised.
- `get_existing_code_from_repo` (main.py:552-568) only feeds the update prompt. One reply stands for it, either success or the exception it raised.
- The PyGithub and HTTP calls are represented by their replies. The Pages request's reply status is never read, so only whether sending it raised is kept.
- Reading and writing the ledger file is not modelled; the ledger is a map passed in and out. A ledger file that fails to parse, and records with missing or non-string fields, are not modelled.
- `time.sleep` and `time.strftime('%Y')` are not modelled. Sleeps are recorded as a list of delays, and the year is a parameter of the account.
- The unreachable string at main.py:348-353 is not modelled.
- Concurrent requests sharing the ledger file are not modelled.
- Text is ASCII-only: `isspace`, `lower` and `\w` are modelled on ASCII. Unicode whitespace, case mapping and word characters are left out.
- Orchestrator.ExtractFiles: a brief that is present but not a string is not modelled.
- Github.Classify: `str(e)` of a `GithubException` is taken as the given text, not rebuilt from its status and data.
- Github.PushToGithub: GitHub's replies are parameters and are not tied to the account's state. A successful `create_repo` reply for a name that already exists starts that repository's history afresh, where GitHub would answer 422.
