/** Publishing the generated files: `push_to_github` creates a repository
    for a new task, `push_to_github_update` commits to the repository
    recorded for a known nonce. Every call to GitHub is replaced by the reply
    it gave (a value or a raised exception); the store records the commits
    the program made. */
module Github {
  import opened Base
  import opened Text
  import opened FileSet
  import opened Ledger
  import opened RepoStore

  /** The account the service publishes under (`GITHUB_USERNAME`) and the
      year `time.strftime('%Y')` reads from the clock. */
  datatype Account = Account(user: string, year: string)

  /** The `(repo_url, pages_url, commit_sha)` tuple. */
  datatype Triple = Triple(repoUrl: Option<string>, pagesUrl: Option<string>, commitSha: Option<string>)

  const NullTriple := Triple(None, None, None)

  const ConflictMessage: string := "Name the task something different — this repo already exists."

  /** What `push_to_github` hands back: the tuple, the name-conflict dict, or
      an exception it re-raises. */
  datatype CreateResult = Returned(triple: Triple) | NameConflict | Reraised(failure: Failure)

  /** The handlers of `push_to_github`: a `GithubException` with status 422
      whose text says the name already exists becomes the name-conflict
      result, any other `GithubException` is re-raised, and every other
      exception becomes the all-`None` tuple. */
  function Classify(f: Failure): (r: CreateResult)
    ensures r.NameConflict? <==> f.GithubError? && f.status == 422 && Contains(f.text, "name already exists")
    ensures r.Reraised? <==> f.GithubError? && !r.NameConflict?
    ensures r.Reraised? ==> r.failure == f
    ensures r.Returned? ==> f.OtherError? && r.triple == NullTriple
  {
    match f
    case GithubError(status, text) =>
      if status == 422 && Contains(text, "name already exists") then NameConflict else Reraised(f)
    case OtherError(_) => Returned(NullTriple)
  }

  /** `repo_name = f"{task}"`. */
  function RepoName(task: Option<string>): string
  {
    Show(task)
  }

  /** The MIT license committed as `LICENSE`. */
  function LicenseText(account: Account): string
  {
    "MIT License\n\nCopyright (c) " + account.year + " " + account.user + "\n\n" + MitPermission
  }

  /** The permission notice and warranty disclaimer that follow the
      copyright line. */
  const MitPermission: string :=
    "Permission is hereby granted, free of charge, to any person obtaining a copy\n" +
    "of this software and associated documentation files (the \"Software\"), to deal\n" +
    "in the Software without restriction, including without limitation the rights\n" +
    "to use, copy, modify, merge, publish, distribute, sublicense, and/or sell\n" +
    "copies of the Software, and to permit persons to whom the Software is\n" +
    "furnished to do so, subject to the following conditions:\n\n" +
    "The above copyright notice and this permission notice shall be included in\n" +
    "all copies or substantial portions of the Software.\n\n" +
    "THE SOFTWARE IS PROVIDED \"AS IS\", WITHOUT WARRANTY OF ANY KIND, EXPRESS OR\n" +
    "IMPLIED, INCLUDING BUT NOT LIMITED TO THE WARRANTIES OF MERCHANTABILITY,\n" +
    "FITNESS FOR A PARTICULAR PURPOSE AND NONINFRINGEMENT.\n"

  /** `f"https://{GITHUB_USERNAME}.github.io/{repo_name}/"`. */
  function PagesUrl(account: Account, name: string): string
  {
    "https://" + account.user + ".github.io/" + name + "/"
  }

  /** The replies GitHub gives to `push_to_github`: to `create_repo` (the
      new repository's URL), to the `create_file` of file number `i` (the
      commit's sha), to the `create_file` of the license, and whether the
      Pages request was sent; its status is never looked at, but sending it
      can raise. */
  datatype CreateReplies = CreateReplies(
    createRepo: Reply<string>,
    fileWrites: nat -> Reply<string>,
    license: Reply<string>,
    pagesSent: bool)

  /** The commit `create_file` makes for file `e`, or the exception. */
  function AddStep(e: Entry, reply: Reply<string>): Reply<Commit>
  {
    match reply
    case Ok(sha) => Ok(Commit(e.name, "Add " + e.name, e.content, sha))
    case Raised(f) => Raised(f)
  }

  /** One `create_file` per generated file, in the dict's order. */
  function AddSteps(files: seq<Entry>, writes: nat -> Reply<string>): (steps: seq<Reply<Commit>>)
    ensures |steps| == |files|
    ensures forall i :: 0 <= i < |files| ==> steps[i] == AddStep(files[i], writes(i))
  {
    seq(|files|, i requires 0 <= i < |files| => AddStep(files[i], writes(i)))
  }

  datatype CreateOutcome = CreateOutcome(result: CreateResult, ledger: Ledger, store: Store)

  /** `push_to_github(task, brief, generated_files, nonce)`. */
  function PushToGithub(account: Account, task: Option<string>, files: seq<Entry>, nonce: Option<string>,
                        replies: CreateReplies, ledger: Ledger, store: Store): (out: CreateOutcome)
    ensures replies.createRepo.Raised? ==> out == CreateOutcome(Classify(replies.createRepo.error), ledger, store)
  {
    var name := RepoName(task);
    match replies.createRepo
    case Raised(f) => CreateOutcome(Classify(f), ledger, store)
    case Ok(repoUrl) =>
      var created := store[name := []];
      match RunWrites(name, AddSteps(files, replies.fileWrites), created)
      case Stopped(s, f, _) => CreateOutcome(Classify(f), ledger, s)
      case Written(s, _) =>
        match replies.license
        case Raised(f) => CreateOutcome(Classify(f), ledger, s)
        case Ok(sha) =>
          var s' := Extend(s, name, [Commit("LICENSE", "Add LICENSE", LicenseText(account), sha)]);
          if !replies.pagesSent then
            CreateOutcome(Returned(NullTriple), ledger, s')
          else
            var pagesUrl := PagesUrl(account, name);
            CreateOutcome(Returned(Triple(Some(repoUrl), Some(pagesUrl), Some(sha))),
                          ledger[Key(nonce) := Record(task, repoUrl, pagesUrl)], s')
  }

  /** The replies GitHub gives to `push_to_github_update`: to `get_repo`,
      and for file number `i` to its `get_contents`, `update_file` and
      `create_file` calls (the last is made only when one of the first two
      raised). */
  datatype FileAttempt = FileAttempt(read: Reply<string>, update: Reply<string>, create: Reply<string>)

  datatype UpdateReplies = UpdateReplies(getRepo: Reply<()>, attempts: nat -> FileAttempt)

  /** The commit made for file `e`: an update of the existing file when it
      could be read and updated, otherwise the file added as a new one; the
      exception when adding it fails too. */
  function UpdateStep(e: Entry, a: FileAttempt): Reply<Commit>
  {
    if a.read.Ok? && a.update.Ok? then
      Ok(Commit(e.name, "Update " + e.name, e.content, a.update.value))
    else
      match a.create
      case Ok(sha) => Ok(Commit(e.name, "Add new file " + e.name, e.content, sha))
      case Raised(f) => Raised(f)
  }

  function UpdateSteps(files: seq<Entry>, attempts: nat -> FileAttempt): (steps: seq<Reply<Commit>>)
    ensures |steps| == |files|
    ensures forall i :: 0 <= i < |files| ==> steps[i] == UpdateStep(files[i], attempts(i))
  {
    seq(|files|, i requires 0 <= i < |files| => UpdateStep(files[i], attempts(i)))
  }

  datatype UpdateOutcome = UpdateOutcome(triple: Triple, store: Store)

  /** `push_to_github_update(task, brief, generated_files, nonce)`: every
      exception is caught and becomes the all-`None` tuple. */
  function PushToGithubUpdate(files: seq<Entry>, nonce: Option<string>, replies: UpdateReplies,
                              ledger: Ledger, store: Store): (out: UpdateOutcome)
    ensures Lookup(ledger, nonce).None? ==> out == UpdateOutcome(NullTriple, store)
  {
    match Lookup(ledger, nonce)
    case None => UpdateOutcome(NullTriple, store)
    case Some(rec) =>
      var name := LastSegment(rec.repoUrl);
      match replies.getRepo
      case Raised(_) => UpdateOutcome(NullTriple, store)
      case Ok(_) =>
        match RunWrites(name, UpdateSteps(files, replies.attempts), store)
        case Stopped(s, _, _) => UpdateOutcome(NullTriple, s)
        case Written(s, last) => UpdateOutcome(Triple(Some(rec.repoUrl), Some(rec.pagesUrl), last), s)
  }

  /** Every `create_file` reply for the first `n` files is a value. */
  predicate AllWritten(writes: nat -> Reply<string>, n: nat)
  {
    forall i :: 0 <= i < n ==> writes(i).Ok?
  }

  /** The position of the first file whose `create_file` raised, or `n`. */
  function FirstFailedWrite(writes: nat -> Reply<string>, n: nat): (j: nat)
    ensures j <= n && AllWritten(writes, j)
    ensures j < n ==> writes(j).Raised?
  {
    if n == 0 then 0
    else
      var j := FirstFailedWrite(writes, n - 1);
      if j < n - 1 then j else if writes(n - 1).Raised? then n - 1 else n
  }

  /** The exception that ends `push_to_github` early, if any: the first one
      raised by `create_repo`, a file's `create_file`, or the license's
      `create_file`, in the order the calls are made. */
  function CreateFailure(replies: CreateReplies, n: nat): Option<Failure>
  {
    if replies.createRepo.Raised? then Some(replies.createRepo.error)
    else if FirstFailedWrite(replies.fileWrites, n) < n then
      Some(replies.fileWrites(FirstFailedWrite(replies.fileWrites, n)).error)
    else if replies.license.Raised? then Some(replies.license.error)
    else None
  }

  /** The commits `create_file` makes for the first `n` files when they all
      go through: one `Add <name>` commit per file, in the dict's order. */
  function AddCommits(files: seq<Entry>, writes: nat -> Reply<string>, n: nat): (cs: seq<Commit>)
    requires n <= |files| && AllWritten(writes, n)
    ensures |cs| == n
  {
    seq(n, i requires 0 <= i < n && writes(i).Ok? =>
      Commit(files[i].name, "Add " + files[i].name, files[i].content, writes(i).value))
  }

  function LicenseCommit(account: Account, sha: string): Commit
  {
    Commit("LICENSE", "Add LICENSE", LicenseText(account), sha)
  }

  lemma {:induction false} AddStepsRun(files: seq<Entry>, writes: nat -> Reply<string>)
    ensures FirstRaised(AddSteps(files, writes)) == FirstFailedWrite(writes, |files|)
    ensures var j := FirstFailedWrite(writes, |files|);
            Commits(AddSteps(files, writes), j) == AddCommits(files, writes, j)
  {
    var steps := AddSteps(files, writes);
    forall i | 0 <= i < |files|
      ensures steps[i].Ok? <==> writes(i).Ok?
    {
      assert steps[i] == AddStep(files[i], writes(i));
    }
  }

  /** What `push_to_github` returns: the classified first exception when a
      call raised; otherwise the tuple, which is all `None` when sending the
      Pages request raised, and otherwise holds the repository URL, the Pages
      URL and the sha of the license commit, the last one made. */
  lemma {:induction false} PushToGithubResult(account: Account, task: Option<string>, files: seq<Entry>,
                                              nonce: Option<string>, replies: CreateReplies, ledger: Ledger, store: Store)
    ensures var out := PushToGithub(account, task, files, nonce, replies, ledger, store);
            out.result == match CreateFailure(replies, |files|)
              case Some(f) => Classify(f)
              case None =>
                if replies.pagesSent then
                  Returned(Triple(Some(replies.createRepo.value), Some(PagesUrl(account, RepoName(task))),
                                  Some(replies.license.value)))
                else Returned(NullTriple)
  {
    AddStepsRun(files, replies.fileWrites);
  }

  /** The ledger gains an entry exactly when every call went through: the
      nonce's key then maps to the task, the repository URL and the Pages
      URL; every other outcome leaves the ledger as it was. */
  lemma {:induction false} PushToGithubLedger(account: Account, task: Option<string>, files: seq<Entry>,
                                              nonce: Option<string>, replies: CreateReplies, ledger: Ledger, store: Store)
    ensures var out := PushToGithub(account, task, files, nonce, replies, ledger, store);
            out.ledger ==
              if CreateFailure(replies, |files|).None? && replies.pagesSent then
                ledger[Key(nonce) := Record(task, replies.createRepo.value, PagesUrl(account, RepoName(task)))]
              else ledger
  {
    AddStepsRun(files, replies.fileWrites);
    var out := PushToGithub(account, task, files, nonce, replies, ledger, store);
    if replies.createRepo.Ok? {
      var name := RepoName(task);
      var w := RunWrites(name, AddSteps(files, replies.fileWrites), store[name := []]);
      if w.Stopped? {
        assert CreateFailure(replies, |files|).Some?;
        assert out.ledger == ledger;
      } else if replies.license.Raised? {
        assert out.ledger == ledger;
      } else if !replies.pagesSent {
        assert out.ledger == ledger;
      } else {
        assert CreateFailure(replies, |files|).None?;
        assert out.ledger == ledger[Key(nonce) := Record(task, replies.createRepo.value, PagesUrl(account, name))];
      }
    }
  }

  /** Once the repository is created its history is the files' commits in
      order, then the license commit; a failed write ends the history after
      the files written before it, with nothing rolled back. No other
      repository changes. */
  lemma {:induction false} PushToGithubHistory(account: Account, task: Option<string>, files: seq<Entry>,
                                               nonce: Option<string>, replies: CreateReplies, ledger: Ledger, store: Store)
    requires replies.createRepo.Ok?
    ensures var out := PushToGithub(account, task, files, nonce, replies, ledger, store);
            var name := RepoName(task);
            var j := FirstFailedWrite(replies.fileWrites, |files|);
            && name in out.store
            && (forall r :: r != name && r in store ==> r in out.store && out.store[r] == store[r])
            && (j < |files| || replies.license.Raised? ==> History(out.store, name) == AddCommits(files, replies.fileWrites, j))
            && (j == |files| && replies.license.Ok? ==>
                  History(out.store, name) ==
                    AddCommits(files, replies.fileWrites, j) + [LicenseCommit(account, replies.license.value)])
  {
    AddStepsRun(files, replies.fileWrites);
    var name := RepoName(task);
    var created := store[name := []];
    assert History(created, name) == [];
    var w := RunWrites(name, AddSteps(files, replies.fileWrites), created);
    var j := FirstFailedWrite(replies.fileWrites, |files|);
    assert History(w.store, name) == AddCommits(files, replies.fileWrites, j);
    assert forall r :: r != name && r in store ==> r in w.store && w.store[r] == store[r];
  }

  /** The file was read and updated in place. */
  predicate Updated(a: FileAttempt)
  {
    a.read.Ok? && a.update.Ok?
  }

  /** Neither updating nor adding the file went through. */
  predicate AttemptFailed(a: FileAttempt)
  {
    !Updated(a) && a.create.Raised?
  }

  /** The sha of the commit a successful attempt made. */
  function AttemptSha(a: FileAttempt): string
    requires !AttemptFailed(a)
  {
    if Updated(a) then a.update.value else a.create.value
  }

  /** The position of the first file that could be neither updated nor
      added, or `n`. */
  function FirstFailedAttempt(attempts: nat -> FileAttempt, n: nat): (j: nat)
    ensures j <= n
    ensures forall i :: 0 <= i < j ==> !AttemptFailed(attempts(i))
    ensures j < n ==> AttemptFailed(attempts(j))
  {
    if n == 0 then 0
    else
      var j := FirstFailedAttempt(attempts, n - 1);
      if j < n - 1 then j else if AttemptFailed(attempts(n - 1)) then n - 1 else n
  }

  /** The commit made for file `i`, which names what happened to it. */
  predicate CommitFor(c: Commit, e: Entry, a: FileAttempt)
    requires !AttemptFailed(a)
  {
    && c.path == e.name
    && c.message == (if Updated(a) then "Update " else "Add new file ") + e.name
    && c.content == e.content
    && c.sha == AttemptSha(a)
  }

  lemma {:induction false} UpdateStepsRun(files: seq<Entry>, attempts: nat -> FileAttempt)
    ensures FirstRaised(UpdateSteps(files, attempts)) == FirstFailedAttempt(attempts, |files|)
    ensures var j := FirstFailedAttempt(attempts, |files|);
            forall i :: 0 <= i < j ==>
              UpdateSteps(files, attempts)[i].Ok? &&
              CommitFor(UpdateSteps(files, attempts)[i].value, files[i], attempts(i))
  {
    var steps := UpdateSteps(files, attempts);
    forall i | 0 <= i < |files|
      ensures steps[i].Ok? <==> !AttemptFailed(attempts(i))
      ensures steps[i].Ok? ==> CommitFor(steps[i].value, files[i], attempts(i))
    {
      assert steps[i] == UpdateStep(files[i], attempts(i));
    }
  }

  /** For a nonce the ledger knows, once the repository is fetched, each file
      is committed in the dict's order, as an update when it could be read
      and updated and as a new file otherwise, up to the first file that can
      be neither: the commits before it stay. No other repository changes. */
  lemma {:induction false} PushToGithubUpdateCommits(files: seq<Entry>, nonce: Option<string>, replies: UpdateReplies,
                                                     ledger: Ledger, store: Store, rec: Record, name: string)
    requires Lookup(ledger, nonce) == Some(rec) && replies.getRepo.Ok? && name == LastSegment(rec.repoUrl)
    ensures var h := History(PushToGithubUpdate(files, nonce, replies, ledger, store).store, name);
            var before := History(store, name);
            var j := FirstFailedAttempt(replies.attempts, |files|);
            && |h| == |before| + j
            && before <= h
            && (forall i :: 0 <= i < j ==> CommitFor(h[|before| + i], files[i], replies.attempts(i)))
    ensures var out := PushToGithubUpdate(files, nonce, replies, ledger, store);
            forall r :: r != name && r in store ==> r in out.store && out.store[r] == store[r]
  {
    UpdateUnfold(files, nonce, replies, ledger, store);
    UpdateHistory(name, files, replies.attempts, store);
    RunWritesOnlyAppends(name, UpdateSteps(files, replies.attempts), store);
  }

  /** What `push_to_github_update` returns for a nonce the ledger knows once
      the repository is fetched: the all-`None` tuple when some file could be
      neither updated nor added, and otherwise the recorded repository URL,
      the recorded Pages URL and the sha of the last commit, or no sha when
      there were no files. */
  lemma {:induction false} PushToGithubUpdateResult(files: seq<Entry>, nonce: Option<string>, replies: UpdateReplies,
                                 ledger: Ledger, store: Store, rec: Record)
    requires Lookup(ledger, nonce) == Some(rec) && replies.getRepo.Ok?
    ensures PushToGithubUpdate(files, nonce, replies, ledger, store).triple ==
              if FirstFailedAttempt(replies.attempts, |files|) < |files| then NullTriple
              else Triple(Some(rec.repoUrl), Some(rec.pagesUrl),
                          if files == [] then None else Some(AttemptSha(replies.attempts(|files| - 1))))
  {
    UpdateUnfold(files, nonce, replies, ledger, store);
    LastShaOfRun(LastSegment(rec.repoUrl), files, replies.attempts, store);
  }

  lemma {:induction false} LastShaOfRun(name: string, files: seq<Entry>, attempts: nat -> FileAttempt, store: Store)
    ensures var w := RunWrites(name, UpdateSteps(files, attempts), store);
            (w.Written? <==> FirstFailedAttempt(attempts, |files|) == |files|) &&
            (w.Written? && files != [] ==> w.last == Some(AttemptSha(attempts(|files| - 1))))
  {
    var steps := UpdateSteps(files, attempts);
    UpdateStepsRun(files, attempts);
    if files != [] {
      assert steps[|files| - 1] == UpdateStep(files[|files| - 1], attempts(|files| - 1));
    }
  }

  lemma {:induction false} UpdateUnfold(files: seq<Entry>, nonce: Option<string>, replies: UpdateReplies, ledger: Ledger, store: Store)
    requires Lookup(ledger, nonce).Some? && replies.getRepo.Ok?
    ensures var rec := Lookup(ledger, nonce).value;
            var w := RunWrites(LastSegment(rec.repoUrl), UpdateSteps(files, replies.attempts), store);
            var out := PushToGithubUpdate(files, nonce, replies, ledger, store);
            && out.store == w.store
            && out.triple == if w.Stopped? then NullTriple else Triple(Some(rec.repoUrl), Some(rec.pagesUrl), w.last)
  {
  }

  lemma {:induction false} UpdateHistory(name: string, files: seq<Entry>, attempts: nat -> FileAttempt, store: Store)
    ensures var w := RunWrites(name, UpdateSteps(files, attempts), store);
            var j := FirstFailedAttempt(attempts, |files|);
            var before := History(store, name);
            && |History(w.store, name)| == |before| + j
            && before <= History(w.store, name)
            && (forall i :: 0 <= i < j ==> CommitFor(History(w.store, name)[|before| + i], files[i], attempts(i)))
  {
    UpdateStepsRun(files, attempts);
    RunWritesCommits(name, UpdateSteps(files, attempts), store);
  }

  /** A nonce the ledger does not know, or a repository that cannot be
      fetched, gives the all-`None` tuple and commits nothing. */
  lemma PushToGithubUpdateAbsent(files: seq<Entry>, nonce: Option<string>, replies: UpdateReplies,
                                 ledger: Ledger, store: Store)
    requires Lookup(ledger, nonce).None? || replies.getRepo.Raised?
    ensures PushToGithubUpdate(files, nonce, replies, ledger, store) == UpdateOutcome(NullTriple, store)
  {
  }
}
