/** `receive_task`, the handler of `POST /api-endpoint`. A request whose
    secret differs from the server's is refused with 403. Otherwise the nonce
    ledger decides the path: a nonce with no recorded repository creates
    one from freshly generated code, a known nonce updates the recorded
    repository. Either path answers 200 once the code is pushed, after
    telling the evaluation server when the request names one; a name clash
    on creation answers 409, and any exception that reaches the handler
    answers 500 with its text. */
module Orchestrator {
  import opened Base
  import opened Text
  import opened FileSet
  import opened Extract
  import opened Ledger
  import opened RepoStore
  import opened Github
  import opened Notifier

  /** The server's configuration: `MY_SECRET` (unset when the environment
      lacks it) and the GitHub account repositories are made in. */
  datatype Config = Config(secret: Option<string>, account: Account)

  /** The fields of the request body the handler reads; a missing field is
      `None`. */
  datatype Request = Request(
    secret: Option<string>,
    email: Option<string>,
    task: Option<string>,
    round: Option<int>,
    brief: Option<string>,
    evaluationUrl: Option<string>,
    nonce: Option<string>)

  /** What the services outside the program answer during one request: the
      language model (the reply's content, or the exception the call, the
      status check or the JSON lookups raised), the fetch of the existing
      repository's files, GitHub during creation and during update, and the
      evaluation server to each notification attempt. */
  datatype Services = Services(
    llm: Reply<string>,
    fetchExisting: Reply<()>,
    create: CreateReplies,
    update: UpdateReplies,
    notify: nat -> NotifyReply)

  /** The HTTP reply: the success body `{"status", "message", "pages_url"}`,
      or an error body `{"error": ...}` with its status code. */
  datatype Response =
    | Success(status: string, message: string, pagesUrl: Option<string>)
    | Rejected(code: int, error: string)

  function StatusCode(r: Response): int
  {
    match r
    case Success(_, _, _) => 200
    case Rejected(code, _) => code
  }

  /** The JSON body POSTed to the evaluation server. */
  datatype Payload = Payload(
    email: Option<string>,
    task: Option<string>,
    round: Option<int>,
    nonce: Option<string>,
    pagesUrl: Option<string>,
    repoUrl: Option<string>,
    commitSha: Option<string>)

  /** A notification: where it went, what it carried and how the retry loop
      went. */
  datatype Notification = Notification(url: string, payload: Payload, run: NotifyRun)

  /** Everything one request produces: the reply, the ledger and the GitHub
      account afterwards, and the notification if one was sent. */
  datatype Outcome = Outcome(response: Response, ledger: Ledger, store: Store, notification: Option<Notification>)

  const InvalidSecret: string := "Invalid secret"

  /** `str(e)` of the `AttributeError` that `brief.lower()` raises when the
      request has no brief. */
  const NoBriefError: string := "'NoneType' object has no attribute 'lower'"

  function ReceivedMessage(evaluationUrl: Option<string>): string
  {
    "Task received successfully. Notification sent to " + Show(evaluationUrl)
  }

  /** `extract_code_blocks(generated_code, brief)` with the request's brief,
      which may be missing: a missing brief raises exactly when the output
      has no block and is not blank. */
  function ExtractFiles(code: string, brief: Option<string>): (r: Reply<seq<Entry>>)
    ensures r.Raised? <==> brief.None? && Blocks(code) == [] && !IsBlank(code)
  {
    if brief.None? && Blocks(code) == [] && !IsBlank(code) then
      Raised(OtherError(NoBriefError))
    else
      Ok(ExtractCodeBlocks(code, brief.GetOr("")))
  }

  /** The brief is only read by the fallback: with a brief the files are
      those `extract_code_blocks` gives for it, and without one, when
      nothing is raised, they are the files any brief would give. */
  lemma ExtractFilesAnyBrief(code: string, brief: Option<string>)
    ensures brief.Some? ==> ExtractFiles(code, brief) == Ok(ExtractCodeBlocks(code, brief.value))
    ensures forall b :: ExtractFiles(code, brief).Ok? && brief.None? ==>
              ExtractFiles(code, brief).value == ExtractCodeBlocks(code, b)
  {
    forall b | ExtractFiles(code, brief).Ok? && brief.None?
      ensures ExtractFiles(code, brief).value == ExtractCodeBlocks(code, b)
    {
      if Blocks(code) == [] {
        assert IsBlank(code);
      }
    }
  }

  /** The notification step: only a non-empty evaluation URL is notified,
      with the request's identifying fields and the tuple the push gave. */
  function Notified(req: Request, t: Triple, replies: nat -> NotifyReply): (n: Option<Notification>)
    ensures n.Some? <==> Truthy(req.evaluationUrl)
    ensures n.Some? ==> n.value.url == req.evaluationUrl.value && n.value.run == Notify(replies)
    ensures n.Some? ==>
              n.value.payload == Payload(req.email, req.task, req.round, req.nonce,
                                         t.pagesUrl, t.repoUrl, t.commitSha)
  {
    if Truthy(req.evaluationUrl) then
      var p := Payload(req.email, req.task, req.round, req.nonce, t.pagesUrl, t.repoUrl, t.commitSha);
      Some(Notification(req.evaluationUrl.value, p, Notify(replies)))
    else None
  }

  /** The handler's `except Exception` arm: a 500 carrying the exception's
      text, with no further change. */
  function Aborted(f: Failure, ledger: Ledger, store: Store): Outcome
  {
    Outcome(Rejected(500, f.text), ledger, store, None)
  }

  /** The reply to what `push_to_github` handed back: 409 with the
      conflict message, 500 with the text of a re-raised exception, or 200
      with the tuple's Pages URL. */
  function CreateResponse(result: CreateResult, evaluationUrl: Option<string>): (r: Response)
    ensures r.Success? <==> result.Returned?
  {
    match result
    case NameConflict => Rejected(409, ConflictMessage)
    case Reraised(f) => Rejected(500, f.text)
    case Returned(t) => Success("200 ok", ReceivedMessage(evaluationUrl), t.pagesUrl)
  }

  /** The notification after a push that handed back a tuple. */
  function CreateNotification(req: Request, result: CreateResult, replies: nat -> NotifyReply): Option<Notification>
  {
    if result.Returned? then Notified(req, result.triple, replies) else None
  }

  /** Case 1: a new nonce. The model's reply is stripped and its blocks
      extracted, then `push_to_github` creates and fills the repository. */
  function CreatePath(cfg: Config, req: Request, svc: Services, ledger: Ledger, store: Store): (out: Outcome)
    ensures StatusCode(out.response) in {200, 409, 500}
    ensures out.response.Rejected? ==> out.notification.None?
    ensures out.response.Success? ==>
              exists t :: out.notification == Notified(req, t, svc.notify)
    ensures EarlyFailure(req, svc, true).Some? ==> out == Aborted(EarlyFailure(req, svc, true).value, ledger, store)
    ensures out.notification.Some? ==>
              out.response.Success? && out.notification.value.payload.pagesUrl == out.response.pagesUrl
  {
    match svc.llm
    case Raised(f) => Aborted(f, ledger, store)
    case Ok(content) =>
      match ExtractFiles(Strip(content), req.brief)
      case Raised(f) => Aborted(f, ledger, store)
      case Ok(files) =>
        var pushed := PushToGithub(cfg.account, req.task, files, req.nonce, svc.create, ledger, store);
        Outcome(CreateResponse(pushed.result, req.evaluationUrl), pushed.ledger, pushed.store,
                CreateNotification(req, pushed.result, svc.notify))
  }

  /** Case 2: a known nonce. The existing files are fetched for the prompt,
      the model's reply is extracted, and `push_to_github_update` commits the
      files to the recorded repository; its tuple is reported whatever it
      holds. */
  function UpdatePath(cfg: Config, req: Request, svc: Services, ledger: Ledger, store: Store): (out: Outcome)
    ensures out.ledger == ledger
    ensures StatusCode(out.response) in {200, 500}
    ensures out.response.Rejected? ==> out.notification.None?
    ensures out.response.Success? ==>
              exists t :: out.notification == Notified(req, t, svc.notify)
    ensures EarlyFailure(req, svc, false).Some? ==> out == Aborted(EarlyFailure(req, svc, false).value, ledger, store)
    ensures out.notification.Some? ==>
              out.response.Success? && out.notification.value.payload.pagesUrl == out.response.pagesUrl
  {
    match svc.fetchExisting
    case Raised(f) => Aborted(f, ledger, store)
    case Ok(_) =>
      match svc.llm
      case Raised(f) => Aborted(f, ledger, store)
      case Ok(content) =>
        match ExtractFiles(Strip(content), req.brief)
        case Raised(f) => Aborted(f, ledger, store)
        case Ok(files) =>
          var pushed := PushToGithubUpdate(files, req.nonce, svc.update, ledger, store);
          Outcome(Success("200 OK", ReceivedMessage(req.evaluationUrl), pushed.triple.pagesUrl),
                  ledger, pushed.store, Notified(req, pushed.triple, svc.notify))
  }

  /** `receive_task(request)`. The secret is compared first and a mismatch
      changes nothing; only the creating path writes the ledger; the reply
      is one of 200, 403, 409 and 500; the evaluation server hears of
      exactly the successful requests that name it. */
  function ReceiveTask(cfg: Config, req: Request, svc: Services, ledger: Ledger, store: Store): (out: Outcome)
    ensures out.response == Rejected(403, InvalidSecret) <==> req.secret != cfg.secret
    ensures req.secret != cfg.secret ==> out.ledger == ledger && out.store == store
    ensures StatusCode(out.response) in {200, 403, 409, 500}
    ensures !CreatesRepo(ledger, req.nonce) ==> out.ledger == ledger
    ensures out.notification.Some? <==> out.response.Success? && Truthy(req.evaluationUrl)
    ensures out.notification.Some? ==>
              out.notification.value.url == req.evaluationUrl.value &&
              out.notification.value.run == Notify(svc.notify)
    ensures out.notification.Some? ==>
              out.response.Success? && out.notification.value.payload.pagesUrl == out.response.pagesUrl
  {
    if req.secret != cfg.secret then
      Outcome(Rejected(403, InvalidSecret), ledger, store, None)
    else if CreatesRepo(ledger, req.nonce) then
      CreatePath(cfg, req, svc, ledger, store)
    else
      UpdatePath(cfg, req, svc, ledger, store)
  }

  // ---------------------------------------------------------------------
  // Reference definitions: what each request leads to, stated through the
  // first exception of each path rather than by running it.

  /** The exception that aborts the handler before any push: on the update
      path the fetch of the existing files, then (on both paths) the model
      call, then the extraction. */
  function EarlyFailure(req: Request, svc: Services, creates: bool): Option<Failure>
  {
    if !creates && svc.fetchExisting.Raised? then Some(svc.fetchExisting.error)
    else if svc.llm.Raised? then Some(svc.llm.error)
    else if ExtractFiles(Strip(svc.llm.value), req.brief).Raised? then
      Some(ExtractFiles(Strip(svc.llm.value), req.brief).error)
    else None
  }

  /** The files handed to GitHub when nothing aborted early. */
  function Generated(req: Request, svc: Services): seq<Entry>
    requires svc.llm.Ok? && ExtractFiles(Strip(svc.llm.value), req.brief).Ok?
  {
    ExtractFiles(Strip(svc.llm.value), req.brief).value
  }

  /** The status the first exception of `push_to_github` leads to: 409 for
      a name clash, 500 for any other `GithubException`, and 200 when there
      is none or it was some other exception, which empties the tuple. */
  function CreateStatus(f: Option<Failure>): int
  {
    match f
    case None => 200
    case Some(e) =>
      if e.GithubError? && e.status == 422 && Contains(e.text, "name already exists") then 409
      else if e.GithubError? then 500
      else 200
  }

  /** The status code each request gets: 403 for a wrong secret, 500 for
      an early exception, `CreateStatus` on the creating path and 200 on the
      updating path, whatever GitHub answers there. */
  function ExpectedStatus(cfg: Config, req: Request, svc: Services, ledger: Ledger): int
  {
    var creates := CreatesRepo(ledger, req.nonce);
    if req.secret != cfg.secret then 403
    else if EarlyFailure(req, svc, creates).Some? then 500
    else if !creates then 200
    else CreateStatus(CreateFailure(svc.create, |Generated(req, svc)|))
  }

  /** The creating path once the files are extracted: its outcome is made
      of what `push_to_github` gave. */
  lemma CreatePathPushed(cfg: Config, req: Request, svc: Services, ledger: Ledger, store: Store,
                         files: seq<Entry>, pushed: CreateOutcome)
    requires svc.llm.Ok? && ExtractFiles(Strip(svc.llm.value), req.brief) == Ok(files)
    requires pushed == PushToGithub(cfg.account, req.task, files, req.nonce, svc.create, ledger, store)
    ensures CreatePath(cfg, req, svc, ledger, store) ==
              Outcome(CreateResponse(pushed.result, req.evaluationUrl), pushed.ledger, pushed.store,
                      CreateNotification(req, pushed.result, svc.notify))
  {
  }

  /** The updating path once the files are extracted: its outcome is made
      of what `push_to_github_update` gave. */
  lemma UpdatePathPushed(cfg: Config, req: Request, svc: Services, ledger: Ledger, store: Store,
                         files: seq<Entry>, pushed: UpdateOutcome)
    requires svc.fetchExisting.Ok? && svc.llm.Ok? && ExtractFiles(Strip(svc.llm.value), req.brief) == Ok(files)
    requires pushed == PushToGithubUpdate(files, req.nonce, svc.update, ledger, store)
    ensures UpdatePath(cfg, req, svc, ledger, store) ==
              Outcome(Success("200 OK", ReceivedMessage(req.evaluationUrl), pushed.triple.pagesUrl),
                      ledger, pushed.store, Notified(req, pushed.triple, svc.notify))
  {
  }

  lemma CreatePathStatus(cfg: Config, req: Request, svc: Services, ledger: Ledger, store: Store, files: seq<Entry>)
    requires svc.llm.Ok? && ExtractFiles(Strip(svc.llm.value), req.brief) == Ok(files)
    ensures StatusCode(CreatePath(cfg, req, svc, ledger, store).response) == CreateStatus(CreateFailure(svc.create, |files|))
  {
    var pushed := PushToGithub(cfg.account, req.task, files, req.nonce, svc.create, ledger, store);
    CreatePathPushed(cfg, req, svc, ledger, store, files, pushed);
    PushToGithubResult(cfg.account, req.task, files, req.nonce, svc.create, ledger, store);
  }

  /** The status mapping: every request gets the status `ExpectedStatus`
      gives it. */
  lemma StatusMapping(cfg: Config, req: Request, svc: Services, ledger: Ledger, store: Store)
    ensures StatusCode(ReceiveTask(cfg, req, svc, ledger, store).response) == ExpectedStatus(cfg, req, svc, ledger)
  {
    if req.secret == cfg.secret && CreatesRepo(ledger, req.nonce) && EarlyFailure(req, svc, true).None? {
      CreatePathStatus(cfg, req, svc, ledger, store, Generated(req, svc));
    }
  }

  /** The request writes the ledger exactly when it passes the secret, has
      a new nonce, nothing aborts early, every GitHub call goes through and
      the Pages request is sent. */
  predicate WritesLedger(cfg: Config, req: Request, svc: Services, ledger: Ledger)
  {
    && req.secret == cfg.secret
    && CreatesRepo(ledger, req.nonce)
    && EarlyFailure(req, svc, true).None?
    && CreateFailure(svc.create, |Generated(req, svc)|).None?
    && svc.create.pagesSent
  }

  lemma CreatePathLedger(cfg: Config, req: Request, svc: Services, ledger: Ledger, store: Store, files: seq<Entry>)
    requires svc.llm.Ok? && ExtractFiles(Strip(svc.llm.value), req.brief) == Ok(files)
    ensures CreatePath(cfg, req, svc, ledger, store).ledger ==
              if CreateFailure(svc.create, |files|).None? && svc.create.pagesSent then
                ledger[Key(req.nonce) := Record(req.task, svc.create.createRepo.value,
                                                PagesUrl(cfg.account, RepoName(req.task)))]
              else ledger
  {
    PushToGithubLedger(cfg.account, req.task, files, req.nonce, svc.create, ledger, store);
  }

  /** The ledger write rule: such a request records the task, the new
      repository's URL and its Pages URL under the nonce's key; every other
      request leaves the ledger as it was. */
  lemma LedgerWriteRule(cfg: Config, req: Request, svc: Services, ledger: Ledger, store: Store)
    ensures ReceiveTask(cfg, req, svc, ledger, store).ledger ==
              if WritesLedger(cfg, req, svc, ledger) then
                ledger[Key(req.nonce) := Record(req.task, svc.create.createRepo.value,
                                                PagesUrl(cfg.account, RepoName(req.task)))]
              else ledger
  {
    if req.secret == cfg.secret && CreatesRepo(ledger, req.nonce) {
      if EarlyFailure(req, svc, true).None? {
        CreatePathLedger(cfg, req, svc, ledger, store, Generated(req, svc));
      } else {
        assert !WritesLedger(cfg, req, svc, ledger);
      }
    }
  }

  /** A created repository's entry is found by the next request with the
      same nonce, which therefore takes the updating path. */
  lemma CreatedThenUpdated(cfg: Config, req: Request, svc: Services, ledger: Ledger, store: Store)
    requires WritesLedger(cfg, req, svc, ledger) && req.nonce.Some?
    requires svc.create.createRepo.value != ""
    ensures !CreatesRepo(ReceiveTask(cfg, req, svc, ledger, store).ledger, req.nonce)
  {
    LedgerWriteRule(cfg, req, svc, ledger, store);
  }

  /** When creation hits an exception other than a `GithubException` (the
      Pages request failing, say), the handler still answers 200, with no
      Pages URL, and any notification carries an all-`None` tuple. */
  lemma EmptyTupleStillSucceeds(cfg: Config, req: Request, svc: Services, ledger: Ledger, store: Store)
    requires req.secret == cfg.secret && CreatesRepo(ledger, req.nonce) && EarlyFailure(req, svc, true).None?
    requires var f := CreateFailure(svc.create, |Generated(req, svc)|);
             f.None? ==> !svc.create.pagesSent
    requires var f := CreateFailure(svc.create, |Generated(req, svc)|);
             f.Some? ==> f.value.OtherError?
    ensures var out := ReceiveTask(cfg, req, svc, ledger, store);
            && out.response == Success("200 ok", ReceivedMessage(req.evaluationUrl), None)
            && out.ledger == ledger
            && (out.notification.Some? ==>
                  var p := out.notification.value.payload;
                  p.repoUrl.None? && p.pagesUrl.None? && p.commitSha.None?)
  {
    var files := Generated(req, svc);
    assert ReceiveTask(cfg, req, svc, ledger, store) == CreatePath(cfg, req, svc, ledger, store);
    var pushed := PushToGithub(cfg.account, req.task, files, req.nonce, svc.create, ledger, store);
    CreatePathPushed(cfg, req, svc, ledger, store, files, pushed);
    PushToGithubResult(cfg.account, req.task, files, req.nonce, svc.create, ledger, store);
    PushToGithubLedger(cfg.account, req.task, files, req.nonce, svc.create, ledger, store);
  }

  /** On the updating path nothing GitHub does is reported as an error: the
      reply is 200 with the recorded Pages URL when every file went through,
      and 200 with no Pages URL when some file could be neither updated nor
      added. */
  lemma UpdateResponse(cfg: Config, req: Request, svc: Services, ledger: Ledger, store: Store, rec: Record)
    requires req.secret == cfg.secret && Lookup(ledger, req.nonce) == Some(rec) && rec.repoUrl != ""
    requires EarlyFailure(req, svc, false).None? && svc.update.getRepo.Ok?
    ensures var out := ReceiveTask(cfg, req, svc, ledger, store);
            out.response ==
              Success("200 OK", ReceivedMessage(req.evaluationUrl),
                      if FirstFailedAttempt(svc.update.attempts, |Generated(req, svc)|) < |Generated(req, svc)|
                      then None else Some(rec.pagesUrl))
  {
    var files := Generated(req, svc);
    assert !CreatesRepo(ledger, req.nonce);
    assert ReceiveTask(cfg, req, svc, ledger, store) == UpdatePath(cfg, req, svc, ledger, store);
    var pushed := PushToGithubUpdate(files, req.nonce, svc.update, ledger, store);
    UpdatePathPushed(cfg, req, svc, ledger, store, files, pushed);
    PushToGithubUpdateResult(files, req.nonce, svc.update, ledger, store, rec);
  }

  lemma CreatePathInert(cfg: Config, req: Request, svc: Services, ledger: Ledger, store: Store,
                        other: nat -> NotifyReply)
    ensures var a := CreatePath(cfg, req, svc, ledger, store);
            var b := CreatePath(cfg, req, svc.(notify := other), ledger, store);
            a.response == b.response && a.ledger == b.ledger && a.store == b.store
  {
    var svc' := svc.(notify := other);
    assert EarlyFailure(req, svc', true) == EarlyFailure(req, svc, true);
    if EarlyFailure(req, svc, true).None? {
      var files := Generated(req, svc);
      var pushed := PushToGithub(cfg.account, req.task, files, req.nonce, svc.create, ledger, store);
      CreatePathPushed(cfg, req, svc, ledger, store, files, pushed);
      CreatePathPushed(cfg, req, svc', ledger, store, files, pushed);
    }
  }

  lemma UpdatePathInert(cfg: Config, req: Request, svc: Services, ledger: Ledger, store: Store,
                        other: nat -> NotifyReply)
    ensures var a := UpdatePath(cfg, req, svc, ledger, store);
            var b := UpdatePath(cfg, req, svc.(notify := other), ledger, store);
            a.response == b.response && a.ledger == b.ledger && a.store == b.store
  {
    var svc' := svc.(notify := other);
    assert EarlyFailure(req, svc', false) == EarlyFailure(req, svc, false);
    if EarlyFailure(req, svc, false).None? {
      var files := Generated(req, svc);
      var pushed := PushToGithubUpdate(files, req.nonce, svc.update, ledger, store);
      UpdatePathPushed(cfg, req, svc, ledger, store, files, pushed);
      UpdatePathPushed(cfg, req, svc', ledger, store, files, pushed);
    }
  }

  /** The notification is fire-and-forget: whatever the evaluation server
      answers, the reply, the ledger and the GitHub account come out the
      same. */
  lemma NotifierIsInert(cfg: Config, req: Request, svc: Services, ledger: Ledger, store: Store,
                        other: nat -> NotifyReply)
    ensures var a := ReceiveTask(cfg, req, svc, ledger, store);
            var b := ReceiveTask(cfg, req, svc.(notify := other), ledger, store);
            a.response == b.response && a.ledger == b.ledger && a.store == b.store
  {
    CreatePathInert(cfg, req, svc, ledger, store, other);
    UpdatePathInert(cfg, req, svc, ledger, store, other);
  }

  lemma CreatePathStore(cfg: Config, req: Request, svc: Services, ledger: Ledger, store: Store)
    ensures var out := CreatePath(cfg, req, svc, ledger, store);
            forall r :: r != RepoName(req.task) && r in store ==> r in out.store && out.store[r] == store[r]
  {
    if EarlyFailure(req, svc, true).None? && svc.create.createRepo.Ok? {
      var files := Generated(req, svc);
      PushToGithubHistory(cfg.account, req.task, files, req.nonce, svc.create, ledger, store);
    }
  }

  lemma UpdatePathStore(cfg: Config, req: Request, svc: Services, ledger: Ledger, store: Store, rec: Record)
    requires Lookup(ledger, req.nonce) == Some(rec)
    ensures var out := UpdatePath(cfg, req, svc, ledger, store);
            forall r :: r != LastSegment(rec.repoUrl) && r in store ==> r in out.store && out.store[r] == store[r]
  {
    if EarlyFailure(req, svc, false).None? && svc.update.getRepo.Ok? {
      var files := Generated(req, svc);
      PushToGithubUpdateCommits(files, req.nonce, svc.update, ledger, store, rec, LastSegment(rec.repoUrl));
    }
  }

  /** A request touches one repository at most: the one named after the
      task when it creates, the last segment of the recorded URL when it
      updates. Every other repository keeps its history. */
  lemma OneRepositoryTouched(cfg: Config, req: Request, svc: Services, ledger: Ledger, store: Store, name: string)
    requires CreatesRepo(ledger, req.nonce) ==> name == RepoName(req.task)
    requires !CreatesRepo(ledger, req.nonce) ==> name == LastSegment(Lookup(ledger, req.nonce).value.repoUrl)
    ensures var out := ReceiveTask(cfg, req, svc, ledger, store);
            forall r :: r != name && r in store ==> r in out.store && out.store[r] == store[r]
  {
    if req.secret == cfg.secret {
      if CreatesRepo(ledger, req.nonce) {
        CreatePathStore(cfg, req, svc, ledger, store);
      } else {
        UpdatePathStore(cfg, req, svc, ledger, store, Lookup(ledger, req.nonce).value);
      }
    }
  }
}
