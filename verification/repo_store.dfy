/** The GitHub account as the program sees it: each repository, by name, with
    the commits made to it on its `main` branch, oldest first. Creating a
    repository starts an empty history; `create_file` and `update_file` each
    add one commit. */
module RepoStore {
  import opened Base

  datatype Commit = Commit(path: string, message: string, content: string, sha: string)

  type Store = map<string, seq<Commit>>

  /** The commits of `repo`, none when it is not in the store. */
  function History(store: Store, repo: string): seq<Commit>
  {
    if repo in store then store[repo] else []
  }

  /** `repo` after `cs` have been committed to it, in order. */
  function Extend(store: Store, repo: string, cs: seq<Commit>): (r: Store)
    ensures History(r, repo) == History(store, repo) + cs
    ensures r.Keys == if cs == [] then store.Keys else store.Keys + {repo}
    ensures forall other :: other != repo && other in store ==> r[other] == store[other]
  {
    if cs == [] then store else store[repo := History(store, repo) + cs]
  }

  lemma ExtendTwice(store: Store, repo: string, a: seq<Commit>, b: seq<Commit>)
    ensures Extend(Extend(store, repo, a), repo, b) == Extend(store, repo, a + b)
  {
    var l := Extend(Extend(store, repo, a), repo, b);
    var r := Extend(store, repo, a + b);
    assert History(store, repo) + a + b == History(store, repo) + (a + b);
    if a == [] {
      assert a + b == b;
    } else if b == [] {
      assert a + b == a;
    } else {
      assert l.Keys == r.Keys;
      forall k | k in l.Keys
        ensures l[k] == r[k]
      {
        if k == repo {
          assert l[k] == History(l, repo) && r[k] == History(r, repo);
        }
      }
    }
  }

  /** The position of the first raised reply, or `|rs|` when every reply is
      a value. */
  function FirstRaised<T>(rs: seq<Reply<T>>): (j: nat)
    ensures j <= |rs|
    ensures forall i :: 0 <= i < j ==> rs[i].Ok?
    ensures j < |rs| ==> rs[j].Raised?
  {
    if rs == [] || rs[0].Raised? then 0 else 1 + FirstRaised(rs[1..])
  }

  /** The commits carried by the first `n` replies. */
  function Commits(rs: seq<Reply<Commit>>, n: nat): (cs: seq<Commit>)
    requires n <= |rs| && forall i :: 0 <= i < n ==> rs[i].Ok?
    ensures |cs| == n && forall i :: 0 <= i < n ==> cs[i] == rs[i].value
  {
    seq(n, i requires 0 <= i < n && rs[i].Ok? => rs[i].value)
  }

  /** How a run of file writes ended: every write went through, leaving the
      sha of the last commit (none when there was nothing to write), or
      write number `at` raised `failure`. Either way `store` holds every
      commit made before the end. */
  datatype Writes =
    | Written(store: Store, last: Option<string>)
    | Stopped(store: Store, failure: Failure, at: nat)

  /** A `for` loop making one commit per reply, in order, that stops at the
      first raised reply: the commits before it stay, the ones after it are
      never attempted, and nothing is rolled back. */
  function RunWrites(repo: string, steps: seq<Reply<Commit>>, store: Store): (w: Writes)
    ensures w.store == Extend(store, repo, Commits(steps, FirstRaised(steps)))
    ensures w.Written? <==> FirstRaised(steps) == |steps|
    ensures w.Written? ==> w.last == if steps == [] then None else Some(steps[|steps| - 1].value.sha)
    ensures w.Stopped? ==> w.at == FirstRaised(steps) && w.failure == steps[w.at].error
    decreases |steps|
  {
    if steps == [] then
      Written(store, None)
    else
      match steps[0]
      case Raised(f) =>
        Stopped(store, f, 0)
      case Ok(c) =>
        var rest := RunWrites(repo, steps[1..], Extend(store, repo, [c]));
        CommitsCons(steps);
        ExtendTwice(store, repo, [c], Commits(steps[1..], FirstRaised(steps[1..])));
        match rest
        case Written(s, last) => Written(s, if last.None? then Some(c.sha) else last)
        case Stopped(s, f, at) => Stopped(s, f, at + 1)
  }

  lemma CommitsCons(steps: seq<Reply<Commit>>)
    requires steps != [] && steps[0].Ok?
    ensures FirstRaised(steps) == 1 + FirstRaised(steps[1..])
    ensures Commits(steps, FirstRaised(steps)) ==
            [steps[0].value] + Commits(steps[1..], FirstRaised(steps[1..]))
  {
    var later := Commits(steps[1..], FirstRaised(steps[1..]));
    var all := Commits(steps, FirstRaised(steps));
    forall i | 0 <= i < |all|
      ensures all[i] == ([steps[0].value] + later)[i]
    {
      if i > 0 {
        assert steps[1..][i - 1] == steps[i];
      }
    }
  }

  /** Position by position: after a run, the history holds the old commits
      followed by the commit of each write before the first raised one. */
  lemma RunWritesCommits(repo: string, steps: seq<Reply<Commit>>, store: Store)
    ensures var h := History(RunWrites(repo, steps, store).store, repo);
            var before := History(store, repo);
            var j := FirstRaised(steps);
            && |h| == |before| + j
            && before <= h
            && forall i :: 0 <= i < j ==> h[|before| + i] == steps[i].value
  {
    var h := History(RunWrites(repo, steps, store).store, repo);
    var before := History(store, repo);
    var j := FirstRaised(steps);
    var cs := Commits(steps, j);
    assert h == before + cs;
    assert h[..|before|] == before;
    forall i | 0 <= i < j
      ensures h[|before| + i] == steps[i].value
    {
      assert (before + Commits(steps, j))[|before| + i] == Commits(steps, j)[i];
    }
  }

  /** A run of writes only ever adds commits after the ones `repo` had, and
      touches no other repository. */
  lemma RunWritesOnlyAppends(repo: string, steps: seq<Reply<Commit>>, store: Store)
    ensures History(store, repo) <= History(RunWrites(repo, steps, store).store, repo)
    ensures forall other :: other != repo && other in store ==>
              other in RunWrites(repo, steps, store).store &&
              RunWrites(repo, steps, store).store[other] == store[other]
  {
  }
}
