/** Telling the evaluation server about a deployment: up to five POSTs of
    the same payload, stopping at the first reply with status 200. After any
    other status, or an exception while sending, the loop sleeps and then
    doubles the delay; the delay starts at 1, so the sleeps run 1, 2, 4, 8,
    16, and the fifth failure is followed by a sleep too. Nothing the server
    says is reported back to the caller. */
module Notifier {

  const MaxAttempts: nat := 5

  /** What one POST produced: a reply with its status code, or an
      exception. */
  datatype NotifyReply = Status(code: int) | TransportError

  /** How the loop went: the POSTs made, the sleeps in order, and whether
      one of them was answered with 200. */
  datatype NotifyRun = NotifyRun(attempts: nat, sleeps: seq<nat>, delivered: bool)

  predicate Accepted(r: NotifyReply)
  {
    r.Status? && r.code == 200
  }

  function Pow2(n: nat): (p: nat)
    ensures p >= 1
  {
    if n == 0 then 1 else 2 * Pow2(n - 1)
  }

  /** The sleeps after `n` failed attempts: 1, 2, 4, ... */
  function Backoff(n: nat): (ds: seq<nat>)
    ensures |ds| == n && forall i :: 0 <= i < n ==> ds[i] == Pow2(i)
  {
    seq(n, i requires 0 <= i < n => Pow2(i))
  }

  /** The first attempt, among the allowed ones, that is answered with 200;
      `MaxAttempts` when there is none. */
  function FirstAccepted(replies: nat -> NotifyReply, from: nat): (k: nat)
    requires from <= MaxAttempts
    ensures from <= k <= MaxAttempts
    ensures forall i :: from <= i < k ==> !Accepted(replies(i))
    ensures k < MaxAttempts ==> Accepted(replies(k))
    decreases MaxAttempts - from
  {
    if from == MaxAttempts || Accepted(replies(from)) then from else FirstAccepted(replies, from + 1)
  }

  /** The loop from attempt number `attempt` on; the delay has doubled once
      per earlier attempt. */
  function Loop(replies: nat -> NotifyReply, attempt: nat, delay: nat): (run: NotifyRun)
    requires attempt <= MaxAttempts && delay == Pow2(attempt)
    ensures var k := FirstAccepted(replies, attempt);
            && run.delivered == (k < MaxAttempts)
            && run.attempts == (if k < MaxAttempts then k + 1 else MaxAttempts) - attempt
            && |run.sleeps| == k - attempt
            && forall i :: 0 <= i < |run.sleeps| ==> run.sleeps[i] == Pow2(attempt + i)
    decreases MaxAttempts - attempt
  {
    if attempt == MaxAttempts then NotifyRun(0, [], false)
    else if Accepted(replies(attempt)) then NotifyRun(1, [], true)
    else
      var rest := Loop(replies, attempt + 1, delay * 2);
      var run := NotifyRun(rest.attempts + 1, [delay] + rest.sleeps, rest.delivered);
      assert forall i :: 1 <= i < |run.sleeps| ==> run.sleeps[i] == rest.sleeps[i - 1];
      run
  }

  /** `for attempt in range(5)` with `delay = 1`: the server is reached
      exactly when one of the five replies is a 200, the loop stops right
      after the first one, and every failed attempt before it costs one sleep
      of the doubling delay. */
  function Notify(replies: nat -> NotifyReply): (run: NotifyRun)
    ensures run.delivered <==> exists k :: 0 <= k < MaxAttempts && Accepted(replies(k))
    ensures 1 <= run.attempts <= MaxAttempts
    ensures run.delivered ==> Accepted(replies(run.attempts - 1)) &&
                              forall i :: 0 <= i < run.attempts - 1 ==> !Accepted(replies(i))
    ensures !run.delivered ==> run.attempts == MaxAttempts
    ensures run.sleeps == Backoff(if run.delivered then run.attempts - 1 else MaxAttempts)
  {
    var run := Loop(replies, 0, 1);
    var k := FirstAccepted(replies, 0);
    assert k < MaxAttempts ==> Accepted(replies(k));
    run
  }

  /** The sleeps add up to one less than the next power of two. */
  lemma {:induction false} BackoffTotal(n: nat)
    ensures Sum(Backoff(n)) == Pow2(n) - 1
  {
    if n > 0 {
      BackoffTotal(n - 1);
      assert Backoff(n) == Backoff(n - 1) + [Pow2(n - 1)];
      SumSnoc(Backoff(n - 1), Pow2(n - 1));
    }
  }

  function Sum(xs: seq<nat>): nat
  {
    if xs == [] then 0 else xs[0] + Sum(xs[1..])
  }

  lemma {:induction false} SumSnoc(xs: seq<nat>, x: nat)
    ensures Sum(xs + [x]) == Sum(xs) + x
    decreases |xs|
  {
    if xs == [] {
      assert [] + [x] == [x];
    } else {
      assert (xs + [x])[1..] == xs[1..] + [x];
      SumSnoc(xs[1..], x);
    }
  }

  /** Five failures cost 1 + 2 + 4 + 8 + 16 = 31 units of sleep; a delivery
      at attempt `k` costs 2^(k-1) - 1 before it. */
  lemma NotifySleepTotal(replies: nat -> NotifyReply)
    ensures var run := Notify(replies);
            Sum(run.sleeps) == if run.delivered then Pow2(run.attempts - 1) - 1 else 31
  {
    var run := Notify(replies);
    BackoffTotal(if run.delivered then run.attempts - 1 else MaxAttempts);
    assert Pow2(5) == 32;
  }
}
