/** Waiting for a Kubernetes Job by polling its status against a deadline. */
module JobPolling {
  import opened Text

  datatype Status = Running | Succeeded | Failed(detail: string)

  datatype End = Completed | JobFailed(detail: string) | RequestFailed | TimedOut

  /** The world the loop runs in. Times are in milliseconds. The k-th request takes cost(k), reads the
    status readAfter(k) into it, and may fail. statusAt is the Job's status as the API shows it. */
  datatype Cluster = Cluster(cost: nat -> nat, readAfter: nat -> nat, breaks: nat -> bool, statusAt: nat -> Status)

  ghost predicate Plausible(c: Cluster, longest: nat) {
    forall k: nat :: c.readAfter(k) <= c.cost(k) <= longest
  }

  /** How the wait goes: when it starts, how long it lasts at most, how long it sleeps between requests, and
    a bound on the time of a request. */
  datatype Wait = Wait(start: nat, timeout: nat, pollInterval: nat, longest: nat)

  /** From time t, or from the start if that is later, the Job shows its final status for at least the time of
    one sleep and two requests. It may be reaped after that. */
  ghost predicate ShowsFinal(c: Cluster, w: Wait, t: nat, final: Status) {
    && !final.Running?
    && var from := if t < w.start then w.start else t;
       forall u: nat :: t <= u <= from + w.pollInterval + 2 * w.longest ==> c.statusAt(u) == final
  }

  /** When request k begins: after the requests before it, each with the sleep that follows it. */
  function Begin(c: Cluster, start: nat, pollInterval: nat, k: nat): nat {
    if k == 0 then start else Begin(c, start, pollInterval, k - 1) + c.cost(k - 1) + pollInterval
  }

  /** What request k leads to; None if the wait goes on. */
  function Verdict(c: Cluster, start: nat, timeout: nat, pollInterval: nat, k: nat): Option<End> {
    var begin := Begin(c, start, pollInterval, k);
    if c.breaks(k) then Some(RequestFailed)
    else
      match c.statusAt(begin + c.readAfter(k))
      case Succeeded => Some(Completed)
      case Failed(detail) => Some(JobFailed(detail))
      case Running => if begin + c.cost(k) > start + timeout then Some(TimedOut) else None
  }

  /** Request last is the first with a verdict. */
  ghost predicate EndsWith(c: Cluster, start: nat, timeout: nat, pollInterval: nat, last: nat, end: End) {
    && (forall k :: 0 <= k < last ==> Verdict(c, start, timeout, pollInterval, k) == None)
    && Verdict(c, start, timeout, pollInterval, last) == Some(end)
  }

  /** As long as the wait goes on, a Job that comes to show its final status did so after the last read. */
  lemma {:induction false} NotFinalYet(c: Cluster, w: Wait, t: nat, final: Status, k: nat)
    requires Plausible(c, w.longest) && ShowsFinal(c, w, t, final)
    requires forall j :: 0 <= j < k ==> Verdict(c, w.start, w.timeout, w.pollInterval, j) == None
    ensures w.start <= Begin(c, w.start, w.pollInterval, k)
    ensures k > 0 ==> t > w.start && Begin(c, w.start, w.pollInterval, k) <= t + w.pollInterval + w.longest
  {
    if k > 0 {
      NotFinalYet(c, w, t, final, k - 1);
      assert Verdict(c, w.start, w.timeout, w.pollInterval, k - 1) == None;
    }
  }

  /** What the wait promises about a Job that comes to show a final status: if it does so by the deadline less
    the longest request, and for as long as one sleep and two requests take, the wait never ends by its own
    timeout; if it shows it from the start, that is what the wait ends with unless a request breaks. */
  lemma FinalIsSeen(c: Cluster, w: Wait, t: nat, final: Status, last: nat, end: End)
    requires Plausible(c, w.longest) && ShowsFinal(c, w, t, final)
    requires EndsWith(c, w.start, w.timeout, w.pollInterval, last, end)
    ensures t + w.longest <= w.start + w.timeout ==> end != TimedOut
    ensures t <= w.start ==> end == RequestFailed || end == (if final.Succeeded? then Completed else JobFailed(final.detail))
  {
    NotFinalYet(c, w, t, final, last);
    assert Plausible(c, w.longest) && c.readAfter(last) <= c.cost(last) <= w.longest;
  }

  /** `_wait_for_completion`, started at start. It makes requests with the poll interval between them until
    one has a verdict, by what it reads or by the deadline, and that is its end. It ends at most one poll
    interval and one request after the deadline, and the status it reports is one the Job showed. */
  method WaitForCompletion(c: Cluster, start: nat, timeout: nat, pollInterval: nat, ghost longest: nat)
    returns (end: End, at: nat, last: nat)
    requires Plausible(c, longest) && forall k: nat :: pollInterval + c.cost(k) > 0
    ensures at <= start + timeout + pollInterval + longest
    ensures EndsWith(c, start, timeout, pollInterval, last, end) && at == Begin(c, start, pollInterval, last) + c.cost(last)
    ensures end.TimedOut? ==> at > start + timeout
    ensures end.RequestFailed? <==> c.breaks(last)
    ensures end.Completed? ==> exists u: nat :: start <= u <= at && c.statusAt(u) == Succeeded
    ensures end.JobFailed? ==> exists u: nat :: start <= u <= at && c.statusAt(u) == Failed(end.detail)
  {
    var deadline := start + timeout;
    var now := start;
    var k := 0;
    while true
      invariant start <= now <= deadline + pollInterval
      invariant now == Begin(c, start, pollInterval, k)
      invariant forall j :: 0 <= j < k ==> Verdict(c, start, timeout, pollInterval, j) == None
      decreases deadline + pollInterval - now
    {
      var readAt := now + c.readAfter(k);
      now := now + c.cost(k);
      if c.breaks(k) {
        return RequestFailed, now, k;
      }
      match c.statusAt(readAt) {
        case Succeeded => return Completed, now, k;
        case Failed(detail) => return JobFailed(detail), now, k;
        case Running =>
      }
      if now > deadline {
        return TimedOut, now, k;
      }
      now := now + pollInterval;
      k := k + 1;
    }
  }

  const BUFFER_MS: nat := 60_000

  /** The launcher waits for the Job's own deadline plus a buffer of a minute. If no request takes longer
    than longest, a Job that shows its final status by its own deadline plus the rest of the minute is
    reported by that status. */
  method LaunchAndWait(c: Cluster, start: nat, jobTimeout: nat, pollInterval: nat, ghost longest: nat)
    returns (end: End, at: nat)
    requires Plausible(c, longest) && forall k: nat :: pollInterval + c.cost(k) > 0
    ensures var w := Wait(start, jobTimeout + 60_000, pollInterval, longest);
            forall t: nat, final :: ShowsFinal(c, w, t, final) && t + longest <= start + jobTimeout + 60_000 ==> end != TimedOut
    ensures end.TimedOut? ==> at > start + jobTimeout + 60_000
    ensures at <= start + jobTimeout + 60_000 + pollInterval + longest
  {
    var last;
    end, at, last := WaitForCompletion(c, start, jobTimeout + BUFFER_MS, pollInterval, longest);
    ghost var w := Wait(start, jobTimeout + 60_000, pollInterval, longest);
    forall t: nat, final | ShowsFinal(c, w, t, final) && t + longest <= start + jobTimeout + 60_000
      ensures end != TimedOut
    {
      FinalIsSeen(c, w, t, final, last, end);
    }
  }
}
