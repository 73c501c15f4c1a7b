/** The S3/SQS ingress (s3sqs.go) as a step system: one draining loop, workers limited by a semaphore, and Close. */
module IngestPermits {
  /** Where the drain loop is: between messages, with a message, with an acknowledged one, at record `next` of
      `count`, or holding a permit for that record. */
  datatype Drain =
    | Waiting
    | Received(msg: int)
    | Acknowledged(msg: int)
    | Working(msg: int, next: nat, count: nat)
    | Holding(msg: int, next: nat, count: nat)
    | Returned

  datatype Closing = Open | Cancelled | Closed

  /** `limit` permits, `held` of them taken; ingests downloading and running the handler; the messages acknowledged and
      those whose records were started; how many handlers and ingests ever started; how many records there were in all
      messages parsed, how many of them were skipped and how many refused a permit. */
  datatype State = State(
    limit: nat, held: int, drain: Drain, closing: Closing,
    loading: nat, handling: nat,
    acked: set<int>, begun: set<int>, ingests: nat, handlers: nat,
    records: nat, skipped: nat, refused: nat)

  datatype Step =
    | Receive(msg: int)              // a message with a body
    | Acknowledge(ok: bool)          // DeleteMessage, or no receipt handle
    | Parse(count: nat)              // the records of an acknowledged message
    | Unparsable
    | SkipRecord                     // an object key that cannot be unescaped
    | Acquire
    | AcquireFails                   // only once the context is cancelled
    | Spawn                          // go s.ingest(...)
    | EndMessage
    | Stop                           // <-ctx.Done()
    | Loaded
    | LoadFails
    | HandlerReturns
    | Cancel
    | CloseAcquires

  ghost predicate Takes(s: State, step: Step, s': State) {
    match step
    case Receive(m) => s.drain == Waiting && s' == s.(drain := Received(m))
    case Acknowledge(ok) =>
      && s.drain.Received?
      && s' == if ok then s.(drain := Acknowledged(s.drain.msg), acked := s.acked + {s.drain.msg})
               else s.(drain := Waiting)
    case Parse(n) =>
      s.drain.Acknowledged? && s' == s.(drain := Working(s.drain.msg, 0, n), records := s.records + n)
    case Unparsable => s.drain.Acknowledged? && s' == s.(drain := Waiting)
    case SkipRecord =>
      && s.drain.Working? && s.drain.next < s.drain.count
      && s' == s.(drain := Working(s.drain.msg, s.drain.next + 1, s.drain.count), skipped := s.skipped + 1)
    case Acquire =>
      && s.drain.Working? && s.drain.next < s.drain.count && s.held + 1 <= s.limit
      && s' == s.(held := s.held + 1, drain := Holding(s.drain.msg, s.drain.next, s.drain.count))
    case AcquireFails =>
      && s.drain.Working? && s.drain.next < s.drain.count && !s.closing.Open?
      && s' == s.(drain := Working(s.drain.msg, s.drain.next + 1, s.drain.count), refused := s.refused + 1)
    case Spawn =>
      && s.drain.Holding?
      && s' == s.(drain := Working(s.drain.msg, s.drain.next + 1, s.drain.count), loading := s.loading + 1,
                  begun := s.begun + {s.drain.msg}, ingests := s.ingests + 1)
    case EndMessage => s.drain.Working? && s.drain.next >= s.drain.count && s' == s.(drain := Waiting)
    case Stop => s.drain == Waiting && !s.closing.Open? && s' == s.(drain := Returned)
    case Loaded =>
      s.loading > 0 && s' == s.(loading := s.loading - 1, handling := s.handling + 1, handlers := s.handlers + 1)
    case LoadFails => s.loading > 0 && s' == s.(loading := s.loading - 1, held := s.held - 1)
    case HandlerReturns => s.handling > 0 && s' == s.(handling := s.handling - 1, held := s.held - 1)
    case Cancel => s.closing.Open? && s' == s.(closing := Cancelled)
    case CloseAcquires =>
      s.closing.Cancelled? && s.held + s.limit <= s.limit && s' == s.(closing := Closed, held := s.held + s.limit)
  }

  ghost predicate Initial(s: State, limit: nat) {
    limit > 0 && s == State(limit, 0, Waiting, Open, 0, 0, {}, {}, 0, 0, 0, 0, 0)
  }

  ghost predicate Behaviour(states: seq<State>, steps: seq<Step>, limit: nat) {
    && |states| == |steps| + 1 && Initial(states[0], limit)
    && forall i :: 0 <= i < |steps| ==> Takes(states[i], steps[i], states[i + 1])
  }

  /** Permits are held by ingests in flight, by the loop about to start one, and by Close. */
  ghost predicate Inv(s: State) {
    && s.limit > 0 && s.held <= s.limit
    && s.held == s.loading + s.handling + (if s.drain.Holding? then 1 else 0)
                 + (if s.closing.Closed? then s.limit else 0)
    && (s.drain.Acknowledged? || s.drain.Working? || s.drain.Holding? ==> s.drain.msg in s.acked)
    && s.begun <= s.acked
    && s.ingests + s.skipped + s.refused + Left(s.drain) == s.records
    && (s.drain.Working? ==> s.drain.next <= s.drain.count) && (s.drain.Holding? ==> s.drain.next < s.drain.count)
    && (s.refused > 0 ==> !s.closing.Open?)
  }

  /** The records of the current message still to come. */
  function Left(d: Drain): int { if d.Working? || d.Holding? then d.count - d.next else 0 }

  lemma StepKeepsInv(s: State, step: Step, s': State)
    requires Inv(s) && Takes(s, step, s')
    ensures Inv(s') && s'.limit == s.limit
  {
  }

  lemma {:induction false} ReachableInv(states: seq<State>, steps: seq<Step>, limit: nat, n: nat)
    requires Behaviour(states, steps, limit) && n < |states|
    ensures Inv(states[n]) && states[n].limit == limit
  {
    if n > 0 {
      hide Takes, Inv;
      ReachableInv(states, steps, limit, n - 1);
      StepKeepsInv(states[n - 1], steps[n - 1], states[n]);
    }
  }

  /** In every reachable state: at most `limit` handlers run, permits balance, and records were only ever started for
      acknowledged messages. */
  lemma PermitsBound(states: seq<State>, steps: seq<Step>, limit: nat, n: nat)
    requires Behaviour(states, steps, limit) && n < |states|
    ensures states[n].handling <= limit && states[n].loading + states[n].handling <= states[n].held <= limit
    ensures states[n].begun <= states[n].acked
    ensures 0 <= states[n].held && (states[n].loading + states[n].handling > 0 ==> states[n].held > 0)
  {
    hide Behaviour;
    ReachableInv(states, steps, limit, n);
  }

  /** Every record of every message parsed is started, skipped or refused; between messages none is left, and none is
      refused before the cancellation. */
  lemma RecordsAccounted(states: seq<State>, steps: seq<Step>, limit: nat, n: nat)
    requires Behaviour(states, steps, limit) && n < |states|
    ensures var s := states[n];
      && s.ingests + s.skipped + s.refused <= s.records
      && (!s.drain.Working? && !s.drain.Holding? ==> s.ingests + s.skipped + s.refused == s.records)
      && (s.closing.Open? ==> s.refused == 0)
  {
    hide Behaviour;
    ReachableInv(states, steps, limit, n);
  }

  lemma ClosedStays(s: State, step: Step, s': State)
    requires Inv(s) && s.closing.Closed? && Takes(s, step, s')
    ensures s'.closing.Closed? && s'.ingests == s.ingests && s'.handlers == s.handlers
  {
  }

  /** Once Close has returned no handler runs, and none is ever started again. */
  lemma {:induction false} NothingAfterClose(states: seq<State>, steps: seq<Step>, limit: nat, n: nat, m: nat)
    requires Behaviour(states, steps, limit) && n <= m < |states| && states[n].closing.Closed?
    ensures states[m].closing.Closed? && states[m].loading == 0 && states[m].handling == 0
    ensures states[m].ingests == states[n].ingests && states[m].handlers == states[n].handlers
    decreases m
  {
    ReachableInv(states, steps, limit, m);
    if n < m {
      NothingAfterClose(states, steps, limit, n, m - 1);
      ReachableInv(states, steps, limit, m - 1);
      ClosedStays(states[m - 1], steps[m - 1], states[m]);
    }
  }
}
