/** Delivery of camera events (anpr-worker/edge/camera_ingest_client.py): bounded retries of one
    post, the queue's own back-off, and the flush over due rows. */
module IngestDelivery {
  import opened Prelude
  import opened EventSpool

  datatype Config = Config(maxAttempts: nat, retryBase: real, retryMax: real, queueRetry: real)

  /** What the configuration loader guarantees. */
  predicate ConfigOk(c: Config) {
    c.maxAttempts >= 1 && 0.0 <= c.retryBase <= c.retryMax && c.queueRetry > 0.0
  }

  datatype RetryAfter = Absent | Unreadable | Seconds(s: real)

  /** One answer of the ingest API. `acknowledges` is whether the body accepts this event id. */
  datatype Response = NetworkError | Http(status: int, acknowledges: bool, retryAfter: RetryAfter)

  datatype IngestResult = IngestResult(delivered: bool, retryable: bool, attempts: nat)

  function Pow2(n: nat): nat { if n == 0 then 1 else 2 * Pow2(n - 1) }

  /** `base` doubled n times. */
  function Doubled(base: real, n: nat): real { if n == 0 then base else 2.0 * Doubled(base, n - 1) }

  lemma {:induction false} DoubledIsProduct(base: real, n: nat)
    ensures Doubled(base, n) == base * Pow2(n) as real
  {
    if n > 0 {
      DoubledIsProduct(base, n - 1);
      Distribute(Pow2(n - 1) as real, Pow2(n - 1) as real, base);
    }
  }

  lemma {:induction false} DoubledMono(base: real, a: nat, b: nat)
    requires base >= 0.0 && a <= b
    ensures base <= Doubled(base, a) <= Doubled(base, b)
  {
    if a < b {
      DoubledMono(base, a, b - 1);
    } else if a > 0 {
      DoubledMono(base, a - 1, b - 1);
    }
  }

  function MinReal(a: real, b: real): real { if a <= b then a else b }

  function MaxReal(a: real, b: real): real { if a >= b then a else b }

  /** The answer may succeed unchanged on another try. */
  predicate Transient(r: Response) {
    r.NetworkError? || r.status in {408, 425, 429} || r.status >= 500
  }

  predicate Acknowledged(r: Response) { r.Http? && r.status == 202 && r.acknowledges }

  function Backoff(c: Config, attempt: nat, r: Response): real
    requires attempt >= 1
  {
    if r.Http? && r.retryAfter.Seconds? then MinReal(c.retryMax, MaxReal(0.0, r.retryAfter.s))
    else MinReal(c.retryMax, Doubled(c.retryBase, attempt - 1))
  }

  /** How many posts are made: up to the first answer that settles the matter, or all of them. */
  ghost predicate PostsMade(c: Config, responses: seq<Response>, n: nat) {
    && 1 <= n <= c.maxAttempts && n <= |responses|
    && (forall i :: 0 <= i < n - 1 ==> Transient(responses[i]))
    && (n < c.maxAttempts ==> !Transient(responses[n - 1]))
  }

  function PostsFrom(c: Config, responses: seq<Response>, attempt: nat): (n: nat)
    requires 1 <= attempt <= c.maxAttempts <= |responses|
    ensures attempt <= n <= c.maxAttempts
    ensures forall i :: attempt - 1 <= i < n - 1 ==> Transient(responses[i])
    ensures n < c.maxAttempts ==> !Transient(responses[n - 1])
    decreases c.maxAttempts - attempt
  {
    if Transient(responses[attempt - 1]) && attempt < c.maxAttempts then PostsFrom(c, responses, attempt + 1)
    else attempt
  }

  function Posts(c: Config, responses: seq<Response>): (n: nat)
    requires 1 <= c.maxAttempts <= |responses|
    ensures PostsMade(c, responses, n)
  {
    PostsFrom(c, responses, 1)
  }

  /** What the answers amount to. */
  function ResultOf(c: Config, responses: seq<Response>): (r: IngestResult)
    requires 1 <= c.maxAttempts <= |responses|
    ensures !(r.delivered && r.retryable)
    ensures r.retryable ==> r.attempts == c.maxAttempts
  {
    var n := Posts(c, responses);
    IngestResult(Acknowledged(responses[n - 1]), Transient(responses[n - 1]), n)
  }

  function Total(sleeps: seq<real>): real {
    if sleeps == [] then 0.0 else Total(sleeps[..|sleeps| - 1]) + sleeps[|sleeps| - 1]
  }

  predicate NoRetryAfter(r: Response) { r.NetworkError? || !r.retryAfter.Seconds? }

  /** The sleeps of a delivery: at most the cap for each, and without a Retry-After at most
      base * 2^n - base for n of them. */
  ghost predicate SleepsBounded(c: Config, responses: seq<Response>, sleeps: seq<real>)
    requires |sleeps| <= |responses|
  {
    && 0.0 <= Total(sleeps) <= Times(|sleeps|, c.retryMax)
    && ((forall i :: 0 <= i < |sleeps| ==> NoRetryAfter(responses[i])) ==>
          Total(sleeps) <= Doubled(c.retryBase, |sleeps|) - c.retryBase)
  }

  /** The retry loop: posts under the event's own key until an answer settles the matter. */
  method AttemptPosts(c: Config, eventId: string, responses: seq<Response>)
    returns (result: IngestResult, keys: seq<string>, sleeps: seq<real>)
    requires ConfigOk(c) && |responses| >= c.maxAttempts
    ensures PostsMade(c, responses, |keys|)
    ensures forall i :: 0 <= i < |keys| ==> keys[i] == eventId
    ensures result == IngestResult(Acknowledged(responses[|keys| - 1]), Transient(responses[|keys| - 1]), |keys|)
    ensures |sleeps| == |keys| - 1
    ensures forall i :: 0 <= i < |sleeps| ==> sleeps[i] == Backoff(c, i + 1, responses[i])
  {
    result, keys, sleeps := IngestResult(false, false, 0), [], [];
    var attempt := 1;
    while attempt <= c.maxAttempts
      invariant 1 <= attempt <= c.maxAttempts
      invariant |keys| == |sleeps| == attempt - 1
      invariant forall i :: 0 <= i < |keys| ==> keys[i] == eventId && Transient(responses[i])
      invariant forall i :: 0 <= i < |sleeps| ==> sleeps[i] == Backoff(c, i + 1, responses[i])
      decreases c.maxAttempts - attempt
    {
      keys := keys + [eventId];
      var response := responses[attempt - 1];
      if response.NetworkError? {
        if attempt < c.maxAttempts {
          sleeps := sleeps + [Backoff(c, attempt, response)];
          attempt := attempt + 1;
          continue;
        }
        result := IngestResult(false, true, attempt);
        return;
      }
      if response.status == 202 {
        result := IngestResult(response.acknowledges, false, attempt);
        return;
      }
      var retryable := response.status in {408, 425, 429} || response.status >= 500;
      if retryable && attempt < c.maxAttempts {
        sleeps := sleeps + [Backoff(c, attempt, response)];
        attempt := attempt + 1;
        continue;
      }
      result := IngestResult(false, retryable, attempt);
      return;
    }
    assert false; // the source's "unreachable ingest retry state"
  }

  /** Whatever the API answers: between one and `maxAttempts` posts, all under the event's own
      idempotency key; delivered exactly on an acknowledging answer; retryable only when every
      attempt was made and the last one failed in a way that may pass; and bounded sleeps. */
  method Deliver(c: Config, eventId: string, responses: seq<Response>)
    returns (result: IngestResult, keys: seq<string>, sleeps: seq<real>)
    requires ConfigOk(c) && |responses| >= c.maxAttempts
    ensures PostsMade(c, responses, |keys|)
    ensures forall i :: 0 <= i < |keys| ==> keys[i] == eventId
    ensures result.attempts == |keys| && result == ResultOf(c, responses)
    ensures result.delivered <==> Acknowledged(responses[|keys| - 1])
    ensures result.retryable <==> Transient(responses[|keys| - 1])
    ensures result.retryable ==> |keys| == c.maxAttempts
    ensures |sleeps| == |keys| - 1
    ensures forall i :: 0 <= i < |sleeps| ==> sleeps[i] == Backoff(c, i + 1, responses[i])
    ensures SleepsBounded(c, responses, sleeps)
  {
    result, keys, sleeps := AttemptPosts(c, eventId, responses);
    PostsUnique(c, responses, |keys|, Posts(c, responses));
    SleepsAreBounded(c, responses, sleeps);
  }

  lemma PostsNotMore(c: Config, responses: seq<Response>, m: nat, n: nat)
    requires PostsMade(c, responses, m) && PostsMade(c, responses, n)
    ensures n <= m
  {
  }

  /** The answers determine the number of posts. */
  lemma PostsUnique(c: Config, responses: seq<Response>, m: nat, n: nat)
    requires PostsMade(c, responses, m) && PostsMade(c, responses, n)
    ensures m == n
  {
    PostsNotMore(c, responses, m, n);
    PostsNotMore(c, responses, n, m);
  }

  /** What one answer amounts to: an acknowledging 202 delivers; a network error, 408, 425, 429 and every
      500 or above may be tried again; anything else, an unacknowledging 202 included, is final. */
  lemma AnswerAmountsTo(c: Config, r: Response)
    requires c.maxAttempts == 1
    ensures var result := ResultOf(c, [r]);
      && (result.delivered <==> r.Http? && r.status == 202 && r.acknowledges)
      && (result.retryable <==>
            r.NetworkError? || r.status == 408 || r.status == 425 || r.status == 429 || r.status >= 500)
  {
  }

  // --------------------------------------------------------------------- time slept

  lemma SleepsAreBounded(c: Config, responses: seq<Response>, sleeps: seq<real>)
    requires ConfigOk(c) && |sleeps| <= |responses|
    requires forall i :: 0 <= i < |sleeps| ==> sleeps[i] == Backoff(c, i + 1, responses[i])
    ensures SleepsBounded(c, responses, sleeps)
  {
    TotalIsSlept(c, responses, sleeps);
    SleptBound(c, responses, |sleeps|);
    if forall i :: 0 <= i < |sleeps| ==> NoRetryAfter(responses[i]) {
      SleptExponential(c, responses, |sleeps|);
    }
  }

  lemma {:induction false} TotalIsSlept(c: Config, responses: seq<Response>, sleeps: seq<real>)
    requires |sleeps| <= |responses|
    requires forall i :: 0 <= i < |sleeps| ==> sleeps[i] == Backoff(c, i + 1, responses[i])
    ensures Total(sleeps) == Slept(c, responses, |sleeps|)
  {
    if sleeps != [] {
      TotalIsSlept(c, responses, sleeps[..|sleeps| - 1]);
    }
  }

  function Slept(c: Config, responses: seq<Response>, n: nat): real
    requires n <= |responses|
  {
    if n == 0 then 0.0 else Slept(c, responses, n - 1) + Backoff(c, n, responses[n - 1])
  }

  /** n times a, by repeated addition. */
  function Times(n: nat, a: real): real {
    if n == 0 then 0.0 else Times(n - 1, a) + a
  }

  lemma {:induction false} TimesIsProduct(n: nat, a: real)
    ensures Times(n, a) == n as real * a
  {
    if n > 0 {
      TimesIsProduct(n - 1, a);
      Distribute((n - 1) as real, 1.0, a);
    }
  }

  lemma Distribute(x: real, y: real, a: real)
    ensures (x + y) * a == x * a + y * a
  {
  }

  /** Before attempt n + 1 at most n times the cap has been slept. */
  lemma {:induction false} SleptBound(c: Config, responses: seq<Response>, n: nat)
    requires ConfigOk(c) && n <= |responses|
    ensures 0.0 <= Slept(c, responses, n) <= Times(n, c.retryMax)
  {
    if n > 0 {
      SleptBound(c, responses, n - 1);
      BackoffBounds(c, n, responses[n - 1]);
    }
  }

  /** The pause before the next post: what Retry-After asks for, cut to between zero and the cap, or the
      base doubled with every attempt, cut to the cap. */
  lemma BackoffIs(c: Config, attempt: nat, r: Response)
    requires ConfigOk(c) && attempt >= 1
    ensures !NoRetryAfter(r) && r.retryAfter.s <= 0.0 ==> Backoff(c, attempt, r) == 0.0
    ensures !NoRetryAfter(r) && 0.0 <= r.retryAfter.s <= c.retryMax ==> Backoff(c, attempt, r) == r.retryAfter.s
    ensures !NoRetryAfter(r) && r.retryAfter.s >= c.retryMax ==> Backoff(c, attempt, r) == c.retryMax
    ensures NoRetryAfter(r) ==>
              var wanted := Doubled(c.retryBase, attempt - 1);
              Backoff(c, attempt, r) == if wanted <= c.retryMax then wanted else c.retryMax
  {
  }

  lemma BackoffBounds(c: Config, attempt: nat, r: Response)
    requires ConfigOk(c) && attempt >= 1
    ensures 0.0 <= Backoff(c, attempt, r) <= c.retryMax
  {
    DoubledMono(c.retryBase, 0, attempt - 1);
  }

  /** Without a readable Retry-After the total is at most base * 2^n - base. */
  lemma {:induction false} SleptExponential(c: Config, responses: seq<Response>, n: nat)
    requires ConfigOk(c) && n <= |responses|
    requires forall i :: 0 <= i < n ==> NoRetryAfter(responses[i])
    ensures Slept(c, responses, n) <= Doubled(c.retryBase, n) - c.retryBase
  {
    if n > 0 {
      SleptExponential(c, responses, n - 1);
    }
  }

  // ------------------------------------------------------------------ the queue's back-off

  function QueueDelay(c: Config, attempts: nat): real {
    MinReal(300.0, Doubled(c.queueRetry, Min(attempts, 8)))
  }

  /** The delay doubles with every attempt, eight times at most, up to five minutes. */
  lemma QueueDelayIs(c: Config, attempts: nat)
    ensures var wanted := Doubled(c.queueRetry, if attempts <= 8 then attempts else 8);
      QueueDelay(c, attempts) == if wanted <= 300.0 then wanted else 300.0
  {
  }

  /** Delays never shrink as attempts grow and never exceed five minutes. */
  lemma QueueDelayGrows(c: Config, a: nat, b: nat)
    requires ConfigOk(c) && a <= b
    ensures 0.0 < QueueDelay(c, a) <= QueueDelay(c, b) <= 300.0
  {
    DoubledMono(c.queueRetry, Min(a, 8), Min(b, 8));
  }

  // ------------------------------------------------------------------------ the flush

  datatype Stats = Stats(attempted: nat, delivered: nat, discarded: nat, remaining: nat)

  /** The API's answers to the posts of one due row, and the clock read afterwards. */
  datatype Try = Try(responses: seq<Response>, clock: real)

  predicate TriesOk(c: Config, tries: seq<Try>) {
    forall i :: 0 <= i < |tries| ==> |tries[i].responses| >= c.maxAttempts
  }

  /** What delivering a row came to. */
  datatype Answer = Answer(delivered: bool, retryable: bool, clock: real)

  function AnswerOf(c: Config, t: Try): Answer
    requires 1 <= c.maxAttempts <= |t.responses|
  {
    Answer(ResultOf(c, t.responses).delivered, ResultOf(c, t.responses).retryable, t.clock)
  }

  function AnswersOf(c: Config, tries: seq<Try>): (answers: seq<Answer>)
    requires c.maxAttempts >= 1 && TriesOk(c, tries)
    ensures |answers| == |tries|
    ensures forall i :: 0 <= i < |tries| ==> answers[i] == AnswerOf(c, tries[i])
  {
    seq(|tries|, i requires 0 <= i < |tries| => AnswerOf(c, tries[i]))
  }

  function OutcomeOf(c: Config, r: Row, a: Answer): Outcome {
    if a.delivered then Accepted
    else if a.retryable then TryAgain(a.clock + QueueDelay(c, r.attempts))
    else Refused
  }

  /** The spool once the first n due rows have been settled. */
  ghost function Flushed(c: Config, s: Spool, due: seq<Row>, answers: seq<Answer>, n: nat): (t: Spool)
    requires Inv(s) && n <= |due| <= |answers|
    ensures Inv(t)
  {
    if n == 0 then s
    else
      var before := Flushed(c, s, due, answers, n - 1);
      SettleKeepsInv(before, due[n - 1].id, OutcomeOf(c, due[n - 1], answers[n - 1]));
      Settle(before, due[n - 1].id, OutcomeOf(c, due[n - 1], answers[n - 1]))
  }

  lemma {:induction false} FlushKeepsLater(c: Config, s: Spool, due: seq<Row>, answers: seq<Answer>, n: nat, id: RowId)
    requires Inv(s) && n <= |due| <= |answers| && InTable(s.rows, id)
    requires forall i :: 0 <= i < n ==> due[i].id != id
    ensures InTable(Flushed(c, s, due, answers, n).rows, id)
  {
    if n > 0 {
      FlushKeepsLater(c, s, due, answers, n - 1, id);
      SettleKeepsOthers(Flushed(c, s, due, answers, n - 1), due[n - 1].id,
                        OutcomeOf(c, due[n - 1], answers[n - 1]), id);
    }
  }

  lemma SettleKeepsOthers(s: Spool, x: RowId, outcome: Outcome, id: RowId)
    requires Inv(s) && InTable(s.rows, id) && x != id
    ensures InTable(Settle(s, x, outcome).rows, id)
  {
    var i := IndexOf(s.rows, x);
    if i.Some? {
      if outcome.TryAgain? {
        var j :| 0 <= j < |s.rows| && s.rows[j].id == id;
        assert Settle(s, x, outcome).rows[j].id == id;
      } else {
        InTableWithout(s.rows, i.value, id);
      }
    }
  }

  lemma SettleCount(s: Spool, id: RowId, outcome: Outcome)
    requires Inv(s) && InTable(s.rows, id)
    ensures |Settle(s, id, outcome).rows| == |s.rows| - if outcome.TryAgain? then 0 else 1
  {
  }

  function CountDelivered(answers: seq<Answer>, n: nat): nat
    requires n <= |answers|
  {
    if n == 0 then 0 else CountDelivered(answers, n - 1) + if answers[n - 1].delivered then 1 else 0
  }

  function CountRetried(answers: seq<Answer>, n: nat): nat
    requires n <= |answers|
  {
    if n == 0 then 0
    else CountRetried(answers, n - 1) + PutOff(answers[n - 1])
  }

  function PutOff(a: Answer): nat { if !a.delivered && a.retryable then 1 else 0 }

  lemma SettleDueCount(c: Config, before: Spool, r: Row, a: Answer)
    requires Inv(before) && InTable(before.rows, r.id)
    ensures |Settle(before, r.id, OutcomeOf(c, r, a)).rows| == |before.rows| - 1 + PutOff(a)
  {
    SettleCount(before, r.id, OutcomeOf(c, r, a));
  }

  lemma FlushStep(c: Config, s: Spool, due: seq<Row>, answers: seq<Answer>, n: nat)
    requires Inv(s) && 0 < n <= |due| <= |answers| && Ordered(due) && InTable(s.rows, due[n - 1].id)
    ensures |Flushed(c, s, due, answers, n).rows| ==
            |Flushed(c, s, due, answers, n - 1).rows| - 1 + PutOff(answers[n - 1])
  {
    FlushKeepsLater(c, s, due, answers, n - 1, due[n - 1].id);
    SettleDueCount(c, Flushed(c, s, due, answers, n - 1), due[n - 1], answers[n - 1]);
  }

  /** Settling due rows one after another finds each still in the table, and removes all but the
      ones put off. */
  lemma {:induction false} FlushCount(c: Config, s: Spool, due: seq<Row>, answers: seq<Answer>, n: nat)
    requires Inv(s) && n <= |due| <= |answers| && Ordered(due)
    requires forall i :: 0 <= i < |due| ==> InTable(s.rows, due[i].id)
    ensures |Flushed(c, s, due, answers, n).rows| == |s.rows| - n + CountRetried(answers, n)
  {
    if n > 0 {
      assert |Flushed(c, s, due, answers, n - 1).rows| == |s.rows| - (n - 1) + CountRetried(answers, n - 1) by {
        FlushCount(c, s, due, answers, n - 1);
      }
      FlushStep(c, s, due, answers, n);
    }
  }

  lemma DueInTable(rows: seq<Row>, limit: int, now: real)
    requires Ordered(rows)
    ensures Ordered(Due(rows, limit, now)) && |Due(rows, limit, now)| <= |rows|
    ensures forall i :: 0 <= i < |Due(rows, limit, now)| ==> InTable(rows, Due(rows, limit, now)[i].id)
  {
    DueFacts(rows, limit, now);
    var due := Due(rows, limit, now);
    forall i | 0 <= i < |due| ensures InTable(rows, due[i].id) {
      assert due[i] in due;
    }
  }

  /** The idempotency keys of the posts of one row: its event id, as often as its answers ask for. */
  function KeysPosted(c: Config, r: Row, t: Try): (keys: seq<string>)
    requires 1 <= c.maxAttempts <= |t.responses|
    ensures 1 <= |keys| <= c.maxAttempts && forall i :: 0 <= i < |keys| ==> keys[i] == r.eventId
  {
    seq(Posts(c, t.responses), i => r.eventId)
  }

  /** The same for the first n due rows, in order. */
  function AllPosted(c: Config, due: seq<Row>, tries: seq<Try>, n: nat): (posts: seq<seq<string>>)
    requires c.maxAttempts >= 1 && TriesOk(c, tries) && n <= |due| && n <= |tries|
    ensures |posts| == n
  {
    if n == 0 then [] else AllPosted(c, due, tries, n - 1) + [KeysPosted(c, due[n - 1], tries[n - 1])]
  }

  /** Deliver one row and settle it by the outcome. */
  method SettleDue(c: Config, queue: CameraEventQueue, item: Row, t: Try) returns (answer: Answer, keys: seq<string>)
    requires ConfigOk(c) && queue.Valid() && |t.responses| >= c.maxAttempts
    modifies queue
    ensures queue.Valid() && queue.State() == Settle(old(queue.State()), item.id, OutcomeOf(c, item, answer))
    ensures answer == AnswerOf(c, t) && keys == KeysPosted(c, item, t)
  {
    var result, sleeps;
    result, keys, sleeps := Deliver(c, item.eventId, t.responses);
    answer := Answer(result.delivered, result.retryable, t.clock);
    if result.delivered {
      queue.Delete(item.id, true);
    } else if result.retryable {
      queue.MarkAttempt(item.id, t.clock + QueueDelay(c, item.attempts));
    } else {
      queue.Delete(item.id, false);
    }
  }

  /** Try the rows one after another and settle each by its answer. */
  method SettleAll(c: Config, queue: CameraEventQueue, due: seq<Row>, tries: seq<Try>, ghost answers: seq<Answer>)
    returns (delivered: nat, discarded: nat, posts: seq<seq<string>>)
    requires ConfigOk(c) && queue.Valid() && |due| <= |tries| && TriesOk(c, tries) && answers == AnswersOf(c, tries)
    modifies queue
    ensures queue.Valid()
    ensures queue.State() == Flushed(c, old(queue.State()), due, answers, |due|)
    ensures delivered == CountDelivered(answers, |due|)
    ensures |due| == delivered + discarded + CountRetried(answers, |due|)
    ensures posts == AllPosted(c, due, tries, |due|)
  {
    delivered, discarded, posts := 0, 0, [];
    for i := 0 to |due|
      invariant queue.Valid()
      invariant queue.State() == Flushed(c, old(queue.State()), due, answers, i)
      invariant delivered == CountDelivered(answers, i)
      invariant i == delivered + discarded + CountRetried(answers, i)
      invariant posts == AllPosted(c, due, tries, i)
    {
      var answer, keys := SettleDue(c, queue, due[i], tries[i]);
      assert answer == answers[i];
      posts := posts + [keys];
      if answer.delivered {
        delivered := delivered + 1;
      } else if !answer.retryable {
        discarded := discarded + 1;
      }
    }
  }

  /** Attempt every due row once, in order, each under its own event id. With no other thread at
      work the statistics balance: every attempted row was delivered, discarded or put off, and
      what is not delivered or discarded stays queued. */
  method FlushPending(c: Config, queue: CameraEventQueue, limit: int, now: real, tries: seq<Try>)
    returns (stats: Stats, posts: seq<seq<string>>)
    requires ConfigOk(c) && queue.Valid() && |tries| >= |queue.rows| && TriesOk(c, tries)
    modifies queue
    ensures queue.Valid()
    ensures var due, answers := Due(old(queue.rows), limit, now), AnswersOf(c, tries);
            && |due| <= |answers|
            && stats.attempted == |due|
            && stats.delivered == CountDelivered(answers, |due|)
            && stats.attempted == stats.delivered + stats.discarded + CountRetried(answers, |due|)
            && queue.State() == Flushed(c, old(queue.State()), due, answers, |due|)
            && posts == AllPosted(c, due, tries, |due|)
    ensures stats.remaining == |queue.rows| == |old(queue.rows)| - stats.delivered - stats.discarded
  {
    DueInTable(queue.rows, limit, now);
    var due := queue.DueEvents(limit, now);
    ghost var answers := AnswersOf(c, tries);
    FlushCount(c, queue.State(), due, answers, |due|);
    var delivered, discarded;
    delivered, discarded, posts := SettleAll(c, queue, due, tries, answers);
    stats := Stats(|due|, delivered, discarded, |queue.rows|);
  }

  /** Deliver now; what may still succeed later goes to the queue under the same event id. */
  method Send(c: Config, queue: CameraEventQueue, eventId: string, responses: seq<Response>, clock: real)
    returns (result: IngestResult)
    requires ConfigOk(c) && queue.Valid() && |responses| >= c.maxAttempts && eventId != ""
    modifies queue
    ensures queue.Valid()
    ensures result.retryable ==> queue.State() == Enqueue(old(queue.State()), eventId, clock + c.queueRetry)
    ensures !result.retryable ==> queue.State() == old(queue.State())
    ensures result.retryable <==> forall i :: 0 <= i < c.maxAttempts ==> Transient(responses[i])
    ensures result == ResultOf(c, responses)
  {
    var keys, sleeps;
    result, keys, sleeps := Deliver(c, eventId, responses);
    if result.retryable {
      var _ := queue.Put(eventId, clock + c.queueRetry);
    }
  }
}
