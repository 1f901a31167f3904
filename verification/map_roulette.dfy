/** MapRouletteClientProcessor, as a sequential state machine: one upload
    client per check, filled by flag events and removed (and uploaded) once,
    either by the check's metric event or at shutdown. The thread pool, the
    event bus and the network client are abstracted: an upload attempt is a
    log entry, and whether it succeeded is an input. */
module MapRoulette {

  const MinimumDurationSeconds := 5
  const MinimumDurationRatio := 10

  /** Java's `/` on int, which truncates toward zero. */
  function JavaDivide(a: int, b: int): int
    requires b > 0
  {
    if a >= 0 then a / b else -((-a) / b)
  }

  /** maxDurationForBatch, in whole seconds. */
  function MaxDurationForBatch(batchSize: int): (seconds: int)
    ensures seconds >= MinimumDurationSeconds
    ensures batchSize < 60 ==> seconds == MinimumDurationSeconds
    ensures batchSize >= 60 ==> seconds * 10 <= batchSize < seconds * 10 + 10
  {
    var proportional := JavaDivide(batchSize, MinimumDurationRatio);
    if proportional > MinimumDurationSeconds then proportional else MinimumDurationSeconds
  }

  /** Larger batches never get less time. */
  lemma MaxDurationMonotone(smaller: int, larger: int)
    requires smaller <= larger
    ensures MaxDurationForBatch(smaller) <= MaxDurationForBatch(larger)
  {
    if larger >= 60 && smaller >= 60 {
      var s, l := MaxDurationForBatch(smaller), MaxDurationForBatch(larger);
      assert s * 10 <= smaller <= larger < l * 10 + 10;
    }
  }

  /** A MapRoulette challenge handle, as the check supplies it. */
  datatype Challenge = Challenge(name: string)

  /** The task a flag converts itself into (the conversion is the flag's own). */
  datatype Task = Task(payload: string)

  datatype Check = Check(name: string, challenge: Challenge)

  datatype PendingTask = PendingTask(challenge: Challenge, task: Task)

  /** A client and the batch it has accumulated. */
  datatype Client = Client(batch: seq<PendingTask>)

  /** One upload of a batch on a one-worker pool with its timeout. */
  datatype Attempt = Attempt(check: string, batch: seq<PendingTask>, timeoutSeconds: int, succeeded: bool)

  /** `clients` are the checks whose `MapRouletteClient.instance` gave a
      client; `uninitialized` are the checks whose entry holds the null it
      gave instead. */
  datatype Processor = Processor(
    clients: map<string, Client>,
    uninitialized: set<string>,
    challenges: map<string, Challenge>,
    attempts: seq<Attempt>)

  /** Every registered check, with or without a client, has its challenge,
      and no check is both. */
  predicate Valid(p: Processor) {
    && p.clients.Keys <= p.challenges.Keys
    && p.uninitialized <= p.challenges.Keys
    && p.clients.Keys !! p.uninitialized
  }

  /** The names of a batch of checks. */
  function Names(checks: seq<Check>): set<string> {
    set i | 0 <= i < |checks| :: checks[i].name
  }

  /** The constructor: a client (or the null `MapRouletteClient.instance`
      returned) and the challenge per check, in order. `created[i]` is
      whether the `i`-th call gave a client. */
  function New(checks: seq<Check>, created: seq<bool>): (p: Processor)
    requires |created| == |checks|
    ensures Valid(p) && p.attempts == []
    ensures p.clients.Keys + p.uninitialized == p.challenges.Keys == Names(checks)
    ensures forall n :: n in p.clients ==> p.clients[n].batch == []
  {
    if |checks| == 0 then Processor(map[], {}, map[], [])
    else
      var last := checks[|checks| - 1];
      var earlier := New(checks[..|checks| - 1], created[..|checks| - 1]);
      assert Names(checks) == Names(checks[..|checks| - 1]) + {last.name} by {
        assert forall i :: 0 <= i < |checks| - 1 ==> checks[..|checks| - 1][i] == checks[i];
      }
      var challenges := earlier.challenges[last.name := last.challenge];
      if created[|checks| - 1] then
        Processor(earlier.clients[last.name := Client([])], earlier.uninitialized - {last.name}, challenges, [])
      else
        Processor(earlier.clients - {last.name}, earlier.uninitialized + {last.name}, challenges, [])
  }

  /** A check name given twice keeps the challenge of its last occurrence,
      and has a client exactly when that occurrence's call gave one. */
  lemma {:induction false} NewLastWins(checks: seq<Check>, created: seq<bool>, i: int)
    requires |created| == |checks|
    requires 0 <= i < |checks|
    requires forall j :: i < j < |checks| ==> checks[j].name != checks[i].name
    ensures New(checks, created).challenges[checks[i].name] == checks[i].challenge
    ensures checks[i].name in New(checks, created).clients <==> created[i]
    decreases |checks|
  {
    if i < |checks| - 1 {
      var prefix := checks[..|checks| - 1];
      NewLastWins(prefix, created[..|checks| - 1], i);
    }
  }

  /** process(CheckFlagEvent): the flag's task goes to its check's client,
      under its check's challenge. `submitted` is false when building
      or adding the task throws; a missing or null client throws too. Every
      such failure is caught, so it leaves the processor as it was. */
  function ProcessFlag(p: Processor, checkName: string, task: Task, submitted: bool): (q: Processor)
    requires Valid(p)
    ensures Valid(q) && q.challenges == p.challenges && q.attempts == p.attempts
    ensures q.uninitialized == p.uninitialized
    ensures q.clients.Keys == p.clients.Keys
    ensures checkName !in p.clients || !submitted ==> q == p
    ensures checkName in p.clients && submitted ==>
              q.clients[checkName].batch == p.clients[checkName].batch + [PendingTask(p.challenges[checkName], task)]
    ensures forall n :: n in p.clients && n != checkName ==> q.clients[n] == p.clients[n]
  {
    if checkName in p.clients && submitted then
      var client := p.clients[checkName];
      p.(clients := p.clients[checkName := Client(client.batch + [PendingTask(p.challenges[checkName], task)])])
    else p
  }

  /** The upload attempt for one removed client. */
  function AttemptFor(name: string, client: Client, succeeded: bool): Attempt {
    Attempt(name, client.batch, MaxDurationForBatch(|client.batch|), succeeded)
  }

  /** process(MetricEvent) as intended: the entry is removed first, whatever
      happens next; if it held a client, its batch gets one upload attempt
      whose failure is caught. A null entry, or none, is only traced. */
  function ProcessMetric(p: Processor, name: string, uploadSucceeded: bool): (q: Processor)
    requires Valid(p)
    ensures Valid(q) && q.challenges == p.challenges
    ensures q.clients == p.clients - {name}
    ensures q.uninitialized == p.uninitialized - {name}
    ensures name in p.clients ==>
              q.attempts == p.attempts + [Attempt(name, p.clients[name].batch,
                                                   MaxDurationForBatch(|p.clients[name].batch|), uploadSucceeded)]
    ensures name !in p.clients ==> q.attempts == p.attempts
    ensures name !in p.clients && name !in p.uninitialized ==> q == p
  {
    if name in p.clients then
      var client := p.clients[name];
      p.(clients := p.clients - {name}, attempts := p.attempts + [AttemptFor(name, client, uploadSucceeded)])
    else p.(uninitialized := p.uninitialized - {name})
  }

  /** process(MetricEvent) as written: formatting the pool name asks for two
      arguments and gets one, which throws inside the try before the pool
      exists; the catch logs it. The client is gone and nothing is uploaded. */
  function ProcessMetricAsWritten(p: Processor, name: string): (q: Processor)
    requires Valid(p)
    ensures Valid(q) && q.challenges == p.challenges
    ensures q.clients == p.clients - {name}
    ensures q.uninitialized == p.uninitialized - {name}
    ensures q.attempts == p.attempts
  {
    p.(clients := p.clients - {name}, uninitialized := p.uninitialized - {name})
  }

  /** The as-written metric handler loses a registered check's batch: after
      it, no client holds the flagged task and no attempt uploaded it. */
  lemma AsWrittenMetricLosesBatch(challenge: Challenge, task: Task)
    ensures var p := ProcessFlag(New([Check("C", challenge)], [true]), "C", task, true);
            var q := ProcessMetricAsWritten(p, "C");
            && p.clients["C"].batch == [PendingTask(challenge, task)]
            && q.clients == map[] && q.attempts == []
    ensures var p := ProcessFlag(New([Check("C", challenge)], [true]), "C", task, true);
            var q := ProcessMetric(p, "C", true);
            q.attempts == [Attempt("C", [PendingTask(challenge, task)], MinimumDurationSeconds, true)]
  {
    var p0 := New([Check("C", challenge)], [true]);
    assert p0.clients.Keys == {"C"};
    assert p0.challenges["C"] == challenge;
  }

  /** A check whose client was never created takes flags without effect,
      and its metric event clears the entry without any upload attempt. */
  lemma NullClientNeverUploads(challenge: Challenge, task: Task, submitted: bool, ok: bool)
    ensures var p := New([Check("C", challenge)], [false]);
            && p.clients == map[] && p.uninitialized == {"C"}
            && ProcessFlag(p, "C", task, submitted) == p
            && ProcessMetric(p, "C", ok) == Processor(map[], {}, map["C" := challenge], [])
  {
    var p := New([Check("C", challenge)], [false]);
    assert Names([Check("C", challenge)]) == {"C"};
    assert p.challenges == map["C" := challenge];
  }

  // ----- the one-shot discipline over a run -----

  /** How many upload attempts a check has had. */
  function AttemptCount(attempts: seq<Attempt>, name: string): nat {
    if |attempts| == 0 then 0
    else AttemptCount(attempts[..|attempts| - 1], name) + (if attempts[|attempts| - 1].check == name then 1 else 0)
  }

  lemma AttemptCountAppend(attempts: seq<Attempt>, a: Attempt, name: string)
    ensures AttemptCount(attempts + [a], name) == AttemptCount(attempts, name) + (if a.check == name then 1 else 0)
  {
    assert (attempts + [a])[..|attempts|] == attempts;
  }

  /** A check still holding a client has not been uploaded, and no check is
      uploaded twice. */
  ghost predicate OneShot(p: Processor) {
    forall n :: AttemptCount(p.attempts, n) <= 1 && (n in p.clients ==> AttemptCount(p.attempts, n) == 0)
  }

  datatype Event =
    | FlagEvent(checkName: string, task: Task, submitted: bool)
    | MetricEvent(name: string, uploadSucceeded: bool)

  function Step(p: Processor, e: Event): (q: Processor)
    requires Valid(p)
    ensures Valid(q)
  {
    match e
    case FlagEvent(checkName, task, submitted) => ProcessFlag(p, checkName, task, submitted)
    case MetricEvent(name, uploadSucceeded) => ProcessMetric(p, name, uploadSucceeded)
  }

  function Run(p: Processor, events: seq<Event>): (q: Processor)
    requires Valid(p)
    ensures Valid(q)
    decreases |events|
  {
    if |events| == 0 then p else Run(Step(p, events[0]), events[1..])
  }

  lemma StepOneShot(p: Processor, e: Event)
    requires Valid(p) && OneShot(p)
    ensures OneShot(Step(p, e))
    ensures Step(p, e).clients.Keys <= p.clients.Keys
    ensures Step(p, e).challenges == p.challenges
  {
    if e.MetricEvent? && e.name in p.clients {
      var q := Step(p, e);
      forall n ensures AttemptCount(q.attempts, n) <= 1 && (n in q.clients ==> AttemptCount(q.attempts, n) == 0) {
        AttemptCountAppend(p.attempts, AttemptFor(e.name, p.clients[e.name], e.uploadSucceeded), n);
      }
    }
  }

  /** Over any run of flag and metric events, clients are only ever removed,
      never re-added, the challenges never change, and no check is uploaded
      more than once. */
  lemma {:induction false} RunOneShot(p: Processor, events: seq<Event>)
    requires Valid(p) && OneShot(p)
    ensures OneShot(Run(p, events))
    ensures Run(p, events).clients.Keys <= p.clients.Keys
    ensures Run(p, events).challenges == p.challenges
    decreases |events|
  {
    if |events| > 0 {
      StepOneShot(p, events[0]);
      RunOneShot(Step(p, events[0]), events[1..]);
    }
  }

  /** A fresh processor is one-shot. */
  lemma NewOneShot(checks: seq<Check>, created: seq<bool>)
    requires |created| == |checks|
    ensures OneShot(New(checks, created))
  {
  }

  /** After a check's metric event, its later flag events and metric events
      change nothing. */
  lemma MetricIsOneShot(p: Processor, name: string, ok: bool, task: Task, submitted: bool, ok2: bool)
    requires Valid(p)
    ensures var q := ProcessMetric(p, name, ok);
            && ProcessFlag(q, name, task, submitted) == q
            && ProcessMetric(q, name, ok2) == q
  {
  }

  // ----- shutdown -----

  /** Shutdown part-way: the checks in `done` have been removed and
      uploaded once each, in the order of the new attempts; the rest still
      hold their original clients. */
  ghost predicate ShutdownProgress(p: Processor, q: Processor, done: set<string>, uploadSucceeds: string -> bool) {
    && Valid(q) && q.challenges == p.challenges && q.uninitialized == p.uninitialized
    && done !! q.clients.Keys && done + q.clients.Keys == p.clients.Keys
    && (forall n :: n in q.clients ==> q.clients[n] == p.clients[n])
    && |q.attempts| == |p.attempts| + |done|
    && q.attempts[..|p.attempts|] == p.attempts
    && (forall k :: |p.attempts| <= k < |q.attempts| ==>
          q.attempts[k].check in done
          && q.attempts[k] == AttemptFor(q.attempts[k].check, p.clients[q.attempts[k].check],
                                        uploadSucceeds(q.attempts[k].check)))
    && (forall n :: n in p.clients ==>
          AttemptCount(q.attempts, n) == AttemptCount(p.attempts, n) + (if n in done then 1 else 0))
  }

  /** One shutdown step is the metric path for one remaining check. */
  lemma ShutdownStep(p: Processor, q: Processor, done: set<string>, uploadSucceeds: string -> bool, name: string)
    requires ShutdownProgress(p, q, done, uploadSucceeds) && name in q.clients
    ensures ShutdownProgress(p, ProcessMetric(q, name, uploadSucceeds(name)), done + {name}, uploadSucceeds)
  {
    var r := ProcessMetric(q, name, uploadSucceeds(name));
    var a := AttemptFor(name, p.clients[name], uploadSucceeds(name));
    var done' := done + {name};
    assert r.attempts == q.attempts + [a];
    assert Valid(r) && r.challenges == p.challenges && r.uninitialized == p.uninitialized;
    assert done' !! r.clients.Keys && done' + r.clients.Keys == p.clients.Keys;
    assert |r.attempts| == |p.attempts| + |done'|;
    assert r.attempts[..|p.attempts|] == p.attempts by {
      assert r.attempts[..|p.attempts|] == q.attempts[..|p.attempts|];
    }
    forall k | |p.attempts| <= k < |r.attempts|
      ensures r.attempts[k].check in done'
      ensures r.attempts[k] == AttemptFor(r.attempts[k].check, p.clients[r.attempts[k].check],
                                          uploadSucceeds(r.attempts[k].check))
    {
      if k < |q.attempts| {
        assert r.attempts[k] == q.attempts[k];
      }
    }
    forall n | n in p.clients
      ensures AttemptCount(r.attempts, n) == AttemptCount(p.attempts, n) + (if n in done' then 1 else 0)
    {
      AttemptCountAppend(q.attempts, a, n);
    }
  }

  /** uploadAllRemainingTasks, as documented: every check still holding a
      client is removed and gets exactly one upload attempt of its own
      batch, each failure isolated to that check. Null entries have nothing
      to upload and stay. With no clients left it does nothing. */
  method UploadAllRemainingTasks(p: Processor, uploadSucceeds: string -> bool) returns (q: Processor)
    requires Valid(p)
    ensures Valid(q) && q.challenges == p.challenges && q.uninitialized == p.uninitialized
    ensures p.clients == map[] ==> q == p
    ensures q.clients == map[]
    ensures |q.attempts| == |p.attempts| + |p.clients| && q.attempts[..|p.attempts|] == p.attempts
    ensures forall k :: |p.attempts| <= k < |q.attempts| ==>
              q.attempts[k].check in p.clients
              && q.attempts[k] == AttemptFor(q.attempts[k].check, p.clients[q.attempts[k].check],
                                            uploadSucceeds(q.attempts[k].check))
    ensures forall n :: n in p.clients ==>
              AttemptCount(q.attempts, n) == AttemptCount(p.attempts, n) + 1
  {
    q := p;
    ghost var done: set<string> := {};
    assert p.attempts[..|p.attempts|] == p.attempts;
    while q.clients != map[]
      invariant ShutdownProgress(p, q, done, uploadSucceeds)
      decreases |q.clients|
    {
      var name :| name in q.clients;
      ShutdownStep(p, q, done, uploadSucceeds, name);
      q := ProcessMetric(q, name, uploadSucceeds(name));
      done := done + {name};
    }
    assert done == p.clients.Keys;
  }
}
