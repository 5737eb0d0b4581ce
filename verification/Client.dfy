/**
 The client: a GET that may lose its request or its answer, and the loop that re-sends a mutation whose outcome the
 transport lost. LUD-25, section "Retrying a mutation".
 */
module Client {
  import opened Prelude
  import opened Text
  import opened Protocol

  // ---- the other side ----

  /** What happens to one GET. */
  datatype Fate = RequestLost | AnswerLost | AnswerGarbled | Delivered

  /** One attempt: the calls others make at the SERVICE before it, and its fate. */
  datatype Event = Event(others: seq<Call>, fate: Fate)

  /** How a SERVICE answers a call, and what it becomes. */
  type Service<!M> = (M, Call) -> (M, Body)

  function AfterOthers<M>(serve: Service<M>, m: M, others: seq<Call>): M {
    if others == [] then m else serve(AfterOthers(serve, m, others[..|others| - 1]), others[|others| - 1]).0
  }

  /** What the wallet gets back from one attempt, and the SERVICE after it. */
  function Exchange<M>(serve: Service<M>, m: M, call: Call, e: Event): (M, Answer) {
    var before := AfterOthers(serve, m, e.others);
    match e.fate
    case RequestLost => (before, NoAnswer)
    case AnswerLost => (serve(before, call).0, NoAnswer)
    case AnswerGarbled => (serve(before, call).0, Answer.Garbled)
    case Delivered => (serve(before, call).0, Readable(serve(before, call).1))
  }

  // ---- a whole run ----

  /** How a run ended, what the SERVICE was left as, and how many times the request went out. */
  datatype RunResult<M> = RunResult(outcome: Outcome, service: M, sent: nat)

  /** `_attempts`: how often a request may be re-sent. */
  function Attempts(r: Request, mutationRetries: nat): nat {
    if r.replayable then mutationRetries else 0
  }

  /** `_run` past its guard: attempts until one is not ambiguous or `left` re-sends are spent. */
  function RunFrom<M>(serve: Service<M>, m: M, r: Request, events: seq<Event>, left: nat): (run: RunResult<M>)
    requires |events| > left
    ensures 1 <= run.sent <= left + 1
    decreases left
  {
    var (after, answer) := Exchange(serve, m, r.call, events[0]);
    var outcome := AttemptOf(r, answer);
    if left > 0 && outcome.Raised? && IsAmbiguous(outcome.error.kind) then
      var rest := RunFrom(serve, after, r, events[1..], left - 1);
      rest.(sent := rest.sent + 1)
    else RunResult(outcome, after, 1)
  }

  /** The SERVICE after the first `n` attempts. */
  function ServiceAfter<M>(serve: Service<M>, m: M, call: Call, events: seq<Event>, n: nat): M
    requires n <= |events|
  {
    if n == 0 then m else Exchange(serve, ServiceAfter(serve, m, call, events, n - 1), call, events[n - 1]).0
  }

  /** What the `n`th attempt is answered. */
  function AnswerTo<M>(serve: Service<M>, m: M, call: Call, events: seq<Event>, n: nat): Answer
    requires 0 < n <= |events|
  {
    Exchange(serve, ServiceAfter(serve, m, call, events, n - 1), call, events[n - 1]).1
  }

  lemma {:induction false} ServiceAfterFirst<M>(serve: Service<M>, m: M, call: Call, events: seq<Event>, n: nat)
    requires 0 < n <= |events|
    ensures ServiceAfter(serve, m, call, events, n) ==
            ServiceAfter(serve, Exchange(serve, m, call, events[0]).0, call, events[1..], n - 1)
  {
    if n == 1 {
      assert ServiceAfter(serve, m, call, events, 0) == m;
    } else {
      ServiceAfterFirst(serve, m, call, events, n - 1);
    }
  }

  /** A run whose first answer does not arrive goes on, while it may. */
  lemma RunGoesOn<M>(serve: Service<M>, m: M, r: Request, events: seq<Event>, left: nat)
    requires |events| > left > 0 && !events[0].fate.Delivered?
    ensures var rest := RunFrom(serve, Exchange(serve, m, r.call, events[0]).0, r, events[1..], left - 1);
      RunFrom(serve, m, r, events, left) == RunResult(rest.outcome, rest.service, rest.sent + 1)
  {
    LostIsAmbiguous(r);
  }

  lemma LostIsAmbiguous(r: Request)
    ensures AttemptOf(r, NoAnswer).Raised? && IsAmbiguous(AttemptOf(r, NoAnswer).error.kind)
    ensures AttemptOf(r, Answer.Garbled).Raised? && IsAmbiguous(AttemptOf(r, Answer.Garbled).error.kind)
  {
  }

  /** A run is decided by its last attempt. */
  lemma {:induction false} LastAttemptDecides<M>(serve: Service<M>, m: M, r: Request, events: seq<Event>, left: nat)
    requires |events| > left
    ensures var run := RunFrom(serve, m, r, events, left);
      && run.service == ServiceAfter(serve, m, r.call, events, run.sent)
      && run.outcome == AttemptOf(r, AnswerTo(serve, m, r.call, events, run.sent))
    decreases left
  {
    var run := RunFrom(serve, m, r, events, left);
    if run.sent == 1 {
      assert ServiceAfter(serve, m, r.call, events, 0) == m;
    } else {
      var after := Exchange(serve, m, r.call, events[0]).0;
      LastAttemptDecides(serve, after, r, events[1..], left - 1);
      ServiceAfterFirst(serve, m, r.call, events, run.sent);
      ServiceAfterFirst(serve, m, r.call, events, run.sent - 1);
    }
  }

  // ---- custody ----

  /** An answer a landed mutation may be given: OK, a dead input, or nothing usable. */
  predicate Faithful(b: Body) {
    !Discards(Readable(b))
  }

  ghost predicate AnswersLanded<M(!new)>(serve: Service<M>, applied: (M, Call) -> bool, m: M, call: Call) {
    applied(serve(m, call).0, call) ==> Faithful(serve(m, call).1)
  }

  ghost predicate StaysLanded<M(!new)>(serve: Service<M>, applied: (M, Call) -> bool, m: M, call: Call, other: Call) {
    applied(m, call) ==> applied(serve(m, other).0, call)
  }

  /**
   The hypothesis on a SERVICE: a mutation once applied stays applied, and a call whose mutation is applied when it has
   been served is answered faithfully.
   */
  ghost predicate KeepsFaith<M(!new)>(serve: Service<M>, applied: (M, Call) -> bool) {
    && (forall m, call :: AnswersLanded(serve, applied, m, call))
    && (forall m, call, other :: StaysLanded(serve, applied, m, call, other))
  }

  lemma {:induction false} OthersKeepLanded<M(!new)>(
    serve: Service<M>, applied: (M, Call) -> bool, m: M, call: Call, others: seq<Call>)
    requires KeepsFaith(serve, applied) && applied(m, call)
    ensures applied(AfterOthers(serve, m, others), call)
  {
    if others != [] {
      var front, last := others[..|others| - 1], others[|others| - 1];
      OthersKeepLanded(serve, applied, m, call, front);
      assert StaysLanded(serve, applied, AfterOthers(serve, m, front), call, last);
    }
  }

  lemma ExchangeKeepsLanded<M(!new)>(serve: Service<M>, applied: (M, Call) -> bool, m: M, call: Call, e: Event)
    requires KeepsFaith(serve, applied) && applied(m, call)
    ensures applied(Exchange(serve, m, call, e).0, call)
  {
    OthersKeepLanded(serve, applied, m, call, e.others);
    assert StaysLanded(serve, applied, AfterOthers(serve, m, e.others), call, call);
  }

  lemma {:induction false} LandedStays<M(!new)>(
    serve: Service<M>, applied: (M, Call) -> bool, m: M, call: Call, events: seq<Event>, i: nat, n: nat)
    requires KeepsFaith(serve, applied) && i <= n <= |events|
    requires applied(ServiceAfter(serve, m, call, events, i), call)
    ensures applied(ServiceAfter(serve, m, call, events, n), call)
    decreases n
  {
    if i < n {
      LandedStays(serve, applied, m, call, events, i, n - 1);
      ExchangeKeepsLanded(serve, applied, ServiceAfter(serve, m, call, events, n - 1), call, events[n - 1]);
    }
  }

  /**
   Custody. Whatever is lost, garbled or refused, and whoever else is at the SERVICE meanwhile: if the mutation was
   applied by the end of any attempt of the run, the run leaves its caller holding every fresh secret, in order.
   */
  lemma SecretsSurvive<M(!new)>(
    serve: Service<M>, applied: (M, Call) -> bool, m: M, r: Request, events: seq<Event>, mutationRetries: nat, i: nat)
    requires Generated(r) && KeepsFaith(serve, applied) && |events| > Attempts(r, mutationRetries)
    requires i <= RunFrom(serve, m, r, events, Attempts(r, mutationRetries)).sent
    requires applied(ServiceAfter(serve, m, r.call, events, i), r.call)
    ensures Carries(RunFrom(serve, m, r, events, Attempts(r, mutationRetries)).outcome, r.newSecrets)
  {
    var left := Attempts(r, mutationRetries);
    SecretsLostExactly(serve, m, r, events, left);
    LandedAnswersFaithfully(serve, applied, m, r.call, events, i, RunFrom(serve, m, r, events, left).sent);
  }

  lemma LandedAnswersFaithfully<M(!new)>(
    serve: Service<M>, applied: (M, Call) -> bool, m: M, call: Call, events: seq<Event>, i: nat, sent: nat)
    requires KeepsFaith(serve, applied) && 0 < sent <= |events| && i <= sent
    requires applied(ServiceAfter(serve, m, call, events, i), call)
    ensures !Discards(AnswerTo(serve, m, call, events, sent))
  {
    LandedStays(serve, applied, m, call, events, i, sent);
    LandedIsFaithful(serve, applied, ServiceAfter(serve, m, call, events, sent - 1), call, events[sent - 1]);
  }

  lemma LandedIsFaithful<M(!new)>(serve: Service<M>, applied: (M, Call) -> bool, m: M, call: Call, e: Event)
    requires KeepsFaith(serve, applied) && applied(Exchange(serve, m, call, e).0, call)
    ensures !Discards(Exchange(serve, m, call, e).1)
  {
    assert AnswersLanded(serve, applied, AfterOthers(serve, m, e.others), call);
  }

  /**
   Without the hypothesis, exactly: a run loses the secrets if and only if its last answer refuses on other grounds.
   */
  lemma SecretsLostExactly<M>(serve: Service<M>, m: M, r: Request, events: seq<Event>, left: nat)
    requires Generated(r) && |events| > left
    ensures var run := RunFrom(serve, m, r, events, left);
      Carries(run.outcome, r.newSecrets) <==> !Discards(AnswerTo(serve, m, r.call, events, run.sent))
  {
    LastAttemptDecides(serve, m, r, events, left);
    AttemptCarriesExactly(r, AnswerTo(serve, m, r.call, events, RunFrom(serve, m, r, events, left).sent));
  }

  /**
   What re-sending can cost, exactly: a run that retries loses the secrets a run that did not would have kept if and
   only if it sent more than once and its last answer refuses on other grounds.
   */
  lemma RetryLosesExactly<M>(serve: Service<M>, m: M, r: Request, events: seq<Event>, left: nat)
    requires Generated(r) && |events| > left
    ensures var once, run := RunFrom(serve, m, r, events, 0), RunFrom(serve, m, r, events, left);
      Carries(once.outcome, r.newSecrets) && !Carries(run.outcome, r.newSecrets) <==>
        run.sent > 1 && Discards(AnswerTo(serve, m, r.call, events, run.sent))
  {
    SecretsLostExactly(serve, m, r, events, left);
    AmbiguityCarries(r, Exchange(serve, m, r.call, events[0]).1);
  }

  lemma AmbiguityCarries(r: Request, a: Answer)
    requires Generated(r)
    ensures var o := AttemptOf(r, a);
      o.Raised? && IsAmbiguous(o.error.kind) ==> Carries(o, r.newSecrets)
  {
    AttemptCarriesExactly(r, a);
  }

  /** A SERVICE that applies a mutation once and refuses its repeat on other grounds. */
  function ForgetfulServe(landed: bool, call: Call): (bool, Body) {
    (true, if landed then ErrorBody(Field.Text(TAKEN)) else OkBody(Absent, Absent, Absent, Absent))
  }

  /** The hypothesis is needed: at such a SERVICE one lost answer and a retry end without the only copy of the note. */
  lemma FaithIsNeeded(r: Request)
    requires Generated(r) && r.replayable
    ensures var events := [Event([], AnswerLost), Event([], Delivered)];
      var run := RunFrom(ForgetfulServe, false, r, events, Attempts(r, 1));
      && run.sent == 2 && run.service
      && run.outcome == Raised(Error(OutputInUse, [])) && !Carries(run.outcome, r.newSecrets)
  {
    var lost, told := Event([], AnswerLost), Event([], Delivered);
    LostThenRetried(ForgetfulServe, false, r, lost, told);
    TakenReads();
    ToldInUse(ForgetfulServe, true, r, told, Field.Text(TAKEN));
  }

  lemma LostThenRetried<M>(serve: Service<M>, m: M, r: Request, lost: Event, next: Event)
    requires lost == Event([], AnswerLost)
    ensures var rest := RunFrom(serve, serve(m, r.call).0, r, [next], 0);
      RunFrom(serve, m, r, [lost, next], 1) == RunResult(rest.outcome, rest.service, rest.sent + 1)
  {
    assert [lost, next][1..] == [next];
    assert Exchange(serve, m, r.call, lost) == (serve(m, r.call).0, NoAnswer);
  }

  lemma ToldInUse<M>(serve: Service<M>, m: M, r: Request, told: Event, reason: Field)
    requires r.newSecrets != [] && told == Event([], Delivered)
    requires serve(m, r.call).1 == ErrorBody(reason) && RefusalOf(reason) == OutputInUse
    ensures RunFrom(serve, m, r, [told], 0) == RunResult(Raised(Error(OutputInUse, [])), serve(m, r.call).0, 1)
  {
    ToldPlainly(r, reason);
  }

  lemma ToldPlainly(r: Request, reason: Field)
    requires RefusalOf(reason) == OutputInUse
    ensures AttemptOf(r, Readable(ErrorBody(reason))) == Raised(Error(OutputInUse, []))
  {
    RefusedAs(r, reason, OutputInUse);
    PlainRefusalIsKept(r, Error(OutputInUse, []));
  }

  // ---- a replay is one perfect exchange ----

  /** A SERVICE that answers a repeated call as it did the first time and changes nothing more. */
  ghost predicate Replays<M(!new)>(serve: Service<M>, m: M, call: Call) {
    serve(serve(m, call).0, call) == serve(m, call) && !serve(m, call).1.OtherBody?
  }

  predicate Quiet(events: seq<Event>) {
    forall i :: 0 <= i < |events| ==> events[i].others == []
  }

  /**
   Retrying refines one lossless exchange. With nobody else at a SERVICE that replays, if any of the answers the loop
   waits for arrives, the outcome and the SERVICE are those of a single GET that lost nothing, whatever was lost before.
   */
  lemma {:induction false} RetryIsOneExchange<M(!new)>(
    serve: Service<M>, m: M, r: Request, events: seq<Event>, left: nat, arrives: nat)
    requires Replays(serve, m, r.call) && Quiet(events) && |events| > left >= arrives && events[arrives].fate.Delivered?
    ensures var run := RunFrom(serve, m, r, events, left);
      && run.outcome == AttemptOf(r, Readable(serve(m, r.call).1))
      && run.service == serve(m, r.call).0
      && run.sent <= arrives + 1
    decreases left
  {
    var (after, answer) := Exchange(serve, m, r.call, events[0]);
    if events[0].fate.Delivered? {
      UsableEnds(r, serve(m, r.call).1);
    } else {
      assert Quiet(events[1..]);
      RunGoesOn(serve, m, r, events, left);
      assert Replays(serve, after, r.call);
      RetryIsOneExchange(serve, after, r, events[1..], left - 1, arrives - 1);
    }
  }

  /** Only an unusable answer is ambiguous. */
  lemma UsableEnds(r: Request, b: Body)
    requires !b.OtherBody?
    ensures var o := AttemptOf(r, Readable(b));
      o.Raised? ==> !IsAmbiguous(o.error.kind)
  {
    if Parse(r, b).Err? {
      ParseFails(r, b);
      PreserveKeepsKind(r, Parse(r, b).error);
    }
  }

  /**
   Nothing but the mutation itself can have happened at a quiet SERVICE: it is as it was, or as one call leaves it.
   */
  lemma {:induction false} AtMostOnce<M(!new)>(serve: Service<M>, m: M, call: Call, events: seq<Event>, n: nat)
    requires Replays(serve, m, call) && Quiet(events) && n <= |events|
    ensures ServiceAfter(serve, m, call, events, n) == m || ServiceAfter(serve, m, call, events, n) == serve(m, call).0
  {
    if n > 0 {
      AtMostOnce(serve, m, call, events, n - 1);
    }
  }

  /** How often a request goes out: once and its re-sends at most, and exactly so often where every answer is lost. */
  lemma {:induction false} SentAtMost<M>(serve: Service<M>, m: M, r: Request, events: seq<Event>, left: nat)
    requires |events| > left
    ensures var run := RunFrom(serve, m, r, events, left);
      (forall i :: 0 <= i < left ==> !events[i].fate.Delivered?) ==> run.sent == left + 1
    decreases left
  {
    if left > 0 && forall i :: 0 <= i < left ==> !events[i].fate.Delivered? {
      RunGoesOn(serve, m, r, events, left);
      SentAtMost(serve, Exchange(serve, m, r.call, events[0]).0, r, events[1..], left - 1);
    }
  }

  /** Only a replayable request is re-sent, and as often as the client is set to. */
  lemma ReplaysAsSet(r: Request, mutationRetries: nat)
    ensures Attempts(r, mutationRetries) == if r.replayable then mutationRetries else 0
  {
  }

  /** A request that is not replayable goes out once, whatever becomes of it. */
  lemma MeltSentOnce<M>(serve: Service<M>, m: M, allowed: bool, k1: string, pr: string, events: seq<Event>,
                        mutationRetries: nat)
    requires MeltRequest(allowed, k1, pr).Ok? && |events| > 0
    ensures RunFrom(serve, m, MeltRequest(allowed, k1, pr).value, events,
                    Attempts(MeltRequest(allowed, k1, pr).value, mutationRetries)).sent == 1
  {
  }

  // ---- the client as it runs ----

  /** An exception in flight: what class it is, and the secrets it has been given to carry. */
  class Failure {
    const kind: ErrorKind
    var newSecrets: seq<string>

    constructor (kind: ErrorKind, newSecrets: seq<string>)
      ensures Value() == Error(kind, newSecrets)
    {
      this.kind := kind;
      this.newSecrets := newSecrets;
    }

    function Value(): Error
      reads this
    {
      Error(kind, newSecrets)
    }
  }

  /** The connection to one SERVICE: every GET is put on the wire and meets the next event. */
  class Network<M> {
    const serve: Service<M>
    var service: M
    var events: seq<Event>
    var sent: seq<Call>

    constructor (serve: Service<M>, service: M, events: seq<Event>)
      ensures this.serve == serve && this.service == service && this.events == events && sent == []
    {
      this.serve := serve;
      this.service := service;
      this.events := events;
      sent := [];
    }

    method Get(call: Call) returns (answer: Answer)
      requires events != []
      modifies this
      ensures (service, answer) == Exchange(serve, old(service), call, old(events)[0])
      ensures events == old(events)[1..] && sent == old(sent) + [call]
    {
      var exchanged := Exchange(serve, service, call, events[0]);
      service, answer := exchanged.0, exchanged.1;
      events := events[1..];
      sent := sent + [call];
    }
  }

  /** An outcome, as a value or a raised exception. */
  ghost predicate Is(o: Outcome, value: Option<Value>, err: Failure?)
    reads if err == null then {} else {err}
  {
    match o
    case Returned(v) => value == Some(v) && err == null
    case Raised(e) => value.None? && err != null && err.Value() == e
  }

  class LnurlcashClient {
    const offline: bool
    const mutationRetries: nat

    constructor (offline: bool, mutationRetries: int)
      ensures this.offline == offline
      ensures this.mutationRetries == if mutationRetries > 0 then mutationRetries else 0
    {
      this.offline := offline;
      this.mutationRetries := if mutationRetries > 0 then mutationRetries else 0;
    }

    /** `_preserve`: the secrets are attached to the exception in place, except that an ambiguous one is replaced. */
    method AttachSecrets(r: Request, err: Failure) returns (out: Failure)
      modifies err
      ensures out.Value() == Preserve(r, old(err.Value()))
      ensures out == err || fresh(out)
    {
      if r.newSecrets == [] {
        return err;
      }
      if IsAmbiguous(err.kind) {
        out := new Failure(AmbiguousMutation, r.newSecrets);
        return out;
      }
      if err.kind.UnverifiableNote? || err.kind.NoteSpent? || err.kind.NoteUnknown? {
        err.newSecrets := r.newSecrets;
      }
      return err;
    }

    /** `_attempt`: one GET, its answer decoded and parsed, its failure carrying the secrets. */
    method Attempt<M>(net: Network<M>, r: Request) returns (value: Option<Value>, err: Failure?)
      requires net.events != []
      modifies net
      ensures var exchanged := Exchange(net.serve, old(net.service), r.call, old(net.events)[0]);
        net.service == exchanged.0 && Is(AttemptOf(r, exchanged.1), value, err)
      ensures net.events == old(net.events)[1..] && net.sent == old(net.sent) + [r.call]
      ensures err != null ==> fresh(err)
    {
      var answer := net.Get(r.call);
      value, err := None, null;
      match answer {
        case NoAnswer =>
          var lost := new Failure(AmbiguousMint, []);
          err := AttachSecrets(r, lost);
        case Garbled =>
          var unreadable := new Failure(AmbiguousMint, []);
          err := AttachSecrets(r, unreadable);
        case Readable(body) =>
          match Parse(r, body) {
            case Ok(v) => value := Some(v);
            case Err(e) =>
              var refused := new Failure(e.kind, e.newSecrets);
              err := AttachSecrets(r, refused);
          }
      }
    }

    /** `_run`. `allowed` says whether the request's URL may be fetched at all. */
    method Run<M>(net: Network<M>, r: Request, allowed: bool) returns (value: Option<Value>, err: Failure?)
      requires |net.events| > Attempts(r, mutationRetries)
      modifies net
      ensures offline || !allowed ==>
                Is(Raised(Error(RequestRefused, [])), value, err) &&
                net.sent == old(net.sent) && net.service == old(net.service) && net.events == old(net.events)
      ensures !offline && allowed ==>
                var run := RunFrom(net.serve, old(net.service), r, old(net.events), Attempts(r, mutationRetries));
                && Is(run.outcome, value, err)
                && net.service == run.service
                && net.sent == old(net.sent) + seq(run.sent, _ => r.call)
    {
      if offline || !allowed {
        err := new Failure(RequestRefused, []);
        return None, err;
      }
      ghost var run := RunFrom(net.serve, net.service, r, net.events, Attempts(r, mutationRetries));
      var attempt := 0;
      while true
        invariant attempt <= Attempts(r, mutationRetries) < attempt + |net.events|
        invariant var left := Attempts(r, mutationRetries) - attempt;
          Continues(run, RunFrom(net.serve, net.service, r, net.events, left), attempt)
        invariant net.sent == old(net.sent) + seq(attempt, _ => r.call)
        decreases Attempts(r, mutationRetries) - attempt
      {
        value, err := Attempt(net, r);
        assert seq(attempt, _ => r.call) + [r.call] == seq(attempt + 1, _ => r.call);
        if err == null || !IsAmbiguous(err.kind) || attempt >= Attempts(r, mutationRetries) {
          return value, err;
        }
        attempt := attempt + 1;
      }
    }
  }

  /** What is left of a run after some of its attempts. */
  ghost predicate Continues<M>(run: RunResult<M>, rest: RunResult<M>, done: nat) {
    run.outcome == rest.outcome && run.service == rest.service && run.sent == done + rest.sent
  }

  // ---- the informational GET ----

  datatype NoteInfo = NoteInfo(callback: string, maxWithdrawable: nat)

  /**
   Its JSON: an ERROR and its reason, a withdrawRequest the policy takes and the k1 it echoes, or anything else.
   */
  datatype InfoBody = InfoError(reason: string) | WithdrawRequest(k1: string, info: NoteInfo) | NoWithdrawRequest

  /** What it comes back with, if it may be sent at all. */
  datatype InfoAnswer = NotSent | NoInfo | GarbledInfo | ReadableInfo(body: InfoBody)

  datatype InfoOutcome = Known(info: NoteInfo) | InfoRaised(error: Error)

  /** `_same_note`: one spelling, or two spends of one key, which is what `alike` says of two k1s. */
  predicate SameNote(alike: (string, string) -> bool, a: string, b: string) {
    Lower(Strip(a)) == Lower(Strip(b)) || alike(Lower(Strip(a)), Lower(Strip(b)))
  }

  /** `fetch_note_info`. A refusal is read by its wording alone, and nothing carries secrets. */
  function FetchNoteInfo(alike: (string, string) -> bool, queried: string, a: InfoAnswer): InfoOutcome {
    match a
    case NotSent => InfoRaised(Error(RequestRefused, []))
    case NoInfo => InfoRaised(Error(AmbiguousMint, []))
    case GarbledInfo => InfoRaised(Error(AmbiguousMint, []))
    case ReadableInfo(InfoError(reason)) => InfoRaised(Error(Classify(reason), []))
    case ReadableInfo(WithdrawRequest(k1, info)) =>
      if queried != "" && !SameNote(alike, k1, queried) then InfoRaised(Error(ErrorKind.ProtocolError, []))
      else Known(info)
    case ReadableInfo(NoWithdrawRequest) => InfoRaised(Error(ErrorKind.ProtocolError, []))
  }

  // ---- settling and probing ----

  datatype Settlement =
    | Settled(k1: string, amount: nat, signature: Option<string>, callback: string)
    | SettleRaised(error: Error)

  /** `settle_note`, given how its informational GET and its rotate ended. */
  function SettleOf(info: InfoOutcome, k1: string, signature: Option<string>, rotated: Outcome): Settlement {
    match info
    case InfoRaised(e) => SettleRaised(e)
    case Known(note) =>
      match rotated
      case Raised(e) =>
        if IsAmbiguous(e.kind) || NewSecretsOf(e) != [] then SettleRaised(e)
        else Settled(k1, note.maxWithdrawable, signature, note.callback)
      case Returned(v) =>
        if v.RotateResult? then Settled(v.k1, note.maxWithdrawable, v.signature, note.callback)
        else SettleRaised(Error(AmbiguousMint, []))
  }

  /**
   Settling never hands back a burned note: if its rotate landed in any attempt, what it returns is the fresh secret,
   and what it raises carries it.
   */
  lemma SettleNeverKeepsBurned<M(!new)>(
    serve: Service<M>, applied: (M, Call) -> bool, m: M, w: Wallet, allowed: bool, k1: string, secret: string,
    events: seq<Event>, mutationRetries: nat, i: nat, note: NoteInfo, signature: Option<string>)
    requires KeepsFaith(serve, applied) && RotateRequest(w, allowed, k1, secret).Ok?
    requires |events| > Attempts(RotateRequest(w, allowed, k1, secret).value, mutationRetries)
    requires var r := RotateRequest(w, allowed, k1, secret).value;
      && i <= RunFrom(serve, m, r, events, Attempts(r, mutationRetries)).sent
      && applied(ServiceAfter(serve, m, r.call, events, i), r.call)
    ensures var r := RotateRequest(w, allowed, k1, secret).value;
      var rotated := RunFrom(serve, m, r, events, Attempts(r, mutationRetries)).outcome;
      match SettleOf(Known(note), k1, signature, rotated)
      case Settled(kept, amount, certificate, callback) =>
        && kept == secret && amount == note.maxWithdrawable && callback == note.callback
        && rotated == Returned(RotateResult(secret, certificate))
      case SettleRaised(e) => NewSecretsOf(e) == [secret]
  {
    var r := RotateRequest(w, allowed, k1, secret).value;
    var left := Attempts(r, mutationRetries);
    BuildersGenerate(w, allowed, k1, [], 0, secret, secret);
    SecretsSurvive(serve, applied, m, r, events, mutationRetries, i);
    var run := RunFrom(serve, m, r, events, left);
    LastAttemptDecides(serve, m, r, events, left);
    RotateReturnsRotate(r, secret, AnswerTo(serve, m, r.call, events, run.sent));
  }

  lemma RotateReturnsRotate(r: Request, secret: string, a: Answer)
    requires r.shape == Rotated(secret)
    ensures AttemptOf(r, a).Returned? ==> AttemptOf(r, a).value.RotateResult?
  {
  }

  datatype Probe = Live | Gone | Unknown

  /** `probe_burned_note`. */
  function ProbeOf(info: InfoOutcome): Probe {
    match info
    case Known(_) => Live
    case InfoRaised(e) => if e.kind.NoteSpent? || e.kind.NoteUnknown? then Gone else Unknown
  }

  /**
   Exactly what each verdict of the probe rests on: `Live` on a withdrawRequest for this very note, `Gone` on a refusal
   that says it is dead, and everything else, another note's echo included, is `Unknown`.
   */
  lemma ProbeRestsOn(alike: (string, string) -> bool, k1: string, a: InfoAnswer)
    ensures var probe := ProbeOf(FetchNoteInfo(alike, k1, a));
      && (probe == Live <==>
            a.ReadableInfo? && a.body.WithdrawRequest? && (k1 == "" || SameNote(alike, a.body.k1, k1)))
      && (probe == Gone <==>
            a.ReadableInfo? && a.body.InfoError? && (SaysSpent(a.body.reason) || SaysUnknown(a.body.reason)))
  {
    if a.ReadableInfo? && a.body.InfoError? {
      ClassifiedExactly(a.body.reason);
    }
  }
}
