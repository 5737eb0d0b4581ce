/**
 A SERVICE as LUD-25's section "Retrying a mutation" asks for one: it files notes under their ids, and answers a rotate,
 split or merge it has already applied with the success it gave then. What the client relies on is proved of it,
 whatever other wallets ask of it meanwhile.
 */
module Ledger {
  import opened Prelude
  import opened Protocol
  import opened Client

  type NoteId = string

  /** What the SERVICE reads off the wire: the note a `k1` opens, the note an output names, and its certificates. */
  datatype Rules = Rules(
    opens: string -> Option<NoteId>, names: string -> Option<NoteId>, certify: (NoteId, nat) -> Field)

  /** What a replay is matched on: the notes opened, the amount, and the notes named. */
  datatype Key = Key(inputs: seq<NoteId>, amount: Option<int>, outputs: seq<NoteId>)

  /** Outstanding notes, burned ones, the successes given so far, and the msat melted away. */
  datatype Ledger = Ledger(live: map<NoteId, nat>, burned: set<NoteId>, log: map<Key, Body>, paid: nat)

  // ---- one call ----

  function ReadAll(read: string -> Option<NoteId>, values: seq<string>): (ids: Option<seq<NoteId>>)
    ensures ids.Some? ==> |ids.value| == |values|
  {
    if forall i :: 0 <= i < |values| ==> read(values[i]).Some? then
      Some(seq(|values|, i requires 0 <= i < |values| && read(values[i]).Some? => read(values[i]).value))
    else None
  }

  function KeyOf(rules: Rules, call: Call): Option<Key> {
    if call.Melt? then None
    else
      var inputs, outputs := ReadAll(rules.opens, call.k1s), ReadAll(rules.names, call.outputs);
      if inputs.None? || outputs.None? then None else Some(Key(inputs.value, call.amount, outputs.value))
  }

  predicate Distinct(ids: seq<NoteId>) {
    forall i, j :: 0 <= i < j < |ids| ==> ids[i] != ids[j]
  }

  function SetOf(ids: seq<NoteId>): set<NoteId> {
    set id | id in ids
  }

  function Worth(live: map<NoteId, nat>, ids: seq<NoteId>): nat
    requires forall id :: id in ids ==> id in live
  {
    if ids == [] then 0 else Worth(live, ids[..|ids| - 1]) + live[ids[|ids| - 1]]
  }

  /** What the outputs are worth: all of it, or an amount and its change. */
  function Shares(total: nat, amount: Option<int>, outputs: nat): (shares: Option<seq<nat>>)
    ensures shares.Some? ==> |shares.value| == outputs
  {
    if outputs == 1 && amount.None? then Some([total])
    else if outputs == 2 && amount.Some? && 0 < amount.value < total then Some([amount.value, total - amount.value])
    else None
  }

  const INVALID := "Bad request."

  datatype Plan = Refuse(reason: string) | Replay(body: Body) | Apply(key: Key, shares: seq<nat>)

  function PlanOf(l: Ledger, key: Key): (p: Plan)
    ensures p.Apply? ==> p.key == key && |p.shares| == |key.outputs|
  {
    if key in l.log then Replay(l.log[key])
    else if !Distinct(key.inputs) || !Distinct(key.outputs) then Refuse(INVALID)
    else if exists id :: id in key.inputs && id in l.burned then Refuse(BURNED)
    else if exists id :: id in key.inputs && id !in l.live then Refuse(UNKNOWN)
    else if exists id :: id in key.outputs && (id in l.live || id in l.burned) then Refuse(TAKEN)
    else
      match Shares(Worth(l.live, key.inputs), key.amount, |key.outputs|)
      case None => Refuse(INVALID)
      case Some(shares) => Apply(key, shares)
  }

  function Minted(live: map<NoteId, nat>, ids: seq<NoteId>, shares: seq<nat>): map<NoteId, nat>
    requires |ids| == |shares|
  {
    if ids == [] then live
    else Minted(live, ids[..|ids| - 1], shares[..|ids| - 1])[ids[|ids| - 1] := shares[|ids| - 1]]
  }

  function Success(rules: Rules, key: Key, shares: seq<nat>): Body
    requires |key.outputs| == |shares|
  {
    OkBody(if |shares| > 0 then rules.certify(key.outputs[0], shares[0]) else Absent, Absent,
           if |shares| > 1 then rules.certify(key.outputs[1], shares[1]) else Absent, Absent)
  }

  function Applied(rules: Rules, l: Ledger, key: Key, shares: seq<nat>): Ledger
    requires |key.outputs| == |shares|
  {
    Ledger(Minted(l.live - SetOf(key.inputs), key.outputs, shares), l.burned + SetOf(key.inputs),
           l.log[key := Success(rules, key, shares)], l.paid)
  }

  function Mutate(rules: Rules, l: Ledger, key: Key): (Ledger, Body) {
    match PlanOf(l, key)
    case Refuse(reason) => (l, ErrorBody(Field.Text(reason)))
    case Replay(body) => (l, body)
    case Apply(_, shares) => (Applied(rules, l, key, shares), Success(rules, key, shares))
  }

  /** A melt burns its note and pays out; asked again it finds the note burned. */
  function MeltAway(rules: Rules, l: Ledger, k1: string): (Ledger, Body) {
    match rules.opens(k1)
    case None => (l, ErrorBody(Field.Text(UNKNOWN)))
    case Some(id) =>
      if id in l.burned then (l, ErrorBody(Field.Text(BURNED)))
      else if id !in l.live then (l, ErrorBody(Field.Text(UNKNOWN)))
      else (l.(live := l.live - {id}, burned := l.burned + {id}, paid := l.paid + l.live[id]),
            OkBody(Absent, Absent, Absent, Absent))
  }

  function Serve(rules: Rules, l: Ledger, call: Call): (Ledger, Body) {
    if call.Melt? then MeltAway(rules, l, call.k1)
    else
      match KeyOf(rules, call)
      case None => (l, ErrorBody(Field.Text(UNKNOWN)))
      case Some(key) => Mutate(rules, l, key)
  }

  function Serving(rules: Rules): Service<Ledger> {
    (l: Ledger, call: Call) => Serve(rules, l, call)
  }

  // ---- what every call keeps ----

  /**
   No note is both outstanding and burned, and what was applied stays visible: its inputs burned, its outputs known.
   */
  ghost predicate LoggedSoundly(l: Ledger, key: Key) {
    && key in l.log && l.log[key].OkBody?
    && (forall id :: id in key.inputs ==> id in l.burned)
    && (forall id :: id in key.outputs ==> id in l.live || id in l.burned)
  }

  ghost predicate WellFormed(l: Ledger) {
    && l.live.Keys !! l.burned
    && (forall key :: key in l.log ==> LoggedSoundly(l, key))
  }

  /** A note once burned stays burned, and a success once given is never forgotten or changed. */
  ghost predicate Extends(before: Ledger, after: Ledger) {
    && before.burned <= after.burned
    && (forall key :: key in before.log ==> key in after.log && after.log[key] == before.log[key])
    && (forall id :: id in before.live ==>
          id in after.burned || (id in after.live && after.live[id] == before.live[id]))
  }

  ghost function Total(live: map<NoteId, nat>): nat
    decreases |live|
  {
    if live.Keys == {} then 0
    else
      var id :| id in live;
      live[id] + Total(live - {id})
  }

  /** What every step keeps: a sound ledger, nothing forgotten, and the same msat outstanding or paid out. */
  ghost predicate Keeps(before: Ledger, after: Ledger) {
    WellFormed(after) && Extends(before, after) && Total(after.live) + after.paid == Total(before.live) + before.paid
  }

  lemma KeepsOn(a: Ledger, b: Ledger, c: Ledger)
    requires Keeps(a, b) && Keeps(b, c)
    ensures Keeps(a, c)
  {
  }

  lemma {:induction false} TotalWithout(live: map<NoteId, nat>, id: NoteId)
    requires id in live
    ensures Total(live) == live[id] + Total(live - {id})
    decreases |live|
  {
    var first :| first in live && Total(live) == live[first] + Total(live - {first});
    if first != id {
      TotalWithout(live - {first}, id);
      TotalWithout(live - {id}, first);
      assert live - {first} - {id} == live - {id} - {first};
    }
  }

  lemma TotalWith(live: map<NoteId, nat>, id: NoteId, share: nat)
    requires id !in live
    ensures Total(live[id := share]) == Total(live) + share
  {
    TotalWithout(live[id := share], id);
    assert live[id := share] - {id} == live;
  }

  lemma {:induction false} TotalBurned(live: map<NoteId, nat>, ids: seq<NoteId>)
    requires Distinct(ids) && forall id :: id in ids ==> id in live
    ensures Total(live) == Worth(live, ids) + Total(live - SetOf(ids))
  {
    if ids == [] {
      assert live - SetOf(ids) == live;
    } else {
      var front, last := ids[..|ids| - 1], ids[|ids| - 1];
      assert ids == front + [last];
      TotalBurned(live, front);
      TotalWithout(live - SetOf(front), last);
      assert live - SetOf(front) - {last} == live - SetOf(ids);
    }
  }

  function SumOf(shares: seq<nat>): nat {
    if shares == [] then 0 else SumOf(shares[..|shares| - 1]) + shares[|shares| - 1]
  }

  /** Minting did exactly what it says. */
  ghost predicate MintsExactly(live: map<NoteId, nat>, ids: seq<NoteId>, shares: seq<nat>, minted: map<NoteId, nat>)
    requires |ids| == |shares|
  {
    && minted.Keys == live.Keys + SetOf(ids)
    && (forall id :: id in live ==> minted[id] == live[id])
    && (forall i :: 0 <= i < |ids| ==> ids[i] in minted && minted[ids[i]] == shares[i])
    && Total(minted) == Total(live) + SumOf(shares)
  }

  lemma MintsOneMore(live: map<NoteId, nat>, ids: seq<NoteId>, shares: seq<nat>, minted: map<NoteId, nat>, id: NoteId,
                     share: nat)
    requires |ids| == |shares| && MintsExactly(live, ids, shares, minted) && id !in live && id !in ids
    ensures MintsExactly(live, ids + [id], shares + [share], minted[id := share])
  {
    TotalWith(minted, id, share);
    assert (shares + [share])[..|shares|] == shares;
    assert SetOf(ids + [id]) == SetOf(ids) + {id};
  }

  lemma {:induction false} MintedExactly(live: map<NoteId, nat>, ids: seq<NoteId>, shares: seq<nat>)
    requires |ids| == |shares| && Distinct(ids) && forall id :: id in ids ==> id !in live
    ensures MintsExactly(live, ids, shares, Minted(live, ids, shares))
  {
    if ids == [] {
      MintsNothing(live, ids, shares);
    } else {
      var n := |ids| - 1;
      MintedExactly(live, ids[..n], shares[..n]);
      LastIsNew(ids);
      MintsOneMore(live, ids[..n], shares[..n], Minted(live, ids[..n], shares[..n]), ids[n], shares[n]);
      LastOnTop(ids);
      LastOnTop(shares);
    }
  }

  lemma MintsNothing(live: map<NoteId, nat>, ids: seq<NoteId>, shares: seq<nat>)
    requires ids == [] && shares == []
    ensures MintsExactly(live, ids, shares, live)
  {
    assert live.Keys + SetOf(ids) == live.Keys;
  }

  lemma LastIsNew(ids: seq<NoteId>)
    requires ids != [] && Distinct(ids)
    ensures ids[|ids| - 1] !in ids[..|ids| - 1]
  {
  }

  lemma SharesAddUp(total: nat, amount: Option<int>, outputs: nat)
    requires Shares(total, amount, outputs).Some?
    ensures SumOf(Shares(total, amount, outputs).value) == total
  {
    var shares := Shares(total, amount, outputs).value;
    assert shares[..|shares| - 1] == if outputs == 1 then [] else [shares[0]];
    if outputs == 2 {
      assert SumOf([shares[0]]) == SumOf([]) + shares[0];
    }
  }

  /**
   One mutation applied: exactly its inputs burned, exactly its outputs minted, each at its own share of what the inputs
   were worth, and no value made or lost.
   */
  ghost predicate AppliedOnce(l: Ledger, after: Ledger, key: Key) {
    && (forall id :: id in key.inputs ==> id in l.live)
    && after.burned == l.burned + SetOf(key.inputs)
    && after.live.Keys == l.live.Keys - SetOf(key.inputs) + SetOf(key.outputs)
    && (forall id :: id in l.live && id !in key.inputs ==> id in after.live && after.live[id] == l.live[id])
    && OutputsWorth(after.live, key, Worth(l.live, key.inputs))
    && Total(after.live) == Total(l.live) && after.paid == l.paid
  }

  /** A rotate's or merge's output is worth all of it; a split's the amount named, and its change the rest. */
  ghost predicate OutputsWorth(live: map<NoteId, nat>, key: Key, total: nat) {
    && 1 <= |key.outputs| <= 2 && (forall i :: 0 <= i < |key.outputs| ==> key.outputs[i] in live)
    && if |key.outputs| == 1 then live[key.outputs[0]] == total
       else key.amount.Some? && live[key.outputs[0]] == key.amount.value &&
            live[key.outputs[1]] == total - key.amount.value
  }

  lemma AppliedExactly(rules: Rules, l: Ledger, key: Key)
    requires WellFormed(l) && PlanOf(l, key).Apply?
    ensures AppliedOnce(l, Mutate(rules, l, key).0, key)
  {
    var shares := PlanOf(l, key).shares;
    var kept := l.live - SetOf(key.inputs);
    TotalBurned(l.live, key.inputs);
    SharesAddUp(Worth(l.live, key.inputs), key.amount, |key.outputs|);
    MintedExactly(kept, key.outputs, shares);
    SharesAreWorth(Minted(kept, key.outputs, shares), key, Worth(l.live, key.inputs), shares);
  }

  lemma SharesAreWorth(minted: map<NoteId, nat>, key: Key, total: nat, shares: seq<nat>)
    requires Shares(total, key.amount, |key.outputs|) == Some(shares)
    requires forall i :: 0 <= i < |shares| ==> key.outputs[i] in minted && minted[key.outputs[i]] == shares[i]
    ensures OutputsWorth(minted, key, total)
  {
  }

  lemma AppliedKeeps(rules: Rules, l: Ledger, key: Key)
    requires WellFormed(l) && PlanOf(l, key).Apply?
    ensures WellFormed(Mutate(rules, l, key).0) && Extends(l, Mutate(rules, l, key).0)
  {
    var after := Mutate(rules, l, key).0;
    AppliedExactly(rules, l, key);
    forall k | k in after.log ensures LoggedSoundly(after, k) {
      if k != key {
        assert LoggedSoundly(l, k);
      }
    }
  }

  lemma MeltKeeps(rules: Rules, l: Ledger, k1: string)
    requires WellFormed(l)
    ensures Keeps(l, MeltAway(rules, l, k1).0)
  {
    var after := MeltAway(rules, l, k1).0;
    if after != l {
      TotalWithout(l.live, rules.opens(k1).value);
      forall key | key in after.log ensures LoggedSoundly(after, key) {
        assert LoggedSoundly(l, key);
      }
    }
  }

  /** Every call, whoever makes it, keeps the ledger sound, forgets nothing, and conserves value. */
  lemma EveryCallKeeps(rules: Rules, l: Ledger, call: Call)
    requires WellFormed(l)
    ensures Keeps(l, Serve(rules, l, call).0)
  {
    if call.Melt? {
      MeltKeeps(rules, l, call.k1);
    } else if KeyOf(rules, call).Some? && PlanOf(l, KeyOf(rules, call).value).Apply? {
      AppliedKeeps(rules, l, KeyOf(rules, call).value);
      AppliedExactly(rules, l, KeyOf(rules, call).value);
    }
  }

  /** And so does every run of calls: no schedule of wallets, retries and melts double-spends or mints value. */
  lemma {:induction false} EveryRunKeeps(rules: Rules, l: Ledger, calls: seq<Call>)
    requires WellFormed(l)
    ensures Keeps(l, AfterOthers(Serving(rules), l, calls))
  {
    if calls != [] {
      var front := calls[..|calls| - 1];
      EveryRunKeeps(rules, l, front);
      var before := AfterOthers(Serving(rules), l, front);
      EveryCallKeeps(rules, before, calls[|calls| - 1]);
      KeepsOn(l, before, Serve(rules, before, calls[|calls| - 1]).0);
    }
  }

  // ---- the client's hypotheses hold here ----

  /** A mutation has been applied when its success is on the log. */
  predicate Landed(rules: Rules, l: Ledger, call: Call) {
    var key := KeyOf(rules, call);
    key.Some? && key.value in l.log && l.log[key.value].OkBody?
  }

  function LandedAt(rules: Rules): (Ledger, Call) -> bool {
    (l: Ledger, call: Call) => Landed(rules, l, call)
  }

  /** A success on the log outlives every call. */
  lemma LogOutlives(rules: Rules, l: Ledger, call: Call, key: Key)
    requires key in l.log
    ensures key in Serve(rules, l, call).0.log && Serve(rules, l, call).0.log[key] == l.log[key]
  {
  }

  /** A SERVICE with a replay log keeps faith, whatever state it is in. */
  lemma LedgerKeepsFaith(rules: Rules)
    ensures KeepsFaith(Serving(rules), LandedAt(rules))
  {
    var serve, applied := Serving(rules), LandedAt(rules);
    forall l, call ensures AnswersLanded(serve, applied, l, call) {
      if Landed(rules, Serve(rules, l, call).0, call) {
        LandedAnswersOk(rules, l, call);
      }
    }
    forall l, call, other ensures StaysLanded(serve, applied, l, call, other) {
      if Landed(rules, l, call) {
        LogOutlives(rules, l, other, KeyOf(rules, call).value);
      }
    }
  }

  lemma LandedAnswersOk(rules: Rules, l: Ledger, call: Call)
    requires Landed(rules, Serve(rules, l, call).0, call)
    ensures Serve(rules, l, call).1.OkBody?
  {
  }

  /** And it replays: a mutation asked again is answered as it was, and changes nothing more. */
  lemma LedgerReplays(rules: Rules, l: Ledger, call: Call)
    requires WellFormed(l) && call.Mutation?
    ensures Replays(Serving(rules), l, call)
  {
    var key := KeyOf(rules, call);
    if key.Some? && key.value in l.log {
      assert LoggedSoundly(l, key.value);
    }
  }

  /** A call that does not land leaves no trace. */
  lemma NotLandedNoTrace(rules: Rules, l: Ledger, call: Call)
    requires call.Mutation? && !Landed(rules, Serve(rules, l, call).0, call)
    ensures Serve(rules, l, call).0 == l
  {
  }

  // ---- whole runs of the client against the ledger ----

  /** The calls others made before and between the first `n` attempts. */
  function OthersUpTo(events: seq<Event>, n: nat): seq<Call>
    requires n <= |events|
  {
    if n == 0 then [] else OthersUpTo(events, n - 1) + events[n - 1].others
  }

  lemma {:induction false} AfterAll<M>(serve: Service<M>, m: M, first: seq<Call>, more: seq<Call>)
    ensures AfterOthers(serve, m, first + more) == AfterOthers(serve, AfterOthers(serve, m, first), more)
  {
    if more == [] {
      assert first + more == first;
    } else {
      var n := |more| - 1;
      assert (first + more)[..|first| + n] == first + more[..n];
      AfterAll(serve, m, first, more[..n]);
    }
  }

  lemma {:induction false} NeverLandedNoTrace(rules: Rules, l: Ledger, call: Call, events: seq<Event>, n: nat)
    requires call.Mutation? && n <= |events|
    requires forall i :: 0 <= i <= n ==> !Landed(rules, ServiceAfter(Serving(rules), l, call, events, i), call)
    ensures ServiceAfter(Serving(rules), l, call, events, n) == AfterOthers(Serving(rules), l, OthersUpTo(events, n))
  {
    if n > 0 {
      var serve := Serving(rules);
      var before := ServiceAfter(serve, l, call, events, n - 1);
      NeverLandedNoTrace(rules, l, call, events, n - 1);
      AfterAll(serve, l, OthersUpTo(events, n - 1), events[n - 1].others);
      var reached := AfterOthers(serve, before, events[n - 1].others);
      assert !Landed(rules, ServiceAfter(serve, l, call, events, n), call);
      if events[n - 1].fate != RequestLost {
        NotLandedNoTrace(rules, reached, call);
      }
    }
  }

  /**
   However a client's attempts are lost and whatever others do between them, the ledger stays sound and conserves value.
   */
  lemma {:induction false} EveryAttemptKeeps(rules: Rules, l: Ledger, call: Call, events: seq<Event>, n: nat)
    requires WellFormed(l) && n <= |events|
    ensures Keeps(l, ServiceAfter(Serving(rules), l, call, events, n))
  {
    if n > 0 {
      var before := ServiceAfter(Serving(rules), l, call, events, n - 1);
      EveryAttemptKeeps(rules, l, call, events, n - 1);
      var reached := AfterOthers(Serving(rules), before, events[n - 1].others);
      EveryRunKeeps(rules, before, events[n - 1].others);
      KeepsOn(l, before, reached);
      EveryCallKeeps(rules, reached, call);
      KeepsOn(l, reached, Serve(rules, reached, call).0);
    }
  }

  /**
   A run that ends without its secrets spent nothing: the ledger is exactly what the other wallets' calls alone would
   have made of it. So a wallet that discards what the client discards loses no note, whatever was lost on the way.
   */
  lemma DiscardedRunSpentNothing(rules: Rules, l: Ledger, r: Request, events: seq<Event>, mutationRetries: nat)
    requires Generated(r) && r.call.Mutation? && |events| > Attempts(r, mutationRetries)
    requires !Carries(RunFrom(Serving(rules), l, r, events, Attempts(r, mutationRetries)).outcome, r.newSecrets)
    ensures var run := RunFrom(Serving(rules), l, r, events, Attempts(r, mutationRetries));
      run.service == AfterOthers(Serving(rules), l, OthersUpTo(events, run.sent))
  {
    var serve := Serving(rules);
    var run := RunFrom(serve, l, r, events, Attempts(r, mutationRetries));
    LedgerKeepsFaith(rules);
    forall i | 0 <= i <= run.sent ensures !Landed(rules, ServiceAfter(serve, l, r.call, events, i), r.call) {
      if LandedAt(rules)(ServiceAfter(serve, l, r.call, events, i), r.call) {
        SecretsSurvive(serve, LandedAt(rules), l, r, events, mutationRetries, i);
      }
    }
    LastAttemptDecides(serve, l, r, events, Attempts(r, mutationRetries));
    NeverLandedNoTrace(rules, l, r.call, events, run.sent);
  }

  /**
   Settling that falls back to the note it was given spent nothing: it hands back the old secret only where its rotate
   left the ledger as the other wallets' calls alone would have.
   */
  lemma SettledOnOldNote(rules: Rules, l: Ledger, w: Wallet, k1: string, secret: string, r: Request, events: seq<Event>,
                         mutationRetries: nat, run: RunResult<Ledger>, note: NoteInfo, signature: Option<string>)
    requires RotateRequest(w, true, k1, secret) == Ok(r) && k1 != secret && |events| > mutationRetries
    requires run == RunFrom(Serving(rules), l, r, events, mutationRetries)
    requires var settled := SettleOf(Known(note), k1, signature, run.outcome); settled.Settled? && settled.k1 == k1
    ensures var settled := SettleOf(Known(note), k1, signature, run.outcome);
      settled.amount == note.maxWithdrawable && settled.signature == signature
    ensures run.service == AfterOthers(Serving(rules), l, OthersUpTo(events, run.sent))
  {
    RotateIsBuilt(w, k1, secret, r);
    LastAttemptDecides(Serving(rules), l, r, events, mutationRetries);
    RotateReturnsRotate(r, secret, AnswerTo(Serving(rules), l, r.call, events, run.sent));
    CarriedIsNotOld(run.outcome, k1, secret, note, signature);
    DiscardedRunSpentNothing(rules, l, r, events, mutationRetries);
  }

  lemma CarriedIsNotOld(o: Outcome, k1: string, secret: string, note: NoteInfo, signature: Option<string>)
    requires k1 != secret && (o.Returned? ==> o.value.RotateResult?)
    ensures var settled := SettleOf(Known(note), k1, signature, o);
      settled.Settled? && settled.k1 == k1 ==> !Carries(o, [secret])
  {
  }

  lemma NotLandedIsRefused(rules: Rules, l: Ledger, call: Call)
    requires WellFormed(l) && call.Mutation? && !Landed(rules, Serve(rules, l, call).0, call)
    ensures Serve(rules, l, call).1.ErrorBody?
  {
    var key := KeyOf(rules, call);
    if key.Some? && key.value in l.log {
      assert LoggedSoundly(l, key.value);
    }
  }

  // ---- one call among the others ----

  /** What a ledger has been asked in all, when a client's attempts amount to one call of its own or to none. */
  function Amounting(before: seq<Call>, call: Call, ours: bool, after: seq<Call>): seq<Call> {
    before + (if ours then [call] else []) + after
  }

  lemma LandedIsReplay(rules: Rules, l: Ledger, call: Call)
    requires call.Mutation? && Landed(rules, l, call)
    ensures Serve(rules, l, call).0 == l
  {
  }

  /** The call that lands a mutation applies it, to a ledger where it was nowhere on the log. */
  lemma LandingApplies(rules: Rules, l: Ledger, call: Call)
    requires WellFormed(l) && call.Mutation? && !Landed(rules, l, call) && Landed(rules, Serve(rules, l, call).0, call)
    ensures AppliedOnce(l, Serve(rules, l, call).0, KeyOf(rules, call).value)
  {
    LogsAreOk(l, KeyOf(rules, call).value);
    AppliedExactly(rules, l, KeyOf(rules, call).value);
  }

  lemma LogsAreOk(l: Ledger, key: Key)
    requires WellFormed(l)
    ensures key in l.log ==> l.log[key].OkBody?
  {
    if key in l.log {
      assert LoggedSoundly(l, key);
    }
  }

  lemma CallThenMore(rules: Rules, l: Ledger, before: seq<Call>, call: Call)
    ensures AfterOthers(Serving(rules), l, before + [call]) ==
            Serve(rules, AfterOthers(Serving(rules), l, before), call).0
  {
    assert (before + [call])[..|before|] == before;
  }

  lemma LandedOutlives(rules: Rules, l: Ledger, call: Call, others: seq<Call>)
    requires Landed(rules, l, call)
    ensures Landed(rules, AfterOthers(Serving(rules), l, others), call)
  {
    LedgerKeepsFaith(rules);
    assert LandedAt(rules)(l, call);
    OthersKeepLanded(Serving(rules), LandedAt(rules), l, call, others);
  }

  /** A ledger is as the others' calls leave it with this call among them once, where it applied, or not at all. */
  ghost predicate Amounts(rules: Rules, l: Ledger, call: Call, others: seq<Call>, now: Ledger,
                          before: seq<Call>, after: seq<Call>, ours: bool)
  {
    && before + after == others && (ours || after == [])
    && now == AfterOthers(Serving(rules), l, Amounting(before, call, ours, after))
    && (ours ==> Lands(rules, AfterOthers(Serving(rules), l, before), call))
  }

  /** The call that makes the difference. */
  predicate Lands(rules: Rules, l: Ledger, call: Call) {
    !Landed(rules, l, call) && Landed(rules, Serve(rules, l, call).0, call)
  }

  lemma OthersGoOn(rules: Rules, l: Ledger, call: Call, others: seq<Call>, now: Ledger,
                   before: seq<Call>, after: seq<Call>, ours: bool, more: seq<Call>)
    requires Amounts(rules, l, call, others, now, before, after, ours)
    ensures var reached := AfterOthers(Serving(rules), now, more);
      if ours then Amounts(rules, l, call, others + more, reached, before, after + more, true)
      else Amounts(rules, l, call, others + more, reached, before + more, [], false)
  {
    AfterAll(Serving(rules), l, Amounting(before, call, ours, after), more);
    AmountingMore(before, call, ours, after, more);
    Associates(before, after, more);
  }

  lemma AmountingMore(before: seq<Call>, call: Call, ours: bool, after: seq<Call>, more: seq<Call>)
    ensures Amounting(before, call, ours, after) + more == Amounting(before, call, ours, after + more)
    ensures !ours && after == [] ==>
            Amounting(before, call, ours, after) + more == Amounting(before + more, call, false, [])
  {
    Associates(before + (if ours then [call] else []), after, more);
  }

  lemma ServedAgain(rules: Rules, l: Ledger, call: Call, others: seq<Call>, now: Ledger,
                    before: seq<Call>, after: seq<Call>, ours: bool)
    requires call.Mutation? && Amounts(rules, l, call, others, now, before, after, ours)
    ensures var served := Serve(rules, now, call).0;
      if !ours && Lands(rules, now, call) then Amounts(rules, l, call, others, served, before, after, true)
      else Amounts(rules, l, call, others, served, before, after, ours)
  {
    if ours {
      StaysAmongOthers(rules, l, before, call, after);
      LandedIsReplay(rules, now, call);
    } else if Lands(rules, now, call) {
      NoneOfOurs(before, call);
      CallThenMore(rules, l, before, call);
    } else {
      LeavesNoTrace(rules, now, call);
    }
  }

  lemma NoneOfOurs(before: seq<Call>, call: Call)
    ensures Amounting(before, call, false, []) == before && Amounting(before, call, true, []) == before + [call]
    ensures before + [] == before
  {
  }

  lemma StaysAmongOthers(rules: Rules, l: Ledger, before: seq<Call>, call: Call, after: seq<Call>)
    requires Landed(rules, Serve(rules, AfterOthers(Serving(rules), l, before), call).0, call)
    ensures Landed(rules, AfterOthers(Serving(rules), l, Amounting(before, call, true, after)), call)
  {
    CallThenMore(rules, l, before, call);
    AfterAll(Serving(rules), l, before + [call], after);
    LandedOutlives(rules, AfterOthers(Serving(rules), l, before + [call]), call, after);
  }

  lemma LeavesNoTrace(rules: Rules, l: Ledger, call: Call)
    requires call.Mutation? && !Lands(rules, l, call)
    ensures Serve(rules, l, call).0 == l
  {
    if Landed(rules, l, call) {
      LandedIsReplay(rules, l, call);
    } else {
      NotLandedNoTrace(rules, l, call);
    }
  }

  /** The ledger the `n`th attempt finds. */
  function Reached(rules: Rules, l: Ledger, call: Call, events: seq<Event>, n: nat): Ledger
    requires 0 < n <= |events|
  {
    AfterOthers(Serving(rules), ServiceAfter(Serving(rules), l, call, events, n - 1), events[n - 1].others)
  }

  /**
   At most once, whoever else is there. However the attempts and their answers are lost and whatever other wallets ask
   in between, the ledger is as the others' calls in their order leave it, with this call made once among them, where it
   applied, or not at all.
   */
  lemma {:induction false} OneCallAmongOthers(rules: Rules, l: Ledger, call: Call, events: seq<Event>, n: nat)
    returns (before: seq<Call>, after: seq<Call>, ours: bool)
    requires call.Mutation? && n <= |events|
    ensures Amounts(rules, l, call, OthersUpTo(events, n), ServiceAfter(Serving(rules), l, call, events, n), before,
                    after, ours)
    ensures n > 0 && events[n - 1].fate != RequestLost && !ours ==>
            !Lands(rules, Reached(rules, l, call, events, n), call)
  {
    if n == 0 {
      before, after, ours := [], [], false;
      NoneOfOurs([], call);
    } else {
      before, after, ours := OneCallAmongOthers(rules, l, call, events, n - 1);
      before, after, ours := OneMoreAttempt(rules, l, call, events, n, before, after, ours);
    }
  }

  lemma OneMoreAttempt(rules: Rules, l: Ledger, call: Call, events: seq<Event>, n: nat,
                       before: seq<Call>, after: seq<Call>, ours: bool)
    returns (before': seq<Call>, after': seq<Call>, ours': bool)
    requires call.Mutation? && 0 < n <= |events|
    requires var now := ServiceAfter(Serving(rules), l, call, events, n - 1);
      Amounts(rules, l, call, OthersUpTo(events, n - 1), now, before, after, ours)
    ensures var now := ServiceAfter(Serving(rules), l, call, events, n);
      Amounts(rules, l, call, OthersUpTo(events, n), now, before', after', ours')
    ensures events[n - 1].fate != RequestLost && !ours' ==> !Lands(rules, Reached(rules, l, call, events, n), call)
  {
    var more := events[n - 1].others;
    var reached := Reached(rules, l, call, events, n);
    OthersGoOn(rules, l, call, OthersUpTo(events, n - 1), ServiceAfter(Serving(rules), l, call, events, n - 1),
               before, after, ours, more);
    before', after', ours' := if ours then before else before + more, if ours then after + more else [], ours;
    if events[n - 1].fate != RequestLost {
      ServedAgain(rules, l, call, OthersUpTo(events, n - 1) + more, reached, before', after', ours);
      ours' := ours || Lands(rules, reached, call);
    }
  }

  lemma NeverUnusable(rules: Rules, l: Ledger, call: Call)
    requires WellFormed(l)
    ensures !Serve(rules, l, call).1.OtherBody?
  {
    if KeyOf(rules, call).Some? {
      LogsAreOk(l, KeyOf(rules, call).value);
    }
  }

  /** A run in which an answer the client waits for arrives ends with an answer that arrived. */
  lemma {:induction false} EndsWithAnAnswer(rules: Rules, l: Ledger, r: Request, events: seq<Event>, left: nat,
                                            arrives: nat)
    requires WellFormed(l) && |events| > left >= arrives && events[arrives].fate.Delivered?
    ensures var run := RunFrom(Serving(rules), l, r, events, left);
      run.sent <= arrives + 1 && events[run.sent - 1].fate.Delivered?
    decreases left
  {
    var reached := AfterOthers(Serving(rules), l, events[0].others);
    EveryRunKeeps(rules, l, events[0].others);
    if events[0].fate.Delivered? {
      NeverUnusable(rules, reached, r.call);
      UsableEnds(r, Serve(rules, reached, r.call).1);
    } else {
      EveryCallKeeps(rules, reached, r.call);
      RunGoesOn(Serving(rules), l, r, events, left);
      EndsWithAnAnswer(rules, Exchange(Serving(rules), l, r.call, events[0]).0, r, events[1..], left - 1, arrives - 1);
    }
  }

  lemma {:induction false} SuccessOutlives(rules: Rules, l: Ledger, calls: seq<Call>, key: Key)
    requires key in l.log
    ensures var now := AfterOthers(Serving(rules), l, calls);
      key in now.log && now.log[key] == l.log[key]
  {
    if calls != [] {
      var front := calls[..|calls| - 1];
      SuccessOutlives(rules, l, front, key);
      LogOutlives(rules, AfterOthers(Serving(rules), l, front), calls[|calls| - 1], key);
    }
  }

  lemma LandedSaysItsLog(rules: Rules, l: Ledger, call: Call)
    requires Landed(rules, Serve(rules, l, call).0, call)
    ensures Serve(rules, l, call).1 == Serve(rules, l, call).0.log[KeyOf(rules, call).value]
  {
  }

  /** Wherever among the others' calls a mutation landed, every answer after it is the answer given there. */
  lemma AnsweredAsItLanded(rules: Rules, l: Ledger, before: seq<Call>, call: Call, after: seq<Call>, now: Ledger)
    requires Lands(rules, AfterOthers(Serving(rules), l, before), call)
    requires Serve(rules, now, call).0 == AfterOthers(Serving(rules), l, Amounting(before, call, true, after))
    ensures Serve(rules, now, call).1 == Serve(rules, AfterOthers(Serving(rules), l, before), call).1
  {
    var at := AfterOthers(Serving(rules), l, before);
    var landed := Serve(rules, at, call).0;
    CallThenMore(rules, l, before, call);
    AfterAll(Serving(rules), l, before + [call], after);
    SuccessOutlives(rules, landed, after, KeyOf(rules, call).value);
    LandedSaysItsLog(rules, at, call);
    StaysAmongOthers(rules, l, before, call, after);
    LandedSaysItsLog(rules, now, call);
  }

  /** The ledger a run's answer was given by: where its own call applied, or, if it never did, as the run left it. */
  ghost function AnsweredAt(rules: Rules, l: Ledger, before: seq<Call>, ours: bool, now: Ledger): Ledger {
    if ours then AfterOthers(Serving(rules), l, before) else now
  }

  lemma LastAnswer(rules: Rules, l: Ledger, call: Call, events: seq<Event>, sent: nat, before: seq<Call>,
                   after: seq<Call>, ours: bool)
    requires call.Mutation? && 0 < sent <= |events| && events[sent - 1].fate.Delivered?
    requires var now := ServiceAfter(Serving(rules), l, call, events, sent);
      Amounts(rules, l, call, OthersUpTo(events, sent), now, before, after, ours)
    requires !ours ==> !Lands(rules, Reached(rules, l, call, events, sent), call)
    ensures var now := ServiceAfter(Serving(rules), l, call, events, sent);
      AnswerTo(Serving(rules), l, call, events, sent) ==
      Readable(Serve(rules, AnsweredAt(rules, l, before, ours, now), call).1)
  {
    var reached := Reached(rules, l, call, events, sent);
    if ours {
      AnsweredAsItLanded(rules, l, before, call, after, reached);
    } else {
      LeavesNoTrace(rules, reached, call);
    }
  }

  /**
   What a run tells its caller, by the answer it ended with: everything where the mutation landed, a refusal where not.
   */
  ghost predicate Told(rules: Rules, r: Request, answeredAt: Ledger, now: Ledger, outcome: Outcome) {
    && outcome == AttemptOf(r, Readable(Serve(rules, answeredAt, r.call).1))
    && if Landed(rules, now, r.call) then Carries(outcome, r.newSecrets) else outcome.Raised?
  }

  lemma AnswerTells(rules: Rules, r: Request, answeredAt: Ledger, now: Ledger)
    requires WellFormed(answeredAt) && Generated(r) && r.call.Mutation?
    requires Landed(rules, now, r.call) <==> Landed(rules, Serve(rules, answeredAt, r.call).0, r.call)
    ensures Told(rules, r, answeredAt, now, AttemptOf(r, Readable(Serve(rules, answeredAt, r.call).1)))
  {
    var body := Serve(rules, answeredAt, r.call).1;
    AttemptCarriesExactly(r, Readable(body));
    if Landed(rules, now, r.call) {
      LandedAnswersOk(rules, answeredAt, r.call);
    } else {
      NotLandedIsRefused(rules, answeredAt, r.call);
      RefusedAs(r, body.reason, RefusalOf(body.reason));
    }
  }

  /**
   Any generated rotate, split or merge from end to end, at a SERVICE other wallets are using too. If an answer the
   client waits for arrives, then whatever was lost before it the ledger is as the others' calls leave it with this
   mutation made once among them, exactly as one call makes it, or not at all. The caller is told by one answer: the one
   given where it applied, or, if it never did here, the one the ledger gives now. It holds every fresh secret if the
   mutation has landed, and otherwise an exception.
   */
  lemma MutationEndToEnd(rules: Rules, l: Ledger, r: Request, events: seq<Event>, mutationRetries: nat, arrives: nat)
    returns (before: seq<Call>, after: seq<Call>, ours: bool)
    requires WellFormed(l) && Generated(r) && r.call.Mutation? && r.replayable
    requires |events| > mutationRetries >= arrives && events[arrives].fate.Delivered?
    ensures var run := RunFrom(Serving(rules), l, r, events, mutationRetries);
      && Amounts(rules, l, r.call, OthersUpTo(events, run.sent), run.service, before, after, ours)
      && var at := AnsweredAt(rules, l, before, ours, run.service);
        && (ours ==> AppliedOnce(at, Serve(rules, at, r.call).0, KeyOf(rules, r.call).value))
        && Told(rules, r, at, run.service, run.outcome)
  {
    var run := RunFrom(Serving(rules), l, r, events, mutationRetries);
    LastAttemptDecides(Serving(rules), l, r, events, mutationRetries);
    EndsWithAnAnswer(rules, l, r, events, mutationRetries, arrives);
    before, after, ours := AnsweredAmongOthers(rules, l, r, events, run.sent);
  }

  lemma AnsweredAmongOthers(rules: Rules, l: Ledger, r: Request, events: seq<Event>, sent: nat)
    returns (before: seq<Call>, after: seq<Call>, ours: bool)
    requires WellFormed(l) && Generated(r) && r.call.Mutation?
    requires 0 < sent <= |events| && events[sent - 1].fate.Delivered?
    ensures var now := ServiceAfter(Serving(rules), l, r.call, events, sent);
      var at := AnsweredAt(rules, l, before, ours, now);
      && Amounts(rules, l, r.call, OthersUpTo(events, sent), now, before, after, ours)
      && (ours ==> AppliedOnce(at, Serve(rules, at, r.call).0, KeyOf(rules, r.call).value))
      && Told(rules, r, at, now, AttemptOf(r, AnswerTo(Serving(rules), l, r.call, events, sent)))
  {
    before, after, ours := OneCallAmongOthers(rules, l, r.call, events, sent);
    LastAnswer(rules, l, r.call, events, sent, before, after, ours);
    AnswerersAreSound(rules, l, r.call, events, sent, before, ours);
    var now := ServiceAfter(Serving(rules), l, r.call, events, sent);
    var at := AnsweredAt(rules, l, before, ours, now);
    if ours {
      LandingApplies(rules, at, r.call);
      StaysAmongOthers(rules, l, before, r.call, after);
    } else {
      LeavesNoTrace(rules, Reached(rules, l, r.call, events, sent), r.call);
    }
    AnswerTells(rules, r, at, now);
  }

  lemma AnswerersAreSound(rules: Rules, l: Ledger, call: Call, events: seq<Event>, n: nat, before: seq<Call>,
                          ours: bool)
    requires WellFormed(l) && n <= |events|
    ensures WellFormed(AnsweredAt(rules, l, before, ours, ServiceAfter(Serving(rules), l, call, events, n)))
  {
    EveryRunKeeps(rules, l, before);
    EveryAttemptKeeps(rules, l, call, events, n);
  }

  // ---- a rotate from end to end, and the probe ----

  /** A rotate of an outstanding note into an id nobody has used. */
  ghost predicate FreshRotate(rules: Rules, l: Ledger, w: Wallet, k1: string, secret: string, from: NoteId,
                              to: NoteId) {
    && WellFormed(l)
    && rules.opens(k1) == Some(from) && from in l.live
    && rules.names(w.hashK1(secret)) == Some(to) && to !in l.live && to !in l.burned
  }

  lemma RotateKey(rules: Rules, w: Wallet, k1: string, secret: string, from: NoteId, to: NoteId)
    requires rules.opens(k1) == Some(from) && rules.names(w.hashK1(secret)) == Some(to)
    ensures KeyOf(rules, Mutation([k1], None, [w.hashK1(secret)])) == Some(Key([from], None, [to]))
  {
    assert ReadAll(rules.opens, [k1]).value == [from];
    assert ReadAll(rules.names, [w.hashK1(secret)]).value == [to];
  }

  lemma LoggedInputsBurned(l: Ledger, key: Key, id: NoteId)
    requires WellFormed(l) && id in key.inputs
    ensures key in l.log ==> id in l.burned
  {
    if key in l.log {
      assert LoggedSoundly(l, key);
    }
  }

  lemma RotateApplies(l: Ledger, from: NoteId, to: NoteId)
    requires WellFormed(l) && from in l.live && to !in l.live && to !in l.burned
    ensures PlanOf(l, Key([from], None, [to])) == Apply(Key([from], None, [to]), [l.live[from]])
  {
    var key := Key([from], None, [to]);
    LoggedInputsBurned(l, key, from);
    assert [from][..0] == [] && Worth(l.live, [from][..0]) == 0;
  }

  /** The ledger with one note's value moved to another id. */
  ghost predicate Moved(rules: Rules, l: Ledger, after: Ledger, from: NoteId, to: NoteId)
    requires from in l.live
  {
    && after.live == (l.live - {from})[to := l.live[from]]
    && after.burned == l.burned + {from} && after.paid == l.paid
    && after.log == l.log[Key([from], None, [to]) := OkBody(rules.certify(to, l.live[from]), Absent, Absent, Absent)]
  }

  lemma RotateServed(rules: Rules, l: Ledger, w: Wallet, k1: string, secret: string, from: NoteId, to: NoteId)
    requires FreshRotate(rules, l, w, k1, secret, from, to)
    ensures var served := Serve(rules, l, Mutation([k1], None, [w.hashK1(secret)]));
      && Moved(rules, l, served.0, from, to)
      && served.1 == OkBody(rules.certify(to, l.live[from]), Absent, Absent, Absent)
  {
    RotateKey(rules, w, k1, secret, from, to);
    RotateApplies(l, from, to);
    assert SetOf([from]) == {from};
    var kept := l.live - {from};
    assert [to][..0] == [] && Minted(kept, [to][..0], [l.live[from]][..0]) == kept;
  }

  /**
   A rotate from end to end. If any answer the client waits for arrives, then whatever was lost before it the note's
   whole value has moved to the fresh id once, nothing else changed, and the caller holds the fresh secret: in a result
   with the certificate if one was given.
   */
  lemma RotateEndToEnd(rules: Rules, l: Ledger, w: Wallet, k1: string, secret: string, from: NoteId, to: NoteId,
                       events: seq<Event>, mutationRetries: nat, arrives: nat)
    requires FreshRotate(rules, l, w, k1, secret, from, to) && RotateRequest(w, true, k1, secret).Ok?
    requires Quiet(events) && |events| > mutationRetries >= arrives && events[arrives].fate.Delivered?
    ensures var run := RunFrom(Serving(rules), l, RotateRequest(w, true, k1, secret).value, events, mutationRetries);
      && Moved(rules, l, run.service, from, to)
      && Carries(run.outcome, [secret])
      && (var c := rules.certify(to, l.live[from]);
          c.Text? && c.text != "" ==> run.outcome == Returned(RotateResult(secret, Some(c.text))))
  {
    var r := RotateRequest(w, true, k1, secret).value;
    LedgerReplays(rules, l, r.call);
    RetryIsOneExchange(Serving(rules), l, r, events, mutationRetries, arrives);
    RotateServed(rules, l, w, k1, secret, from, to);
    OkRotates(r, secret, rules.certify(to, l.live[from]));
  }

  lemma OkRotates(r: Request, secret: string, c: Field)
    requires r.shape == Rotated(secret) && r.newSecrets == [secret] && r.call.Mutation? && |r.call.outputs| == 1
    ensures var o := AttemptOf(r, Readable(OkBody(c, Absent, Absent, Absent)));
      && Carries(o, [secret])
      && (c.Text? && c.text != "" ==> o == Returned(RotateResult(secret, Some(c.text))))
  {
  }

  // ---- what is refused for good ----

  /** An id the ledger knows: outstanding, or burned. */
  predicate Files(l: Ledger, id: NoteId) {
    id in l.live || id in l.burned
  }

  /** Inputs that are all there and not worth what is asked of them. */
  predicate Misfits(l: Ledger, key: Key) {
    && (forall id :: id in key.inputs ==> id in l.live)
    && Shares(Worth(l.live, key.inputs), key.amount, |key.outputs|).None?
  }

  ghost predicate Blocked(l: Ledger, key: Key) {
    || !Distinct(key.inputs) || !Distinct(key.outputs)
    || (exists id :: id in key.inputs && id in l.burned)
    || (exists id :: id in key.outputs && Files(l, id))
    || Misfits(l, key)
  }

  /** A mutation that has not been applied and that nothing can make applicable. */
  ghost predicate Hopeless(l: Ledger, key: Key) {
    key !in l.log && Blocked(l, key)
  }

  lemma {:induction false} WorthStays(live: map<NoteId, nat>, later: map<NoteId, nat>, ids: seq<NoteId>)
    requires forall id :: id in ids ==> id in live && id in later && later[id] == live[id]
    ensures Worth(later, ids) == Worth(live, ids)
  {
    if ids != [] {
      WorthStays(live, later, ids[..|ids| - 1]);
    }
  }

  lemma BlockedStays(l: Ledger, after: Ledger, key: Key)
    requires Blocked(l, key) && Extends(l, after)
    ensures Blocked(after, key)
  {
    if exists id :: id in key.inputs && id in after.burned {
    } else if Misfits(l, key) {
      WorthStays(l.live, after.live, key.inputs);
    } else if exists id :: id in key.outputs && Files(l, id) {
      var id :| id in key.outputs && Files(l, id);
      assert Files(after, id);
    }
  }

  lemma BlockedIsNotApplied(l: Ledger, key: Key)
    requires Blocked(l, key)
    ensures !PlanOf(l, key).Apply?
  {
  }

  lemma HopelessStays(rules: Rules, l: Ledger, call: Call, key: Key)
    requires WellFormed(l) && Hopeless(l, key)
    ensures Hopeless(Serve(rules, l, call).0, key)
  {
    EveryCallKeeps(rules, l, call);
    BlockedStays(l, Serve(rules, l, call).0, key);
    BlockedIsNotApplied(l, key);
  }

  lemma {:induction false} HopelessForGood(rules: Rules, l: Ledger, later: seq<Call>, key: Key)
    requires WellFormed(l) && Hopeless(l, key)
    ensures Hopeless(AfterOthers(Serving(rules), l, later), key)
  {
    if later != [] {
      var front := later[..|later| - 1];
      HopelessForGood(rules, l, front, key);
      EveryRunKeeps(rules, l, front);
      HopelessStays(rules, AfterOthers(Serving(rules), l, front), later[|later| - 1], key);
    }
  }

  lemma DiscardedIsHopeless(rules: Rules, l: Ledger, key: Key)
    requires WellFormed(l) && Discards(Readable(Mutate(rules, l, key).1))
    ensures Mutate(rules, l, key).0 == l && Hopeless(l, key)
  {
    LogsAreOk(l, key);
    match PlanOf(l, key)
    case Refuse(reason) =>
      DiscardedIsNotDead(reason, BURNED, UNKNOWN);
      RefusedIsHopeless(l, key, reason);
    case Replay(_) =>
    case Apply(_, _) =>
  }

  lemma DiscardedIsNotDead(reason: string, burned: string, unknown: string)
    requires Discards(Readable(ErrorBody(Field.Text(reason)))) && burned == BURNED && unknown == UNKNOWN
    ensures reason != burned && reason != unknown
  {
    DeadReasons();
    DeadIsCarried(burned);
    DeadIsCarried(unknown);
  }

  lemma DeadIsCarried(reason: string)
    requires Classify(reason).NoteSpent? || Classify(reason).NoteUnknown?
    ensures reason != "pending" ==> !Discards(Readable(ErrorBody(Field.Text(reason))))
  {
  }

  lemma RefusedIsHopeless(l: Ledger, key: Key, reason: string)
    requires PlanOf(l, key) == Refuse(reason) && reason != BURNED && reason != UNKNOWN
    ensures Hopeless(l, key)
  {
  }

  /**
   A plain refusal is for good: whatever is asked of the ledger later, copies of the refused call still on their way
   included, the mutation is never applied.
   */
  lemma RefusalIsForGood(rules: Rules, l: Ledger, call: Call, later: seq<Call>)
    requires WellFormed(l) && Discards(Readable(Serve(rules, l, call).1))
    ensures !Landed(rules, AfterOthers(Serving(rules), Serve(rules, l, call).0, later), call)
  {
    if KeyOf(rules, call).Some? {
      DiscardedIsHopeless(rules, l, KeyOf(rules, call).value);
      HopelessForGood(rules, l, later, KeyOf(rules, call).value);
    }
  }

  /**
   So a wallet may discard at once what the client discards: after a run that ends without its secrets the mutation is
   not applied, and never will be, even by requests of that run that arrive after it.
   */
  lemma DiscardedForGood(rules: Rules, l: Ledger, r: Request, events: seq<Event>, mutationRetries: nat,
                         run: RunResult<Ledger>, later: seq<Call>)
    requires WellFormed(l) && Generated(r) && r.call.Mutation? && |events| > Attempts(r, mutationRetries)
    requires run == RunFrom(Serving(rules), l, r, events, Attempts(r, mutationRetries))
    requires !Carries(run.outcome, r.newSecrets)
    ensures !Landed(rules, AfterOthers(Serving(rules), run.service, later), r.call)
  {
    var left := Attempts(r, mutationRetries);
    SecretsLostExactly(Serving(rules), l, r, events, left);
    LastAttemptDecides(Serving(rules), l, r, events, left);
    RefusedAttemptIsForGood(rules, l, r.call, events, run.sent, later);
  }

  lemma RefusedAttemptIsForGood(rules: Rules, l: Ledger, call: Call, events: seq<Event>, n: nat, later: seq<Call>)
    requires WellFormed(l) && 0 < n <= |events| && Discards(AnswerTo(Serving(rules), l, call, events, n))
    ensures !Landed(rules, AfterOthers(Serving(rules), ServiceAfter(Serving(rules), l, call, events, n), later), call)
  {
    ReachedIsSound(rules, l, call, events, n);
    AnsweredThere(rules, l, call, events, n);
    RefusalIsForGood(rules, Reached(rules, l, call, events, n), call, later);
  }

  lemma ReachedIsSound(rules: Rules, l: Ledger, call: Call, events: seq<Event>, n: nat)
    requires WellFormed(l) && 0 < n <= |events|
    ensures WellFormed(Reached(rules, l, call, events, n))
  {
    EveryAttemptKeeps(rules, l, call, events, n - 1);
    EveryRunKeeps(rules, ServiceAfter(Serving(rules), l, call, events, n - 1), events[n - 1].others);
  }

  lemma AnsweredThere(rules: Rules, l: Ledger, call: Call, events: seq<Event>, n: nat)
    requires 0 < n <= |events| && AnswerTo(Serving(rules), l, call, events, n).Readable?
    ensures var served := Serve(rules, Reached(rules, l, call, events, n), call);
      && AnswerTo(Serving(rules), l, call, events, n) == Readable(served.1)
      && ServiceAfter(Serving(rules), l, call, events, n) == served.0
  {
  }

  // ---- the probe ----

  /** What the SERVICE answers an informational GET. It changes nothing. */
  function Inform(rules: Rules, l: Ledger, k1: string): InfoBody {
    var id := rules.opens(k1);
    if id.Some? && id.value in l.live then WithdrawRequest(k1, NoteInfo("", l.live[id.value]))
    else if id.Some? && id.value in l.burned then InfoError(BURNED)
    else InfoError(UNKNOWN)
  }

  /** What the wallet gets back from it. */
  function Informed(body: InfoBody, fate: Fate): InfoAnswer {
    match fate
    case RequestLost => NoInfo
    case AnswerLost => NoInfo
    case AnswerGarbled => GarbledInfo
    case Delivered => ReadableInfo(body)
  }

  /** `fetch_note_info` at this SERVICE. */
  function InfoAt(rules: Rules, alike: (string, string) -> bool, l: Ledger, k1: string, fate: Fate): InfoOutcome {
    FetchNoteInfo(alike, k1, Informed(Inform(rules, l, k1), fate))
  }

  lemma DeadReasons()
    ensures Classify(BURNED) == NoteSpent && Classify(UNKNOWN) == NoteUnknown
  {
    BurnedIsSpent();
    UnknownReads();
  }

  /** What the GET tells of the note it asks about, and what the probe makes of it. */
  ghost predicate Tells(info: InfoOutcome, l: Ledger, id: NoteId, fate: Fate) {
    && (ProbeOf(info) == Probe.Unknown <==> !fate.Delivered?)
    && (ProbeOf(info) == Live <==> fate.Delivered? && id in l.live)
    && (info == InfoRaised(Error(NoteUnknown, [])) <==> fate.Delivered? && !Files(l, id))
  }

  lemma InfoTells(rules: Rules, alike: (string, string) -> bool, l: Ledger, k1: string, id: NoteId, fate: Fate)
    requires rules.opens(k1) == Some(id)
    ensures Tells(InfoAt(rules, alike, l, k1, fate), l, id, fate)
  {
    if fate.Delivered? {
      InfoIs(rules, alike, l, k1, id);
      TellsOfIt(InfoAt(rules, alike, l, k1, fate), l, id);
    }
  }

  /** How a delivered GET ends. */
  function InfoOf(l: Ledger, id: NoteId): InfoOutcome {
    if id in l.live then Known(NoteInfo("", l.live[id]))
    else InfoRaised(Error(if id in l.burned then NoteSpent else NoteUnknown, []))
  }

  lemma TellsOfIt(info: InfoOutcome, l: Ledger, id: NoteId)
    requires info == InfoOf(l, id)
    ensures Tells(info, l, id, Delivered)
  {
  }

  lemma InfoIs(rules: Rules, alike: (string, string) -> bool, l: Ledger, k1: string, id: NoteId)
    requires rules.opens(k1) == Some(id)
    ensures InfoAt(rules, alike, l, k1, Delivered) == InfoOf(l, id)
  {
    var reason := DeadReason(id in l.burned);
    ReadsInfo(alike, l, k1, id, Inform(rules, l, k1), reason);
  }

  lemma DeadReason(spent: bool) returns (reason: string)
    ensures reason == if spent then BURNED else UNKNOWN
    ensures Classify(reason) == if spent then NoteSpent else NoteUnknown
  {
    DeadReasons();
    if spent { reason := BURNED; } else { reason := UNKNOWN; }
  }

  lemma ReadsInfo(alike: (string, string) -> bool, l: Ledger, k1: string, id: NoteId, body: InfoBody, reason: string)
    requires id in l.live ==> body == WithdrawRequest(k1, NoteInfo("", l.live[id]))
    requires id !in l.live ==> body == InfoError(reason)
    requires Classify(reason) == if id in l.burned then NoteSpent else NoteUnknown
    ensures FetchNoteInfo(alike, k1, Informed(body, Delivered)) == InfoOf(l, id)
  {
  }

  /** A call that mints to an id. */
  predicate MintsTo(rules: Rules, call: Call, id: NoteId) {
    KeyOf(rules, call).Some? && id in KeyOf(rules, call).value.outputs
  }

  lemma NotNamedNotFiled(rules: Rules, l: Ledger, call: Call, id: NoteId)
    requires WellFormed(l) && !Files(l, id) && !MintsTo(rules, call, id)
    ensures !Files(Serve(rules, l, call).0, id)
  {
    if KeyOf(rules, call).Some? && PlanOf(l, KeyOf(rules, call).value).Apply? {
      AppliedExactly(rules, l, KeyOf(rules, call).value);
    }
  }

  ghost predicate NoneMintsTo(rules: Rules, calls: seq<Call>, id: NoteId) {
    forall i :: 0 <= i < |calls| ==> !MintsTo(rules, calls[i], id)
  }

  lemma {:induction false} NeverNamedNeverFiled(rules: Rules, l: Ledger, calls: seq<Call>, id: NoteId)
    requires WellFormed(l) && !Files(l, id) && NoneMintsTo(rules, calls, id)
    ensures !Files(AfterOthers(Serving(rules), l, calls), id)
  {
    if calls != [] {
      var front := calls[..|calls| - 1];
      NeverNamedNeverFiled(rules, l, front, id);
      EveryRunKeeps(rules, l, front);
      NotNamedNotFiled(rules, AfterOthers(Serving(rules), l, front), calls[|calls| - 1], id);
    }
  }

  lemma LandedFilesOutputs(rules: Rules, l: Ledger, call: Call, to: NoteId)
    requires WellFormed(l) && Landed(rules, l, call) && MintsTo(rules, call, to)
    ensures Files(l, to)
  {
    assert LoggedSoundly(l, KeyOf(rules, call).value);
  }

  /**
   What a lost mutation came to shows at its fresh note: where nobody else mints to that id, the mutation has landed
   exactly when the ledger files it, whoever burned or moved what since.
   */
  lemma FreshNoteDecides(rules: Rules, l: Ledger, call: Call, events: seq<Event>, n: nat, to: NoteId)
    requires WellFormed(l) && call.Mutation? && n <= |events| && MintsTo(rules, call, to) && !Files(l, to)
    requires NoneMintsTo(rules, OthersUpTo(events, n), to)
    ensures var after := ServiceAfter(Serving(rules), l, call, events, n);
      Landed(rules, after, call) <==> Files(after, to)
  {
    var after := ServiceAfter(Serving(rules), l, call, events, n);
    EveryAttemptKeeps(rules, l, call, events, n);
    if Landed(rules, after, call) {
      LandedFilesOutputs(rules, after, call, to);
    } else {
      NeverLandedAlone(rules, l, call, events, n);
      NeverNamedNeverFiled(rules, l, OthersUpTo(events, n), to);
    }
  }

  /** So a wallet that asks about its fresh secret learns which it was: unknown there means never applied. */
  lemma FreshGetDecides(rules: Rules, alike: (string, string) -> bool, l: Ledger, call: Call, events: seq<Event>,
                        n: nat, secret: string, to: NoteId)
    requires WellFormed(l) && call.Mutation? && n <= |events| && MintsTo(rules, call, to) && !Files(l, to)
    requires NoneMintsTo(rules, OthersUpTo(events, n), to) && rules.opens(secret) == Some(to)
    ensures var after := ServiceAfter(Serving(rules), l, call, events, n);
      InfoAt(rules, alike, after, secret, Delivered) == InfoRaised(Error(NoteUnknown, [])) <==>
      !Landed(rules, after, call)
  {
    FreshNoteDecides(rules, l, call, events, n, to);
    InfoTells(rules, alike, ServiceAfter(Serving(rules), l, call, events, n), secret, to, Delivered);
  }

  /** A mutation that has not landed by the end has left no trace on the way. */
  lemma NeverLandedAlone(rules: Rules, l: Ledger, call: Call, events: seq<Event>, n: nat)
    requires call.Mutation? && n <= |events|
    requires !Landed(rules, ServiceAfter(Serving(rules), l, call, events, n), call)
    ensures ServiceAfter(Serving(rules), l, call, events, n) == AfterOthers(Serving(rules), l, OthersUpTo(events, n))
  {
    LedgerKeepsFaith(rules);
    forall i | 0 <= i <= n ensures !Landed(rules, ServiceAfter(Serving(rules), l, call, events, i), call) {
      if LandedAt(rules)(ServiceAfter(Serving(rules), l, call, events, i), call) {
        LandedStays(Serving(rules), LandedAt(rules), l, call, events, i, n);
      }
    }
    NeverLandedNoTrace(rules, l, call, events, n);
  }

  /** A mutation that spends one note and mints another. */
  predicate SpendsInto(rules: Rules, call: Call, from: NoteId, to: NoteId) {
    MintsTo(rules, call, to) && from in KeyOf(rules, call).value.inputs
  }

  /**
   Live means what it says, whoever else is there: nothing of a mutation that names the note has been applied, and the
   ledger is what the others' calls alone made of it.
   */
  lemma LiveMeansNotLanded(rules: Rules, alike: (string, string) -> bool, l: Ledger, call: Call, k1: string,
                           from: NoteId, events: seq<Event>, n: nat, fate: Fate)
    requires WellFormed(l) && n <= |events| && call.Mutation? && rules.opens(k1) == Some(from)
    requires KeyOf(rules, call).Some? && from in KeyOf(rules, call).value.inputs
    requires ProbeOf(InfoAt(rules, alike, ServiceAfter(Serving(rules), l, call, events, n), k1, fate)) == Live
    ensures var after := ServiceAfter(Serving(rules), l, call, events, n);
      !Landed(rules, after, call) && after == AfterOthers(Serving(rules), l, OthersUpTo(events, n))
  {
    var after := ServiceAfter(Serving(rules), l, call, events, n);
    InfoTells(rules, alike, after, k1, from, fate);
    EveryAttemptKeeps(rules, l, call, events, n);
    LoggedInputsBurned(after, KeyOf(rules, call).value, from);
    NeverLandedAlone(rules, l, call, events, n);
  }

  /** A mutation not applied by the time its input is burned never will be. */
  lemma BurnedIsTooLate(rules: Rules, l: Ledger, call: Call, from: NoteId, later: seq<Call>)
    requires WellFormed(l) && call.Mutation? && KeyOf(rules, call).Some? && from in KeyOf(rules, call).value.inputs
    requires from in l.burned && !Landed(rules, l, call)
    ensures !Landed(rules, AfterOthers(Serving(rules), l, later), call)
  {
    LogsAreOk(l, KeyOf(rules, call).value);
    HopelessForGood(rules, l, later, KeyOf(rules, call).value);
  }

  /**
   What the probe decides of a lost mutation, on any network and whoever else calls. Live: nothing of it has been
   applied. Gone: its input is burned, by it if the ledger files its fresh note, and if not by somebody else and the
   mutation will never be applied. That needs nobody else to mint to the fresh note, whose secret nobody else has.
   */
  lemma ProbeDecides(rules: Rules, alike: (string, string) -> bool, l: Ledger, call: Call, k1: string, from: NoteId,
                     to: NoteId, events: seq<Event>, n: nat, fate: Fate, later: seq<Call>)
    requires WellFormed(l) && n <= |events| && call.Mutation? && SpendsInto(rules, call, from, to)
    requires rules.opens(k1) == Some(from) && from in l.live
    requires !Files(l, to) && NoneMintsTo(rules, OthersUpTo(events, n), to)
    ensures var after := ServiceAfter(Serving(rules), l, call, events, n);
      match ProbeOf(InfoAt(rules, alike, after, k1, fate))
      case Live => !Landed(rules, after, call) && after == AfterOthers(Serving(rules), l, OthersUpTo(events, n))
      case Gone =>
        && from in after.burned && (Landed(rules, after, call) <==> Files(after, to))
        && (Files(after, to) || !Landed(rules, AfterOthers(Serving(rules), after, later), call))
      case Unknown => !fate.Delivered?
  {
    var after := ServiceAfter(Serving(rules), l, call, events, n);
    var probe := ProbeOf(InfoAt(rules, alike, after, k1, fate));
    InfoTells(rules, alike, after, k1, from, fate);
    EveryAttemptKeeps(rules, l, call, events, n);
    FreshNoteDecides(rules, l, call, events, n, to);
    if probe == Live {
      LiveMeansNotLanded(rules, alike, l, call, k1, from, events, n, fate);
    } else if probe == Gone && !Files(after, to) {
      BurnedIsTooLate(rules, after, call, from, later);
    }
  }

  /**
   Gone is not the promise that the carried secret is money: where somebody else who holds the note rotates it first and
   the wallet's own request is lost, it probes gone and the fresh note is not filed, now or later.
   */
  lemma GoneIsNotOurs(rules: Rules, alike: (string, string) -> bool, l: Ledger, w: Wallet, k1: string, secret: string,
                      theirs: string, from: NoteId, to: NoteId, elsewhere: NoteId, later: seq<Call>)
    requires FreshRotate(rules, l, w, k1, secret, from, to) && FreshRotate(rules, l, w, k1, theirs, from, elsewhere)
    requires to != elsewhere
    ensures var ours, other := Mutation([k1], None, [w.hashK1(secret)]), Mutation([k1], None, [w.hashK1(theirs)]);
      var after := ServiceAfter(Serving(rules), l, ours, [Event([other], RequestLost)], 1);
      && ProbeOf(InfoAt(rules, alike, after, k1, Delivered)) == Gone && !Files(after, to)
      && !Landed(rules, AfterOthers(Serving(rules), after, later), ours)
  {
    var ours, other := Mutation([k1], None, [w.hashK1(secret)]), Mutation([k1], None, [w.hashK1(theirs)]);
    RotatedFirst(rules, l, ours, other);
    RotatedElsewhere(rules, l, w, k1, theirs, from, elsewhere);
    var after := Serve(rules, l, other).0;
    InfoTells(rules, alike, after, k1, from, Delivered);
    NeverOurs(rules, after, w, k1, secret, from, to, later);
  }

  lemma RotatedElsewhere(rules: Rules, l: Ledger, w: Wallet, k1: string, theirs: string, from: NoteId,
                         elsewhere: NoteId)
    requires FreshRotate(rules, l, w, k1, theirs, from, elsewhere)
    ensures var after := Serve(rules, l, Mutation([k1], None, [w.hashK1(theirs)])).0;
      && WellFormed(after) && from !in after.live && from in after.burned
      && forall to :: !Files(l, to) && to != elsewhere ==> !Files(after, to)
  {
    RotateServed(rules, l, w, k1, theirs, from, elsewhere);
    EveryCallKeeps(rules, l, Mutation([k1], None, [w.hashK1(theirs)]));
  }

  lemma NeverOurs(rules: Rules, l: Ledger, w: Wallet, k1: string, secret: string, from: NoteId, to: NoteId,
                  later: seq<Call>)
    requires WellFormed(l) && rules.opens(k1) == Some(from) && rules.names(w.hashK1(secret)) == Some(to)
    requires from in l.burned && !Files(l, to)
    ensures !Landed(rules, AfterOthers(Serving(rules), l, later), Mutation([k1], None, [w.hashK1(secret)]))
  {
    RotateKey(rules, w, k1, secret, from, to);
    LoggedOutputsFiled(l, Key([from], None, [to]), to);
    BurnedIsTooLate(rules, l, Mutation([k1], None, [w.hashK1(secret)]), from, later);
  }

  lemma LoggedOutputsFiled(l: Ledger, key: Key, id: NoteId)
    requires WellFormed(l) && id in key.outputs
    ensures key in l.log ==> Files(l, id)
  {
    if key in l.log {
      assert LoggedSoundly(l, key);
    }
  }

  lemma RotatedFirst(rules: Rules, l: Ledger, ours: Call, other: Call)
    ensures ServiceAfter(Serving(rules), l, ours, [Event([other], RequestLost)], 1) == Serve(rules, l, other).0
  {
    var events := [Event([other], RequestLost)];
    assert ServiceAfter(Serving(rules), l, ours, events, 0) == l;
    assert [other][..0] == [];
    assert AfterOthers(Serving(rules), l, []) == l;
  }

  /**
   And live is not for good: a request that was only slow is applied after the probe.
   */
  lemma LiveIsNotForGood(rules: Rules, alike: (string, string) -> bool, l: Ledger, w: Wallet, k1: string,
                         secret: string, from: NoteId, to: NoteId)
    requires FreshRotate(rules, l, w, k1, secret, from, to)
    ensures ProbeOf(InfoAt(rules, alike, l, k1, Delivered)) == Live
    ensures Landed(rules, Serve(rules, l, Mutation([k1], None, [w.hashK1(secret)])).0,
                   Mutation([k1], None, [w.hashK1(secret)]))
  {
    InfoTells(rules, alike, l, k1, from, Delivered);
    RotateKey(rules, w, k1, secret, from, to);
    RotateServed(rules, l, w, k1, secret, from, to);
  }

  /**
   With nobody else there the probe tells a lost rotate's two fates apart. After a run on a quiet network, however its
   messages were lost: the old note probes live exactly when nothing landed, and gone exactly when the fresh secret is
   the note.
   */
  lemma QuietProbeDecides(rules: Rules, alike: (string, string) -> bool, l: Ledger, w: Wallet, k1: string,
                          secret: string, from: NoteId, to: NoteId, events: seq<Event>, n: nat)
    requires FreshRotate(rules, l, w, k1, secret, from, to) && Quiet(events) && n <= |events|
    ensures var after := ServiceAfter(Serving(rules), l, Mutation([k1], None, [w.hashK1(secret)]), events, n);
      && (ProbeOf(InfoAt(rules, alike, after, k1, Delivered)) == Live <==> after == l)
      && (ProbeOf(InfoAt(rules, alike, after, k1, Delivered)) == Gone <==> Moved(rules, l, after, from, to))
      && ProbeOf(InfoAt(rules, alike, after, k1, Delivered)) != Probe.Unknown
  {
    var call := Mutation([k1], None, [w.hashK1(secret)]);
    LedgerReplays(rules, l, call);
    AtMostOnce(Serving(rules), l, call, events, n);
    RotateServed(rules, l, w, k1, secret, from, to);
    InfoTells(rules, alike, ServiceAfter(Serving(rules), l, call, events, n), k1, from, Delivered);
  }
}
