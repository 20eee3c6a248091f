/**
 Writing to the owners of a shard (cluster/points_writer.go, `writeToShard`): one
 concurrent writer per owner, and the loop that waits for enough of them.
 */
module WriteShard {
  import opened Values
  import opened Sequences

  datatype Level = Any | One | Quorum | All

  /** How many owners must acknowledge a write. */
  function Required(level: Level, owners: nat): nat {
    match level
    case Any => 1
    case One => 1
    case Quorum => owners / 2 + 1
    case All => owners
  }

  /** What the waiting loop may be told next. */
  datatype Arrival = Closing | Timeout | Answer(owner: nat, err: Option<string>)

  /** `Failed` carries the first error seen, if there was one. */
  datatype Verdict = Success | Partial | Failed(first: Option<string>) | TimedOut

  /** The waiting loop: successful answers, answers seen, first error, and the result once it has returned. */
  datatype Tally = Tally(wrote: nat, seen: nat, writeError: Option<string>, verdict: Option<Verdict>)

  function Final(t: Tally): Verdict {
    if t.wrote > 0 then Partial else Failed(t.writeError)
  }

  function StartTally(owners: nat): Tally {
    Tally(0, 0, None, if owners == 0 then Some(Failed(None)) else None)
  }

  /** One turn of the waiting loop. */
  function Absorb(required: nat, owners: nat, t: Tally, a: Arrival): Tally {
    match a
    case Closing => t.(verdict := Some(Failed(None)))
    case Timeout => t.(verdict := Some(TimedOut))
    case Answer(_, err) =>
      var t' := if err.None? then t.(wrote := t.wrote + 1, seen := t.seen + 1)
                else t.(seen := t.seen + 1, writeError := if t.writeError.None? then err else t.writeError);
      if err.None? && t'.wrote >= required then t'.(verdict := Some(Success))
      else if t'.seen == owners then t'.(verdict := Some(Final(t')))
      else t'
  }

  /** What the loop returns for the arrivals from `i` on. */
  function Settle(required: nat, owners: nat, t: Tally, arrivals: seq<Arrival>): Option<Verdict>
    decreases |arrivals|
  {
    if t.verdict.Some? || arrivals == [] then t.verdict
    else Settle(required, owners, Absorb(required, owners, t, arrivals[0]), arrivals[1..])
  }

  /** The waiting loop as written: each turn takes whatever arrives next. */
  method Collect(level: Level, owners: nat, arrivals: seq<Arrival>) returns (verdict: Verdict)
    requires |arrivals| >= owners
    ensures Settle(Required(level, owners), owners, StartTally(owners), arrivals) == Some(verdict)
  {
    var required := owners;
    if level == Any || level == One {
      required := 1;
    } else if level == Quorum {
      required := required / 2 + 1;
    }
    var wrote := 0;
    var writeError: Option<string> := None;
    ghost var whole := Settle(required, owners, StartTally(owners), arrivals);
    assert arrivals[0..] == arrivals;
    for i := 0 to owners
      invariant whole == Settle(required, owners, Tally(wrote, i, writeError, if i == owners then Some(Final(Tally(wrote, i, writeError, None))) else None), arrivals[i..])
      invariant i == 0 ==> wrote == 0 && writeError.None?
    {
      assert arrivals[i..][0] == arrivals[i] && arrivals[i..][1..] == arrivals[i + 1..];
      match arrivals[i]
      case Closing => return Failed(None);
      case Timeout => return TimedOut;
      case Answer(owner, err) =>
        if err.Some? {
          if writeError.None? {
            writeError := err;
          }
          continue;
        }
        wrote := wrote + 1;
        if wrote >= required {
          return Success;
        }
    }
    if wrote > 0 {
      return Partial;
    }
    return Failed(writeError);
  }

  // ----- The arrival order does not matter -----

  function Successes(arrivals: seq<Arrival>): nat {
    if arrivals == [] then 0
    else Successes(arrivals[1..]) + (if arrivals[0].Answer? && arrivals[0].err.None? then 1 else 0)
  }

  datatype Class = Succeeds | PartlySucceeds | Fails | RunsOut

  function ClassOf(v: Verdict): Class {
    match v
    case Success => Succeeds
    case Partial => PartlySucceeds
    case Failed(_) => Fails
    case TimedOut => RunsOut
  }

  /** The class, from how many of the owners answered with success. */
  function Expected(required: nat, owners: nat, successes: nat): Class {
    if owners > 0 && successes >= required then Succeeds else if successes > 0 then PartlySucceeds else Fails
  }

  lemma {:induction false} SettlesByCount(required: nat, owners: nat, t: Tally, arrivals: seq<Arrival>)
    requires required >= 1 && forall a :: a in arrivals ==> a.Answer?
    requires t.verdict.None? && t.seen + |arrivals| == owners && t.seen < owners && t.wrote < required
    ensures var v := Settle(required, owners, t, arrivals);
      v.Some? && ClassOf(v.value) == Expected(required, owners, t.wrote + Successes(arrivals))
    decreases |arrivals|
  {
    assert arrivals[0] in arrivals;
    var t' := Absorb(required, owners, t, arrivals[0]);
    if t'.verdict.None? {
      SettlesByCount(required, owners, t', arrivals[1..]);
    } else {
      assert Settle(required, owners, t', arrivals[1..]) == t'.verdict;
      assert t'.seen == owners ==> arrivals[1..] == [];
    }
  }

  /**
   When every owner answers, and neither the timeout nor a close cuts the wait
   short, the outcome is decided by the number of successful answers alone.
   */
  lemma ClassByCount(level: Level, owners: nat, arrivals: seq<Arrival>)
    requires |arrivals| == owners && forall a :: a in arrivals ==> a.Answer?
    ensures var v := Settle(Required(level, owners), owners, StartTally(owners), arrivals);
      v.Some? && ClassOf(v.value) == Expected(Required(level, owners), owners, Successes(arrivals))
  {
    if owners > 0 {
      SettlesByCount(Required(level, owners), owners, StartTally(owners), arrivals);
    }
  }

  lemma {:induction false} SuccessesSplit(a: seq<Arrival>, b: seq<Arrival>)
    ensures Successes(a + b) == Successes(a) + Successes(b)
  {
    if a == [] {
      assert a + b == b;
    } else {
      SuccessesSplit(a[1..], b);
      assert (a + b)[1..] == a[1..] + b;
    }
  }

  lemma {:induction false} SuccessesPermuted(a: seq<Arrival>, b: seq<Arrival>)
    requires multiset(a) == multiset(b)
    ensures Successes(a) == Successes(b)
    decreases |a|
  {
    if a == [] {
      assert |multiset(b)| == |b|;
    } else {
      assert a[0] in multiset(b);
      var k :| 0 <= k < |b| && b[k] == a[0];
      hide Successes;
      SuccessesWithout(a, 0);
      SuccessesWithout(b, k);
      Cut(a, 0);
      Cut(b, k);
      assert a[..0] + a[1..] == a[1..];
      SuccessesPermuted(a[1..], b[..k] + b[k + 1..]);
    }
  }

  lemma OneSuccess(a: Arrival)
    ensures Successes([a]) == if a.Answer? && a.err.None? then 1 else 0
  {
  }

  lemma SuccessesWithout(s: seq<Arrival>, k: nat)
    requires k < |s|
    ensures Successes(s) == Successes(s[..k] + s[k + 1..]) + Successes([s[k]])
  {
    hide Successes;
    Cut(s, k);
    SuccessesSplit(s[..k], [s[k]] + s[k + 1..]);
    SuccessesSplit(s[..k], s[k + 1..]);
    SuccessesSplit([s[k]], s[k + 1..]);
  }

  /** Whatever order the owners answer in, the outcome is of the same class. */
  lemma OrderDoesNotMatter(level: Level, owners: nat, a: seq<Arrival>, b: seq<Arrival>)
    requires |a| == owners && (forall x :: x in a ==> x.Answer?) && multiset(a) == multiset(b)
    ensures var v, w := Settle(Required(level, owners), owners, StartTally(owners), a),
                        Settle(Required(level, owners), owners, StartTally(owners), b);
      v.Some? && w.Some? && ClassOf(v.value) == ClassOf(w.value)
  {
    assert |multiset(a)| == |a| && |multiset(b)| == |b|;
    forall x | x in b ensures x.Answer? {
      assert x in multiset(b);
      assert x in a;
    }
    ClassByCount(level, owners, a);
    ClassByCount(level, owners, b);
    SuccessesPermuted(a, b);
  }

  // ----- The protocol: writers and the waiting loop, step by step -----

  /** Where the writer of one owner is; a `Done` writer has sent its answer. */
  datatype Writer = Started | Creating | Rewriting | HandingOff(err: string) | Done

  /** What a store says of a write; `Retryable` errors lead to hinted handoff. */
  datatype Reply = Stored | ShardNotFound | Permanent(err: string) | Retryable(err: string)

  datatype Config = Config(level: Level, owners: seq<nat>, self: nat)

  /**
   There is one writer for each position in the owner list. `log` has every answer
   sent, under the writer's position, of which the loop has taken the first
   `t.seen`; `acked` and `handed` say what truly happened there.
   */
  datatype State = State(writers: seq<Writer>, log: seq<Arrival>, t: Tally, acked: set<nat>, handed: set<nat>)

  datatype Event =
    | LocalWrite(at: nat, reply: Reply)
    | CreateShard(at: nat, failure: Option<string>)
    | RemoteWrite(at: nat, reply: Reply)
    | HandOff(at: nat, stored: bool)
    | Receive
    | Expire
    | Close

  function NeededBy(c: Config): nat {
    Required(c.level, |c.owners|)
  }

  ghost function Initial(c: Config): State {
    State(seq(|c.owners|, k => Started), [], StartTally(|c.owners|), {}, {})
  }

  function Moves(s: State, o: nat, w: Writer): State
    requires o < |s.writers|
  {
    s.(writers := s.writers[o := w])
  }

  function Sends(s: State, o: nat, err: Option<string>): State
    requires o < |s.writers|
  {
    Moves(s, o, Done).(log := s.log + [Answer(o, err)])
  }

  function Acks(s: State, o: nat): State
    requires o < |s.writers|
  {
    Sends(s, o, None).(acked := s.acked + {o})
  }

  function ErrorOf(r: Reply): string
    requires !r.Stored?
  {
    if r.ShardNotFound? then "shard not found" else r.err
  }

  /** One step of one participant; events that cannot happen in a state leave it as it is. */
  function Next(c: Config, s: State, e: Event): State {
    match e
    case LocalWrite(o, reply) =>
      if o >= |s.writers| || o >= |c.owners| || c.owners[o] != c.self then s
      else if s.writers[o].Started? then
        if reply.Stored? then Acks(s, o)
        else if reply.ShardNotFound? then Moves(s, o, Creating)
        else Sends(s, o, Some(ErrorOf(reply)))
      else if s.writers[o].Rewriting? then
        if reply.Stored? then Acks(s, o) else Sends(s, o, Some(ErrorOf(reply)))
      else s
    case CreateShard(o, failure) =>
      if o >= |s.writers| || !s.writers[o].Creating? then s
      else if failure.None? then Moves(s, o, Rewriting)
      else Sends(s, o, failure)
    case RemoteWrite(o, reply) =>
      if o >= |s.writers| || o >= |c.owners| || c.owners[o] == c.self || !s.writers[o].Started? then s
      else if reply.Stored? then Acks(s, o)
      else if reply.Retryable? then Moves(s, o, HandingOff(reply.err))
      else Sends(s, o, Some(ErrorOf(reply)))
    case HandOff(o, stored) =>
      if o >= |s.writers| || !s.writers[o].HandingOff? then s
      else
        var s' := if stored then s.(handed := s.handed + {o}) else s;
        Sends(s', o, if stored && c.level == Any then None else Some(s.writers[o].err))
    case Receive =>
      if s.t.verdict.Some? || s.t.seen >= |s.log| then s
      else s.(t := Absorb(NeededBy(c), |c.owners|, s.t, s.log[s.t.seen]))
    case Expire => if s.t.verdict.Some? then s else s.(t := Absorb(NeededBy(c), |c.owners|, s.t, Timeout))
    case Close => if s.t.verdict.Some? then s else s.(t := Absorb(NeededBy(c), |c.owners|, s.t, Closing))
  }

  ghost function Run(c: Config, es: seq<Event>): State {
    if es == [] then Initial(c) else Next(c, Run(c, es[..|es| - 1]), es[|es| - 1])
  }

  /** An answer tells the truth: success means the owner stored the points, or at level Any that they were handed off. */
  predicate Honest(c: Config, s: State, a: Arrival) {
    && a.Answer? && a.owner < |s.writers| && s.writers[a.owner].Done?
    && (a.err.None? ==> a.owner in s.acked || (c.level == Any && a.owner in s.handed))
  }

  /** What holds after every run: each writer answers once, honestly, and the loop has counted the answers it took. */
  ghost predicate Holds(c: Config, s: State) {
    && |s.writers| == |c.owners|
    && (forall i :: 0 <= i < |s.log| ==> Honest(c, s, s.log[i]))
    && (forall i, j :: 0 <= i < j < |s.log| ==> s.log[i].owner != s.log[j].owner)
    && s.t.seen <= |s.log| && s.t.wrote == Successes(s.log[..s.t.seen])
    && (s.t.verdict == Some(Success) ==> s.t.wrote >= NeededBy(c))
  }

  lemma SuccessesSnoc(log: seq<Arrival>, n: nat)
    requires n < |log|
    ensures Successes(log[..n + 1]) == Successes(log[..n]) + (if log[n].Answer? && log[n].err.None? then 1 else 0)
  {
    assert log[..n + 1] == log[..n] + [log[n]];
    SuccessesSplit(log[..n], [log[n]]);
    OneSuccess(log[n]);
  }

  lemma SendKeeps(c: Config, s: State, o: nat, err: Option<string>, acked: set<nat>, handed: set<nat>)
    requires Holds(c, s) && o < |s.writers| && !s.writers[o].Done?
    requires s.acked <= acked && s.handed <= handed
    requires err.None? ==> o in acked || (c.level == Any && o in handed)
    ensures Holds(c, Sends(s, o, err).(acked := acked, handed := handed))
  {
    var s' := Sends(s, o, err).(acked := acked, handed := handed);
    forall i | 0 <= i < |s'.log| ensures Honest(c, s', s'.log[i]) {
      assert i < |s.log| ==> Honest(c, s, s.log[i]);
    }
    forall i | 0 <= i < |s.log| ensures s.log[i].owner != o {
      assert Honest(c, s, s.log[i]);
    }
    assert s'.log[..s.t.seen] == s.log[..s.t.seen];
  }

  lemma MoveKeeps(c: Config, s: State, o: nat, w: Writer)
    requires Holds(c, s) && o < |s.writers| && !s.writers[o].Done?
    ensures Holds(c, Moves(s, o, w))
  {
    var s' := Moves(s, o, w);
    forall i | 0 <= i < |s'.log| ensures Honest(c, s', s'.log[i]) {
      assert Honest(c, s, s.log[i]);
    }
  }

  lemma LoopKeeps(c: Config, s: State, a: Arrival)
    requires Holds(c, s) && s.t.verdict.None?
    requires a.Answer? ==> s.t.seen < |s.log| && a == s.log[s.t.seen]
    ensures Holds(c, s.(t := Absorb(NeededBy(c), |c.owners|, s.t, a)))
  {
    var s' := s.(t := Absorb(NeededBy(c), |c.owners|, s.t, a));
    forall i | 0 <= i < |s'.log| ensures Honest(c, s', s'.log[i]) {
      assert Honest(c, s, s.log[i]);
    }
    if a.Answer? {
      SuccessesSnoc(s.log, s.t.seen);
    }
  }

  lemma StepKeeps(c: Config, s: State, e: Event)
    requires Holds(c, s)
    ensures Holds(c, Next(c, s, e))
  {
    hide Holds;
    var s' := Next(c, s, e);
    match e
    case LocalWrite(o, reply) =>
      if s' != s {
        WriteKeeps(c, s, e);
      }
    case CreateShard(o, failure) =>
      if s' != s {
        if failure.None? {
          MoveKeeps(c, s, o, Rewriting);
        } else {
          SendKeeps(c, s, o, failure, s.acked, s.handed);
        }
      }
    case RemoteWrite(o, reply) =>
      if s' != s {
        WriteKeeps(c, s, e);
      }
    case HandOff(o, stored) =>
      if s' != s {
        HandOffKeeps(c, s, o, stored);
      }
    case Receive =>
      if s' != s {
        LogIsAnswers(c, s, s.t.seen);
        LoopKeeps(c, s, s.log[s.t.seen]);
      }
    case Expire =>
      if s' != s {
        LoopKeeps(c, s, Timeout);
      }
    case Close =>
      if s' != s {
        LoopKeeps(c, s, Closing);
      }
  }

  lemma LogIsAnswers(c: Config, s: State, i: nat)
    requires Holds(c, s) && i < |s.log|
    ensures s.log[i].Answer?
  {
    assert Honest(c, s, s.log[i]);
  }

  lemma WriteKeeps(c: Config, s: State, e: Event)
    requires Holds(c, s) && (e.LocalWrite? || e.RemoteWrite?) && Next(c, s, e) != s
    ensures Holds(c, Next(c, s, e))
  {
    hide Holds;
    var o := e.at;
    if e.reply.Stored? {
      SendKeeps(c, s, o, None, s.acked + {o}, s.handed);
    } else if e.LocalWrite? && e.reply.ShardNotFound? && s.writers[o].Started? {
      MoveKeeps(c, s, o, Creating);
    } else if e.RemoteWrite? && e.reply.Retryable? {
      MoveKeeps(c, s, o, HandingOff(e.reply.err));
    } else {
      SendKeeps(c, s, o, Some(ErrorOf(e.reply)), s.acked, s.handed);
    }
  }

  lemma HandOffKeeps(c: Config, s: State, o: nat, stored: bool)
    requires Holds(c, s) && Next(c, s, HandOff(o, stored)) != s
    ensures Holds(c, Next(c, s, HandOff(o, stored)))
  {
    hide Holds;
    var handed := if stored then s.handed + {o} else s.handed;
    SendKeeps(c, s, o, if stored && c.level == Any then None else Some(s.writers[o].err), s.acked, handed);
  }

  lemma {:induction false} RunHolds(c: Config, es: seq<Event>)
    ensures Holds(c, Run(c, es))
  {
    if es != [] {
      RunHolds(c, es[..|es| - 1]);
      StepKeeps(c, Run(c, es[..|es| - 1]), es[|es| - 1]);
    }
  }

  // ----- What success means -----

  /** The owners that answered with success among the first `n` answers. */
  ghost function Confirmed(log: seq<Arrival>, n: nat): set<nat>
    requires n <= |log|
  {
    set i | 0 <= i < n && log[i].Answer? && log[i].err.None? :: log[i].owner
  }

  lemma {:induction false} ConfirmedCount(log: seq<Arrival>, n: nat)
    requires n <= |log| && (forall i :: 0 <= i < |log| ==> log[i].Answer?)
    requires forall i, j :: 0 <= i < j < |log| ==> log[i].owner != log[j].owner
    ensures |Confirmed(log, n)| == Successes(log[..n])
  {
    if n == 0 {
      assert Confirmed(log, 0) == {};
    } else {
      ConfirmedCount(log, n - 1);
      SuccessesSnoc(log, n - 1);
      ConfirmedNext(log, n - 1);
      hide Confirmed, Successes;
    }
  }

  lemma ConfirmedNext(log: seq<Arrival>, n: nat)
    requires n < |log| && (forall i :: 0 <= i < |log| ==> log[i].Answer?)
    requires forall i, j :: 0 <= i < j < |log| ==> log[i].owner != log[j].owner
    ensures log[n].owner !in Confirmed(log, n)
    ensures Confirmed(log, n + 1) == if log[n].err.None? then Confirmed(log, n) + {log[n].owner} else Confirmed(log, n)
  {
  }

  /** The positions that confirmed the write stored it, or at level Any had it handed off. */
  lemma SuccessIsConfirmed(c: Config, es: seq<Event>) returns (who: set<nat>)
    requires Run(c, es).t.verdict == Some(Success)
    ensures |who| >= NeededBy(c) && forall o :: o in who ==> o < |c.owners|
    ensures who <= Run(c, es).acked + (if c.level == Any then Run(c, es).handed else {})
  {
    var s := Run(c, es);
    RunHolds(c, es);
    hide Run;
    forall i | 0 <= i < |s.log| ensures s.log[i].Answer? {
      LogIsAnswers(c, s, i);
    }
    who := Confirmed(s.log, s.t.seen);
    ConfirmedCount(s.log, s.t.seen);
    forall o | o in who ensures o < |c.owners| && (o in s.acked || (c.level == Any && o in s.handed)) {
      var i :| 0 <= i < s.t.seen && s.log[i].owner == o && s.log[i].err.None?;
      assert Honest(c, s, s.log[i]);
    }
  }

  ghost function OwnersAt(owners: seq<nat>, who: set<nat>): set<nat> {
    set k | k in who && k < |owners| :: owners[k]
  }

  lemma {:induction false} OwnersAtCount(owners: seq<nat>, who: set<nat>)
    requires Distinct(owners) && forall k :: k in who ==> k < |owners|
    ensures |OwnersAt(owners, who)| == |who|
  {
    if who == {} {
      assert OwnersAt(owners, who) == {};
    } else {
      var k :| k in who;
      OwnersAtCount(owners, who - {k});
      assert OwnersAt(owners, who) == OwnersAt(owners, who - {k}) + {owners[k]};
    }
  }

  /**
   In every run, whatever the interleaving, success is returned only after the
   required number of distinct owners stored the points; a hinted handoff stands
   in for an owner only at level Any.
   */
  lemma SuccessNeedsOwners(c: Config, es: seq<Event>)
    requires Distinct(c.owners) && Run(c, es).t.verdict == Some(Success)
    ensures var s := Run(c, es);
      |OwnersAt(c.owners, s.acked + (if c.level == Any then s.handed else {}))| >= NeededBy(c)
  {
    var who := SuccessIsConfirmed(c, es);
    hide Run;
    var s := Run(c, es);
    OwnersAtCount(c.owners, who);
    Subset(OwnersAt(c.owners, who), OwnersAt(c.owners, s.acked + (if c.level == Any then s.handed else {})));
  }

  lemma {:induction false} CountBelow(who: set<nat>, n: nat)
    requires forall k :: k in who ==> k < n
    ensures |who| <= n
  {
    if n == 0 {
      assert who == {};
    } else {
      CountBelow(who - {n - 1}, n - 1);
    }
  }

  /** Two successful quorum writes to one shard were stored by a common owner. */
  lemma QuorumsMeet(c: Config, es: seq<Event>, c': Config, es': seq<Event>)
    requires c.level == Quorum && c'.level == Quorum && c'.owners == c.owners
    requires Run(c, es).t.verdict == Some(Success) && Run(c', es').t.verdict == Some(Success)
    ensures exists k :: 0 <= k < |c.owners| && k in Run(c, es).acked && k in Run(c', es').acked
  {
    var a := SuccessIsConfirmed(c, es);
    var b := SuccessIsConfirmed(c', es');
    hide Run;
    CountBelow(a + b, |c.owners|);
    assert |a + b| == |a| + |b| - |a * b|;
    assert |a * b| > 0;
    var k :| k in a * b;
    assert k in a && k in b;
  }

  lemma {:induction false} Subset(a: set<nat>, b: set<nat>)
    requires a <= b
    ensures |a| <= |b|
  {
    if a != {} {
      var x :| x in a;
      Subset(a - {x}, b - {x});
    }
  }

  // ----- Runs that are not cut short -----

  predicate Calm(es: seq<Event>) {
    forall e :: e in es ==> !e.Expire? && !e.Close?
  }

  /** Without timeout or close, the loop has an outcome just when it has counted enough, or all. */
  predicate Settled(c: Config, t: Tally) {
    var n := |c.owners|;
    match t.verdict
    case None => t.seen < n && t.wrote < NeededBy(c)
    case Some(Success) => n > 0 && t.wrote >= NeededBy(c)
    case Some(Partial) => t.seen == n && 0 < t.wrote < NeededBy(c)
    case Some(Failed(_)) => t.seen == n && t.wrote == 0
    case Some(TimedOut) => false
  }

  lemma {:induction false} CalmSettled(c: Config, es: seq<Event>)
    requires Calm(es)
    ensures Settled(c, Run(c, es).t)
  {
    if es != [] {
      var n := |es| - 1;
      CalmSettled(c, es[..n]);
      RunHolds(c, es[..n]);
      CalmStep(c, Run(c, es[..n]), es[n]);
    }
  }

  lemma CalmStep(c: Config, s: State, e: Event)
    requires Holds(c, s) && Settled(c, s.t) && !e.Expire? && !e.Close?
    ensures Settled(c, Next(c, s, e).t)
  {
    if e.Receive? {
      if s.t.seen < |s.log| {
        LogIsAnswers(c, s, s.t.seen);
      }
      hide Holds;
    } else {
      hide Holds;
      assert Next(c, s, e).t == s.t;
    }
  }

  /**
   In every interleaving in which all owners answer and neither the timeout nor a
   close cuts the wait short, the outcome depends on the number of successful
   answers alone.
   */
  lemma CalmOutcome(c: Config, es: seq<Event>)
    requires Calm(es) && Run(c, es).t.verdict.Some? && |Run(c, es).log| == |c.owners|
    ensures ClassOf(Run(c, es).t.verdict.value) == Expected(NeededBy(c), |c.owners|, Successes(Run(c, es).log))
  {
    CalmSettled(c, es);
    RunHolds(c, es);
    hide Run, Successes;
    var s := Run(c, es);
    assert s.log == s.log[..s.t.seen] + s.log[s.t.seen..];
    SuccessesSplit(s.log[..s.t.seen], s.log[s.t.seen..]);
    assert s.t.seen == |c.owners| ==> s.log[..s.t.seen] == s.log;
  }

  // ----- What each level asks for -----

  lemma CountsFully(who: set<nat>, n: nat)
    requires (forall k :: k in who ==> k < n) && |who| >= n
    ensures forall k :: 0 <= k < n ==> k in who
  {
    forall k | 0 <= k < n ensures k in who {
      if k !in who {
        CountBelow(who + {k}, n);
      }
    }
  }

  /**
   In every run, success means: at level All, that every owner stored the points; at
   Quorum, more than half of them; at One, one of them; at Any, that one of them
   stored them or had them handed off.
   */
  lemma SuccessByLevel(c: Config, es: seq<Event>)
    requires Run(c, es).t.verdict == Some(Success)
    ensures var s := Run(c, es);
      match c.level
      case All => forall k :: 0 <= k < |c.owners| ==> k in s.acked
      case Quorum => 2 * |s.acked| > |c.owners|
      case One => exists k :: 0 <= k < |c.owners| && k in s.acked
      case Any => exists k :: 0 <= k < |c.owners| && (k in s.acked || k in s.handed)
  {
    var who := SuccessIsConfirmed(c, es);
    hide Run;
    var s := Run(c, es);
    if c.level == All {
      CountsFully(who, |c.owners|);
    } else if c.level == Quorum {
      Subset(who, s.acked);
    } else {
      assert who != {};
      var k :| k in who;
      assert k in s.acked || k in s.handed;
    }
  }

  /** What was stored, or handed off at level Any, is answered with success. */
  ghost predicate Recorded(c: Config, s: State) {
    && (forall o :: o in s.acked ==> Answer(o, None) in s.log)
    && (c.level == Any ==> forall o :: o in s.handed ==> Answer(o, None) in s.log)
  }

  lemma {:induction false} RunRecorded(c: Config, es: seq<Event>)
    ensures Recorded(c, Run(c, es))
  {
    if es != [] {
      RunRecorded(c, es[..|es| - 1]);
      StepRecorded(c, Run(c, es[..|es| - 1]), es[|es| - 1]);
    }
  }

  lemma StepRecorded(c: Config, s: State, e: Event)
    requires Recorded(c, s)
    ensures Recorded(c, Next(c, s, e))
  {
    var s' := Next(c, s, e);
    if e.Receive? || e.Expire? || e.Close? {
      assert s'.log == s.log && s'.acked == s.acked && s'.handed == s.handed;
    } else if s'.log != s.log {
      var a := s'.log[|s.log|];
      assert s'.log == s.log + [a];
      assert a in s'.log;
    }
  }

  /** The positions of the owners that stored the points, or at level Any had them handed off. */
  ghost function Served(c: Config, s: State): set<nat> {
    s.acked + (if c.level == Any then s.handed else {})
  }

  lemma ServedCount(c: Config, es: seq<Event>)
    ensures Successes(Run(c, es).log) == |Served(c, Run(c, es))|
    ensures forall k :: k in Served(c, Run(c, es)) ==> k < |c.owners|
  {
    RunHolds(c, es);
    RunRecorded(c, es);
    hide Run;
    var s := Run(c, es);
    forall i | 0 <= i < |s.log| ensures s.log[i].Answer? {
      LogIsAnswers(c, s, i);
    }
    ConfirmedCount(s.log, |s.log|);
    assert s.log[..|s.log|] == s.log;
    ConfirmedIsServed(c, s);
  }

  lemma ConfirmedIsServed(c: Config, s: State)
    requires Holds(c, s) && Recorded(c, s)
    ensures Confirmed(s.log, |s.log|) == Served(c, s)
    ensures forall k :: k in Served(c, s) ==> k < |c.owners|
  {
    forall o | o in Confirmed(s.log, |s.log|) ensures o in Served(c, s) {
      var i :| 0 <= i < |s.log| && s.log[i].Answer? && s.log[i].err.None? && s.log[i].owner == o;
      assert Honest(c, s, s.log[i]);
    }
    forall o | o in Served(c, s) ensures o in Confirmed(s.log, |s.log|) && o < |c.owners| {
      assert Answer(o, None) in s.log;
      var i :| 0 <= i < |s.log| && s.log[i] == Answer(o, None);
      assert Honest(c, s, s.log[i]);
    }
  }

  /**
   In every interleaving in which all owners answer and nothing cuts the wait short:
   success at level All exactly if every owner stored the points, at Quorum exactly if
   more than half did, at One exactly if one did, at Any exactly if one did or had
   them handed off. Failure exactly if none did, and otherwise a partial write.
   */
  lemma CalmByLevel(c: Config, es: seq<Event>)
    requires Calm(es) && Run(c, es).t.verdict.Some? && |Run(c, es).log| == |c.owners| > 0
    ensures var s, n := Run(c, es), |c.owners|;
      && (c.level == All ==> (s.t.verdict == Some(Success) <==> forall k :: 0 <= k < n ==> k in s.acked))
      && (c.level == Quorum ==> (s.t.verdict == Some(Success) <==> 2 * |s.acked| > n))
      && (c.level == One ==> (s.t.verdict == Some(Success) <==> s.acked != {}))
      && (c.level == Any ==> (s.t.verdict == Some(Success) <==> s.acked + s.handed != {}))
      && (s.t.verdict.value.Failed? <==> s.acked == {} && (c.level == Any ==> s.handed == {}))
      && !s.t.verdict.value.TimedOut?
  {
    CalmOutcome(c, es);
    ServedCount(c, es);
    hide Run, Successes;
    var s, n := Run(c, es), |c.owners|;
    CountBelow(Served(c, s), n);
    if forall k :: 0 <= k < n ==> k in s.acked {
      AllCount(s.acked, n);
    }
    if |Served(c, s)| >= n {
      CountsFully(Served(c, s), n);
    }
  }

  lemma {:induction false} AllCount(who: set<nat>, n: nat)
    requires forall k :: 0 <= k < n ==> k in who
    ensures |who| >= n
  {
    if n > 0 {
      AllCount(who - {n - 1}, n - 1);
    }
  }

  // ----- What the loop returns, for any arrivals -----

  /** The first `n` arrivals are answers, and too few successes among them. */
  predicate Waiting(required: nat, arrivals: seq<Arrival>, n: nat)
    requires n <= |arrivals|
  {
    (forall a :: a in arrivals[..n] ==> a.Answer?) && Successes(arrivals[..n]) < required
  }

  function FirstError(arrivals: seq<Arrival>): Option<string> {
    if arrivals == [] then None
    else if arrivals[0].Answer? && arrivals[0].err.Some? then arrivals[0].err
    else FirstError(arrivals[1..])
  }

  lemma {:induction false} FirstErrorSnoc(arrivals: seq<Arrival>, a: Arrival)
    requires a.Answer?
    ensures FirstError(arrivals + [a]) == if FirstError(arrivals).Some? then FirstError(arrivals) else a.err
  {
    if arrivals == [] {
      assert ([] + [a])[1..] == [];
    } else {
      assert (arrivals + [a])[1..] == arrivals[1..] + [a];
      FirstErrorSnoc(arrivals[1..], a);
    }
  }

  /** How far the loop has come after `n` arrivals that did not end it. */
  lemma {:induction false} WaitedFor(required: nat, owners: nat, arrivals: seq<Arrival>, n: nat)
    requires n < owners && n <= |arrivals| && Waiting(required, arrivals, n)
    ensures Settle(required, owners, StartTally(owners), arrivals)
         == Settle(required, owners, Tally(Successes(arrivals[..n]), n, FirstError(arrivals[..n]), None), arrivals[n..])
  {
    if n == 0 {
      assert arrivals[0..] == arrivals && arrivals[..0] == [];
    } else {
      var p := arrivals[..n - 1];
      assert arrivals[..n] == p + [arrivals[n - 1]];
      assert arrivals[n - 1] in arrivals[..n];
      SuccessesSplit(p, [arrivals[n - 1]]);
      OneSuccess(arrivals[n - 1]);
      FirstErrorSnoc(p, arrivals[n - 1]);
      WaitedFor(required, owners, arrivals, n - 1);
      assert arrivals[n - 1..][0] == arrivals[n - 1] && arrivals[n - 1..][1..] == arrivals[n..];
      hide FirstError, Successes;
    }
  }

  /**
   The loop waits until enough have answered with success, it is closed, its time is
   up, or all have answered; then it returns just this.
   */
  lemma SettlesAt(required: nat, owners: nat, arrivals: seq<Arrival>, n: nat)
    requires n < owners && n < |arrivals| && Waiting(required, arrivals, n)
    ensures var v := Settle(required, owners, StartTally(owners), arrivals);
      match arrivals[n]
      case Closing => v == Some(Failed(None))
      case Timeout => v == Some(TimedOut)
      case Answer(_, _) =>
        && (Successes(arrivals[..n + 1]) >= required ==> v == Some(Success))
        && (Successes(arrivals[..n + 1]) < required && n + 1 == owners ==>
              v == Some(if Successes(arrivals[..owners]) > 0 then Partial else Failed(FirstError(arrivals[..owners]))))
  {
    WaitedFor(required, owners, arrivals, n);
    assert arrivals[n..][0] == arrivals[n];
    var p := arrivals[..n];
    assert arrivals[..n + 1] == p + [arrivals[n]];
    SuccessesSplit(p, [arrivals[n]]);
    OneSuccess(arrivals[n]);
    if arrivals[n].Answer? {
      FirstErrorSnoc(p, arrivals[n]);
    }
    hide FirstError, Successes;
  }

  /** One of these cases always comes up. */
  lemma {:induction false} SettlesSomewhere(required: nat, owners: nat, arrivals: seq<Arrival>, n: nat) returns (k: nat)
    requires n < owners <= |arrivals| && Waiting(required, arrivals, n)
    ensures k < owners && Waiting(required, arrivals, k)
    ensures !arrivals[k].Answer? || Successes(arrivals[..k + 1]) >= required || k + 1 == owners
    decreases owners - n
  {
    if arrivals[n].Answer? && Successes(arrivals[..n + 1]) < required && n + 1 < owners {
      assert arrivals[..n + 1] == arrivals[..n] + [arrivals[n]];
      k := SettlesSomewhere(required, owners, arrivals, n + 1);
    } else {
      k := n;
    }
  }

  /** When every owner answers with an error, the write fails with the error of the first. */
  lemma FirstErrorFails(level: Level, owners: nat, arrivals: seq<Arrival>)
    requires |arrivals| == owners > 0 && forall a :: a in arrivals ==> a.Answer? && a.err.Some?
    ensures Settle(Required(level, owners), owners, StartTally(owners), arrivals) == Some(Failed(arrivals[0].err))
  {
    NoneSucceed(arrivals);
    var n := owners - 1;
    assert arrivals[..owners] == arrivals;
    NoneSucceed(arrivals[..n]);
    forall a | a in arrivals[..n] ensures a.Answer? {
      assert a in arrivals;
    }
    assert arrivals[0] in arrivals && arrivals[n] in arrivals;
    SettlesAt(Required(level, owners), owners, arrivals, n);
  }

  lemma {:induction false} NoneSucceed(arrivals: seq<Arrival>)
    requires forall a :: a in arrivals ==> a.Answer? && a.err.Some?
    ensures Successes(arrivals) == 0
  {
    if arrivals != [] {
      assert arrivals[0] in arrivals;
      NoneSucceed(arrivals[1..]);
    }
  }

  /** The loop by levels, when every owner answers: how many successes each level asks for. */
  lemma CollectByLevel(level: Level, owners: nat, arrivals: seq<Arrival>)
    requires |arrivals| == owners > 0 && forall a :: a in arrivals ==> a.Answer?
    ensures var v, n := Settle(Required(level, owners), owners, StartTally(owners), arrivals), Successes(arrivals);
      && (level == All ==> (v == Some(Success) <==> forall i :: 0 <= i < owners ==> arrivals[i].err.None?))
      && (level == Quorum ==> (v == Some(Success) <==> 2 * n > owners))
      && (level == One || level == Any ==> (v == Some(Success) <==> n > 0))
      && v.Some? && (v.value.Failed? <==> n == 0) && !v.value.TimedOut?
  {
    ClassByCount(level, owners, arrivals);
    AllSucceed(arrivals);
    hide Settle, Successes;
  }

  lemma {:induction false} AllSucceed(arrivals: seq<Arrival>)
    requires forall a :: a in arrivals ==> a.Answer?
    ensures Successes(arrivals) <= |arrivals|
    ensures Successes(arrivals) == |arrivals| <==> forall i :: 0 <= i < |arrivals| ==> arrivals[i].err.None?
  {
    if arrivals != [] {
      assert arrivals[0] in arrivals;
      AllSucceed(arrivals[1..]);
      assert forall i :: 1 <= i < |arrivals| ==> arrivals[i] == arrivals[1..][i - 1];
      if forall i :: 0 <= i < |arrivals| ==> arrivals[i].err.None? {
        assert forall i :: 0 <= i < |arrivals[1..]| ==> arrivals[1..][i] == arrivals[i + 1];
      }
    }
  }

  // ----- The paths of a writer -----

  /** The writer has sent its answer, and counts as having stored the points just if there was no error. */
  ghost predicate Finishes(s: State, s': State, o: nat, err: Option<string>) {
    && |s'.writers| == |s.writers| && o < |s.writers| && s'.writers[o].Done?
    && s'.log == s.log + [Answer(o, err)] && s'.acked == (if err.None? then s.acked + {o} else s.acked)
    && s'.handed == s.handed
  }

  /** The error a reply stands for. */
  function Said(r: Reply): Option<string> {
    match r
    case Stored => None
    case ShardNotFound => Some("shard not found")
    case Permanent(err) => Some(err)
    case Retryable(err) => Some(err)
  }

  /**
   A remote write that fails with an error worth retrying is handed off, and only such
   a one; its own error is reported, unless at level Any the handoff stands in for it.
   */
  lemma RemotePath(c: Config, s: State, o: nat, reply: Reply, stored: bool)
    requires o < |s.writers| == |c.owners| && c.owners[o] != c.self && s.writers[o].Started?
    ensures var s' := Next(c, Next(c, s, RemoteWrite(o, reply)), HandOff(o, stored));
      && (!reply.Retryable? ==> Finishes(s, s', o, Said(reply)))
      && (reply.Retryable? ==>
           && s'.log == s.log + [Answer(o, if stored && c.level == Any then None else Some(reply.err))]
           && s'.acked == s.acked && s'.handed == (if stored then s.handed + {o} else s.handed))
  {
  }

  /** A local write to a shard that is not there makes the shard and writes once more; nothing is handed off. */
  lemma LocalPath(c: Config, s: State, o: nat, reply: Reply, failure: Option<string>, again: Reply)
    requires o < |s.writers| == |c.owners| && c.owners[o] == c.self && s.writers[o].Started?
    ensures var s' := Next(c, Next(c, Next(c, s, LocalWrite(o, reply)), CreateShard(o, failure)), LocalWrite(o, again));
      Finishes(s, s', o, if !reply.ShardNotFound? then Said(reply) else if failure.Some? then failure else Said(again))
  {
  }
}
