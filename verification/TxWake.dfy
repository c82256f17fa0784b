/** Who is called back after the modem refused data: the deferred tx-full wake-up. */
module TxWake {
  /** The one-shot timer and the sockets marked for a call when it fires. */
  datatype Tx<T> = Tx(timer: bool, flagged: set<T>)

  datatype Event<T> = Blocked(socket: T) | Closed(socket: T) | Expired

  function Idle<T>(): Tx<T> {
    Tx(false, {})
  }

  /** A refused send marks its socket only when it also starts the timer. */
  function Step<T>(t: Tx<T>, e: Event<T>): Tx<T> {
    match e
    case Blocked(s) => if s !in t.flagged && !t.timer then Tx(true, t.flagged + {s}) else t
    case Closed(s) => t.(flagged := t.flagged - {s})
    case Expired => Idle()
  }

  function Run<T>(t: Tx<T>, es: seq<Event<T>>): Tx<T>
    decreases |es|
  {
    if es == [] then t else Run(Step(t, es[0]), es[1..])
  }

  /** At most one socket is marked, and then the timer runs. */
  ghost predicate Armed<T>(t: Tx<T>) {
    |t.flagged| <= 1 && (t.flagged != {} ==> t.timer)
  }

  lemma StepArmed<T>(t: Tx<T>, e: Event<T>)
    requires Armed(t)
    ensures Armed(Step(t, e))
  {
    if e.Closed? {
      assert t.flagged == (t.flagged - {e.socket}) + (t.flagged * {e.socket});
    }
  }

  /** What a refusal comes to when the timer may be impossible to schedule: the socket is marked then all the
      same. */
  function Refused<T>(t: Tx<T>, s: T, schedules: bool): Tx<T> {
    if schedules || s in t.flagged || t.timer then Step(t, Blocked(s)) else Tx(false, t.flagged + {s})
  }

  /** A refusal leaves a marked socket without a timer exactly when no timer runs and none can be scheduled. */
  lemma RefusedArmedIff<T>(t: Tx<T>, s: T, schedules: bool)
    requires Armed(t)
    ensures Armed(Refused(t, s, schedules)) <==> t.timer || schedules
  {
    StepArmed(t, Blocked(s));
    if !t.timer && !schedules {
      assert s in Refused(t, s, schedules).flagged;
    }
  }

  /** One such refusal: its socket stays marked, no later one starts a timer for it, and only another socket's
      would. */
  lemma UnscheduledStaysMarked<T(!new)>(s: T, es: seq<Event<T>>)
    requires forall e :: e in es ==> e == Blocked(s)
    ensures Run(Refused(Idle<T>(), s, false), es) == Tx(false, {s}) && !Armed(Refused(Idle<T>(), s, false))
    decreases |es|
  {
    var t := Refused(Idle<T>(), s, false);
    assert t == Tx(false, {s});
    if es != [] {
      assert es[0] in es && Step(t, es[0]) == t && forall e :: e in es[1..] ==> e in es;
      UnscheduledStaysMarked(s, es[1..]);
    }
  }

  lemma {:induction false} RunArmed<T>(t: Tx<T>, es: seq<Event<T>>)
    requires Armed(t)
    ensures Armed(Run(t, es))
    decreases |es|
  {
    if es != [] {
      StepArmed(t, es[0]);
      RunArmed(Step(t, es[0]), es[1..]);
    }
  }

  ghost predicate Quiet<T(!new)>(es: seq<Event<T>>, s: T) {
    forall e :: e in es ==> e != Closed(s) && !e.Expired?
  }

  /** A socket told to wait is called back at the next expiry exactly when it was the one marked, or
      no timer ran: other sockets' refusals in between change nothing. */
  lemma {:induction false} WokenIff<T(!new)>(t: Tx<T>, s: T, es: seq<Event<T>>)
    requires Armed(t) && Quiet(es, s)
    ensures s in Run(Step(t, Blocked(s)), es).flagged <==> s in t.flagged || !t.timer
  {
    MarkStays(Step(t, Blocked(s)), s, es);
  }

  lemma {:induction false} MarkStays<T(!new)>(t: Tx<T>, s: T, es: seq<Event<T>>)
    requires t.timer && Quiet(es, s)
    ensures s in Run(t, es).flagged <==> s in t.flagged
    decreases |es|
  {
    if es != [] {
      assert es[0] in es;
      MarkStays(Step(t, es[0]), s, es[1..]);
    }
  }

  /** Two sockets refused one after the other: only the first is called back. */
  lemma SecondRefusalUnnoticed<T(!new)>(a: T, b: T)
    requires a != b
    ensures Run(Idle<T>(), [Blocked(a), Blocked(b)]).flagged == {a}
  {
    var es := [Blocked(a), Blocked(b)];
    assert es[1..] == [Blocked(b)] && es[1..][1..] == [];
    assert Run(Step(Step(Idle<T>(), es[0]), es[1]), []).flagged == {a};
  }

  /** A socket closed after a refusal is not called at the next expiry, unless it is refused again. */
  lemma {:induction false} ClosedNotWoken<T(!new)>(t: Tx<T>, s: T, es: seq<Event<T>>)
    requires forall e :: e in es ==> e != Blocked(s)
    ensures s !in Run(Step(Step(t, Blocked(s)), Closed(s)), es).flagged
  {
    NotMarked(Step(Step(t, Blocked(s)), Closed(s)), s, es);
  }

  lemma {:induction false} NotMarked<T(!new)>(t: Tx<T>, s: T, es: seq<Event<T>>)
    requires s !in t.flagged && forall e :: e in es ==> e != Blocked(s)
    ensures s !in Run(t, es).flagged
    decreases |es|
  {
    if es != [] {
      assert es[0] in es && forall e :: e in es[1..] ==> e in es;
      NotMarked(Step(t, es[0]), s, es[1..]);
    }
  }
}
