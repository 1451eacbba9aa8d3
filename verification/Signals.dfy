/** psignal: signal masks, pending signals and handlers, emulated within one process. */
module Signals {
  import opened Basics

  const NSIG: int := 32

  const SIGINT: int := 2
  const SIGILL: int := 4
  const SIGFPE: int := 8
  const SIGSEGV: int := 11
  const SIGTERM: int := 15
  const SIGCHLD: int := 20
  const SIGABRT: int := 22

  predicate IsSignal(s: int) {
    0 < s < NSIG
  }

  /** A word of bits: s is an element if bit s - 1 is set. */
  type SigSet = set<int>

  datatype Handler = Default | Ignore | Call(id: int)

  /** One entry of the table: the handler, how often the signal is pending, the mask for the handler, and the flags. */
  datatype Info = Info(handler: Handler, count: nat, mask: SigSet, noCldStop: bool, resetHand: bool)

  /** What happens to a signal that is delivered. */
  datatype Action = Ignored | Exits | Called(id: int)

  /** A delivery; mask is the signal mask while the handler is running. */
  datatype Event = Event(signal: int, action: Action, mask: SigSet)

  type Table = seq<Info>

  ghost predicate Complete(t: Table) {
    |t| == NSIG
  }

  /** The signals whose default action ends the process. */
  predicate DefaultExits(s: int) {
    s == SIGABRT || s == SIGFPE || s == SIGILL || s == SIGINT || s == SIGSEGV || s == SIGTERM
  }

  function ActionOf(i: Info, s: int): Action {
    match i.handler
    case Default => if DefaultExits(s) then Exits else Ignored
    case Ignore => Ignored
    case Call(id) => if s == SIGCHLD && i.noCldStop then Ignored else Called(id)
  }

  /** The delivery of s when the mask is m. */
  function Delivery(i: Info, s: int, m: SigSet): Event {
    var action := ActionOf(i, s);
    Event(s, action, if action.Called? then m + i.mask + {s} else m)
  }

  /** The entry of a signal that has been delivered. */
  function Spent(i: Info): Info {
    i.(count := 0, handler := if i.handler.Call? && i.resetHand then Default else i.handler)
  }

  ghost function Pending(t: Table): set<int> {
    set s | s in Numbers() && s < |t| && t[s].count > 0
  }

  ghost function Numbers(): set<int> {
    set s | 0 < s < NSIG && IsSignal(s)
  }

  ghost function SignalsOf(trace: seq<Event>): set<int> {
    set i | 0 <= i < |trace| :: trace[i].signal
  }

  ghost predicate Once(trace: seq<Event>) {
    forall i, j :: 0 <= i < j < |trace| ==> trace[i].signal != trace[j].signal
  }

  /** From table t to table t' exactly the signals of the trace have been delivered, each once, with mask m in force. */
  ghost predicate Delivered(t: Table, t': Table, m: SigSet, trace: seq<Event>) {
    && Complete(t) && Complete(t') && Once(trace)
    && (forall i :: 0 <= i < |trace| ==>
      var e := trace[i]; IsSignal(e.signal) && e.signal !in m && e == Delivery(t[e.signal], e.signal, m))
    && (forall s :: 0 <= s < NSIG ==> t'[s] == if s in SignalsOf(trace) then Spent(t[s]) else t[s])
  }

  lemma SignalsOfSum(a: seq<Event>, b: seq<Event>)
    ensures SignalsOf(a + b) == SignalsOf(a) + SignalsOf(b)
  {
    var c := a + b;
    forall s | s in SignalsOf(a) + SignalsOf(b) ensures s in SignalsOf(c) {
      if s in SignalsOf(a) {
        var i :| 0 <= i < |a| && a[i].signal == s;
        assert c[i].signal == s;
      } else {
        var i :| 0 <= i < |b| && b[i].signal == s;
        assert c[|a| + i].signal == s;
      }
    }
  }

  /** Two runs of deliveries after each other, of different signals. */
  lemma DeliveredTwice(t: Table, t1: Table, t2: Table, m: SigSet, a: seq<Event>, b: seq<Event>)
    requires Delivered(t, t1, m, a) && Delivered(t1, t2, m, b) && SignalsOf(a) !! SignalsOf(b)
    ensures Delivered(t, t2, m, a + b)
  {
    SignalsOfSum(a, b);
    var c := a + b;
    forall i | 0 <= i < |c|
      ensures IsSignal(c[i].signal) && c[i].signal !in m && c[i] == Delivery(t[c[i].signal], c[i].signal, m)
    {
      if i >= |a| {
        assert b[i - |a|].signal in SignalsOf(b);
      }
    }
    forall i, j | 0 <= i < j < |c| ensures c[i].signal != c[j].signal {
      if i < |a| <= j {
        assert a[i].signal in SignalsOf(a) && b[j - |a|].signal in SignalsOf(b);
      } else if j < |a| {
        assert a[i].signal != a[j].signal;
      } else {
        assert b[i - |a|].signal != b[j - |a|].signal;
      }
    }
  }

  /** Delivering signals takes them from the pending ones and adds none. */
  lemma PendingFalls(t: Table, t': Table, m: SigSet, trace: seq<Event>)
    requires Delivered(t, t', m, trace)
    ensures Pending(t') == Pending(t) - SignalsOf(trace)
  {
  }

  /** Clearing the count beforehand makes no difference for a signal that is delivered. */
  lemma CountIrrelevant(t: Table, t': Table, s: int, m: SigSet, trace: seq<Event>)
    requires IsSignal(s) && Complete(t) && Delivered(t[s := t[s].(count := 0)], t', m, trace) && s in SignalsOf(trace)
    ensures Delivered(t, t', m, trace)
  {
  }

  lemma DeliveredOne(t: Table, s: int, m: SigSet)
    requires Complete(t) && IsSignal(s) && s !in m
    ensures Delivered(t, t[s := Spent(t[s])], m, [Delivery(t[s], s, m)])
    ensures SignalsOf([Delivery(t[s], s, m)]) == {s}
  {
    var trace := [Delivery(t[s], s, m)];
    assert trace[0].signal == s;
  }

  lemma DeliveredNone(t: Table, m: SigSet)
    requires Complete(t)
    ensures Delivered(t, t, m, []) && SignalsOf([]) == {}
  {
  }

  lemma NothingDelivered(t: Table, t': Table, m: SigSet)
    requires Delivered(t, t', m, [])
    ensures t' == t
  {
  }

  lemma ClearedNotPending(t: Table, s: int)
    requires Complete(t) && IsSignal(s) && t[s].count > 0
    ensures s in Pending(t) && Pending(t[s := t[s].(count := 0)]) == Pending(t) - {s}
  {
  }

  lemma PendingIff(t: Table, s: int)
    requires Complete(t) && IsSignal(s)
    ensures s in Pending(t) <==> t[s].count > 0
  {
  }

  lemma PendingAreSignals(t: Table)
    ensures forall s :: s in Pending(t) ==> IsSignal(s)
  {
  }

  lemma FewerPending(p: set<int>, q: set<int>)
    requires p <= q
    ensures |p| <= |q|
  {
    var r := q - p;
    assert q == p + r;
  }

  /** When the handler of s returns, nothing is set free if its mask has no pending signals. */
  lemma NoneFreed(t: Table, t0: Table, s: int, m: SigSet)
    requires Complete(t) && IsSignal(s) && s !in Pending(t) && Pending(t) <= Pending(t0)
    ensures Pending(t0) !! t[s].mask ==> Released(t, m + (t[s].mask + {s}), m) == {}
  {
  }

  lemma NoneReleased(t: Table, m: SigSet, m': SigSet)
    requires m <= m'
    ensures Released(t, m, m') == {}
  {
  }

  /** A delivery ends the process exactly if it is the last one of a run that has ended it. */
  ghost predicate EndsProperly(trace: seq<Event>, exited: bool) {
    && (exited ==> trace != [])
    && forall i :: 0 <= i < |trace| ==> (trace[i].action == Exits <==> exited && i == |trace| - 1)
  }

  lemma EndsOfSum(a: seq<Event>, b: seq<Event>, exited: bool)
    requires EndsProperly(a, false) && EndsProperly(b, exited)
    ensures EndsProperly(a + b, exited)
  {
    var c := a + b;
    forall i | 0 <= i < |c| ensures c[i].action == Exits <==> exited && i == |c| - 1 {
      assert i >= |a| ==> c[i] == b[i - |a|];
    }
  }

  const SIG_BLOCK: int := 0
  const SIG_UNBLOCK: int := 1
  const SIG_SETMASK: int := 2

  /** The mask that a call of sigprocmask asks for. */
  function NewMask(how: int, set_: Option<SigSet>, m: SigSet): SigSet {
    if set_.None? then m
    else if how == SIG_BLOCK then m + set_.value
    else if how == SIG_UNBLOCK then m - set_.value
    else set_.value
  }

  predicate KnownHow(how: int, set_: Option<SigSet>) {
    set_.None? || how == SIG_BLOCK || how == SIG_UNBLOCK || how == SIG_SETMASK
  }

  /** The pending signals that a change of the mask from m to m' sets free. */
  ghost function Released(t: Table, m: SigSet, m': SigSet): set<int> {
    set s | s in Pending(t) && s in m && s !in m'
  }

  /** Of the signals that a change of the mask frees, those below index are in the trace. */
  ghost predicate ReleasedBelow(t: Table, m: SigSet, m': SigSet, index: int, trace: seq<Event>) {
    && (forall s :: s in Released(t, m, m') && s < index ==> s in SignalsOf(trace))
    && (Released(t, m, m') == {} ==> trace == [])
  }

  lemma NoneBelow(t: Table, m: SigSet, m': SigSet)
    ensures ReleasedBelow(t, m, m', 1, [])
  {
    PendingAreSignals(t);
  }

  lemma AllBelow(t: Table, m: SigSet, m': SigSet, trace: seq<Event>)
    requires ReleasedBelow(t, m, m', NSIG, trace)
    ensures Released(t, m, m') <= SignalsOf(trace)
  {
    PendingAreSignals(t);
  }

  /** One more signal has been looked at, and delivered unless it is masked, was not, or is no longer pending. */
  lemma OneMoreBelow(t: Table, t': Table, m: SigSet, m': SigSet, index: int, trace: seq<Event>, trace': seq<Event>)
    requires ReleasedBelow(t, m, m', index, trace) && trace <= trace' && IsSignal(index)
    requires Complete(t') && Pending(t') == Pending(t) - SignalsOf(trace)
    requires if index !in m' && index in m && t'[index].count > 0 then index in SignalsOf(trace') else trace' == trace
    ensures ReleasedBelow(t, m, m', index + 1, trace')
  {
    PendingIff(t', index);
    if index !in m' && index in m && t'[index].count > 0 {
      assert index in Pending(t);
      assert index in Released(t, m, m');
    }
    SignalsOfSum(trace, trace'[|trace|..]);
    assert trace + trace'[|trace|..] == trace';
  }

  lemma SomeReleased(t: Table, m: SigSet, m': SigSet, index: int, trace: seq<Event>)
    requires ReleasedBelow(t, m, m', index, trace)
    ensures Released(t, m, m') == {} ==> trace == []
  {
  }

  /** No handler mask of a pending signal has a pending signal in it. */
  ghost predicate Independent(t: Table)
    requires Complete(t)
  {
    forall s, u :: s in Pending(t) && u in Pending(t) ==> IsSignal(s) && u !in t[s].mask
  }

  /** The first signal delivered is the least one set free; if the masks allow it, they are delivered in order. */
  ghost predicate InOrder(t: Table, m: SigSet, m': SigSet, index: int, trace: seq<Event>)
    requires Complete(t)
  {
    && (trace != [] ==>
      trace[0].signal in Released(t, m, m') && forall s :: s in Released(t, m, m') ==> trace[0].signal <= s)
    && (Independent(t) ==> Rising(trace) && forall i :: 0 <= i < |trace| ==> trace[i].signal < index)
  }

  ghost predicate Rising(trace: seq<Event>) {
    forall i, j :: 0 <= i < j < |trace| ==> trace[i].signal < trace[j].signal
  }

  /** One more signal is delivered, after none or after lesser ones. */
  lemma OneMoreInOrder(t: Table, t': Table, m: SigSet, m': SigSet, index: int, trace: seq<Event>, more: seq<Event>)
    requires Complete(t) && InOrder(t, m, m', index, trace) && ReleasedBelow(t, m, m', index, trace) && IsSignal(index)
    requires Complete(t') && Pending(t') == Pending(t) - SignalsOf(trace)
    requires index in m && index !in m' && t'[index].count > 0
    requires more != [] && more[0].signal == index && (Independent(t) ==> |more| == 1)
    ensures InOrder(t, m, m', index + 1, trace + more)
  {
    PendingIff(t', index);
    assert index in Released(t, m, m');
    if trace == [] {
      NoneYet(t, m, m', index);
    }
  }

  lemma NoneYet(t: Table, m: SigSet, m': SigSet, index: int)
    ensures ReleasedBelow(t, m, m', index, []) ==> forall s :: s in Released(t, m, m') ==> index <= s
  {
    assert SignalsOf([]) == {};
  }

  lemma InOrderFurther(t: Table, m: SigSet, m': SigSet, index: int, trace: seq<Event>, last: int)
    requires Complete(t) && InOrder(t, m, m', index, trace) && index <= last
    ensures InOrder(t, m, m', last, trace)
  {
  }

  lemma NoneInOrder(t: Table, m: SigSet, m': SigSet, index: int)
    requires Complete(t)
    ensures InOrder(t, m, m', index, [])
  {
  }

  /** Pending signals that have not been delivered keep their masks. */
  lemma StillIndependent(t: Table, t': Table, m: SigSet, trace: seq<Event>, s: int)
    requires Delivered(t, t', m, trace) && Independent(t) && s in Pending(t')
    ensures IsSignal(s) && Pending(t'[s := t'[s].(count := 0)]) !! t'[s].mask
  {
    PendingFalls(t, t', m, trace);
    var t1 := t'[s := t'[s].(count := 0)];
    forall u | u in Pending(t1) ensures u !in t'[s].mask {
      assert u in Pending(t');
    }
  }

  /** The handler mask of this pending signal has no other pending signal in it. */
  ghost predicate ReleasedAlone(t: Table, s: int)
    requires Complete(t) && IsSignal(s)
  {
    Pending(t[s := t[s].(count := 0)]) !! t[s].mask
  }

  lemma DeliveredSizes(t: Table, t': Table, m: SigSet, trace: seq<Event>)
    requires Delivered(t, t', m, trace)
    ensures Complete(t) && Complete(t')
  {
  }

  lemma ReleasedInOrder(t: Table, t': Table, m: SigSet, m': SigSet, index: int, trace: seq<Event>, trace': seq<Event>)
    requires Delivered(t, t', m', trace) && InOrder(t, m, m', index, trace) && ReleasedBelow(t, m, m', index, trace)
    requires IsSignal(index) && index in m && index !in m' && t'[index].count > 0
    requires trace <= trace' && |trace'| > |trace| && trace'[|trace|].signal == index
    requires ReleasedAlone(t', index) ==> |trace'| == |trace| + 1
    ensures InOrder(t, m, m', index + 1, trace')
  {
    hide Delivered, InOrder, Independent, Released, ReleasedBelow, Pending;
    DeliveredSizes(t, t', m', trace);
    PendingFalls(t, t', m', trace);
    PendingIff(t', index);
    if Independent(t) {
      StillIndependent(t, t', m', trace, index);
    }
    OneMoreInOrder(t, t', m, m', index, trace, trace'[|trace|..]);
    assert trace + trace'[|trace|..] == trace';
  }

  lemma LogGrows(log: seq<Event>, a: seq<Event>, b: seq<Event>)
    requires a <= b
    ensures log + a + b[|a|..] == log + b
  {
  }

  class Process {
    var table: Table
    var mask: SigSet
    var exited: bool
    var log: seq<Event>

    ghost predicate Valid()
      reads `table, `exited
    {
      Complete(table) && !exited
    }

    /** Only masked signals are pending. */
    ghost predicate Quiet()
      reads `table, `mask
    {
      forall s :: s in Pending(table) ==> s in mask
    }

    constructor ()
      ensures Valid() && Quiet() && mask == {} && log == []
    {
      table := seq(NSIG, i => Info(Default, 0, {}, false, false));
      mask := {};
      exited := false;
      log := [];
    }

    /** The signal s has been delivered now, and after it some that were pending. */
    twostate predicate Handled(s: int, trace: seq<Event>)
      requires IsSignal(s) && Complete(old(table))
      reads `table, `mask, `log
    {
      && mask == old(mask) && log == old(log) + trace
      && Delivered(old(table), table, mask, trace)
      && s in SignalsOf(trace) && trace != [] && trace[0].signal == s
      && SignalsOf(trace) <= {s} + Pending(old(table))
    }

    /** raise; false stands for the error EINVAL. Unless it is masked, s itself must not be pending. */
    method Raise(s: int) returns (ok: bool, ghost trace: seq<Event>)
      requires Valid() && (IsSignal(s) && s !in mask ==> table[s].count == 0)
      modifies this
      ensures ok <==> IsSignal(s)
      ensures !ok || s in old(mask) ==>
        mask == old(mask) && exited == old(exited) && log == old(log) && trace == [] &&
        table == if ok then old(table)[s := old(table)[s].(count := old(table)[s].count + 1)] else old(table)
      ensures ok && s !in old(mask) ==> Complete(table) && Handled(s, trace) && EndsProperly(trace, exited)
      ensures ok && s !in old(mask) && old(Pending(table)) !! old(table)[s].mask ==> |trace| == 1
      decreases |Pending(table)|, 6
    {
      trace := [];
      if !IsSignal(s) {
        return false, trace;
      }
      ok := true;
      if s in mask {
        table := table[s := table[s].(count := table[s].count + 1)];
        return;
      }
      trace := Deliver(s);
    }

    /** The part of raise for a signal that is not masked. */
    method Deliver(s: int) returns (ghost trace: seq<Event>)
      requires Valid() && IsSignal(s) && s !in mask && table[s].count == 0
      modifies this
      ensures Complete(table) && Handled(s, trace) && EndsProperly(trace, exited)
      ensures old(Pending(table)) !! old(table)[s].mask ==> |trace| == 1
      decreases |Pending(table)|, 5
    {
      hide Delivered;
      DeliveredOne(table, s, mask);
      var i := table[s];
      ghost var t0, e := table, Delivery(i, s, mask);
      trace := [e];
      match i.handler
      case Default =>
        log := log + [Delivery(i, s, mask)];
        assert t0[s := Spent(i)] == t0;
        if DefaultExits(s) {
          exited := true;
        }
      case Ignore =>
        log := log + [Delivery(i, s, mask)];
        assert t0[s := Spent(i)] == t0;
      case Call(id) =>
        trace := RunHandler(s, id);
    }

    /** Delivery to a handler: the handler runs with its signals masked, and then the old mask is put back. */
    method RunHandler(s: int, id: int) returns (ghost trace: seq<Event>)
      requires Valid() && IsSignal(s) && s !in mask && table[s].count == 0 && table[s].handler == Call(id)
      modifies this
      ensures Complete(table) && Handled(s, trace) && EndsProperly(trace, exited)
      ensures old(Pending(table)) !! old(table)[s].mask ==> |trace| == 1
      decreases |Pending(table)|, 4
    {
      ghost var t0 := table;
      var e := Delivery(table[s], s, mask);
      assert EndsProperly([e], false);
      hide Delivered, Pending, EndsProperly;
      DeliveredOne(t0, s, mask);
      var i := table[s];
      if i.resetHand {
        table := table[s := i.(handler := Default)];
      }
      assert table == t0[s := Spent(i)];
      trace := [e];
      PendingFalls(t0, table, mask, trace);
      if s == SIGCHLD && i.noCldStop {
        log := log + [e];
      } else {
        trace := CallHandler(s, id, t0);
      }
    }

    /** Calls the handler under its mask. */
    method CallHandler(s: int, id: int, ghost t0: Table) returns (ghost trace: seq<Event>)
      requires Valid() && IsSignal(s) && s !in mask && s !in Pending(table)
      requires Complete(t0) && Delivery(t0[s], s, mask) == Event(s, Called(id), mask + table[s].mask + {s})
      requires Delivered(t0, table, mask, [Delivery(t0[s], s, mask)]) && Pending(table) <= Pending(t0)
      modifies this
      ensures Complete(table) && mask == old(mask) && log == old(log) + trace && Delivered(t0, table, mask, trace)
      ensures trace != [] && trace[0].signal == s && SignalsOf(trace) <= {s} + Pending(t0)
      ensures EndsProperly(trace, exited)
      ensures Pending(t0) !! old(table)[s].mask ==> |trace| == 1
      decreases |Pending(table)|, 3
    {
      hide Delivered, Pending;
      var original := mask;
      var maskNew := table[s].mask + {s};
      ghost var t1, e := table, Event(s, Called(id), mask + maskNew);
      NoneReleased(table, mask, mask + maskNew);
      var status, maskOld;
      ghost var rest;
      status, maskOld, rest := Sigprocmask(SIG_BLOCK, Some(maskNew));
      NothingDelivered(t1, table, mask);
      log := log + [Event(s, Called(id), mask)];
      NoneFreed(table, t0, s, original);
      status, maskOld, rest := Sigprocmask(SIG_SETMASK, Some(original));
      trace := [e] + rest;
      assert SignalsOf([e]) == {s} by { assert [e][0].signal == s; }
      DeliveredTwice(t0, t1, table, original, [e], rest);
      SignalsOfSum([e], rest);
      EndsOfSum([e], rest, exited);
    }

    /** sigprocmask: changes the mask and delivers what is no longer masked; status -1 stands for EINVAL. */
    method Sigprocmask(how: int, set_: Option<SigSet>) returns (status: int, maskOld: SigSet, ghost trace: seq<Event>)
      requires Valid()
      modifies this
      ensures maskOld == old(mask) && status == if KnownHow(how, set_) then 0 else -1
      ensures status != 0 ==>
        table == old(table) && mask == old(mask) && exited == old(exited) && log == old(log) && trace == []
      ensures status == 0 ==>
        && Complete(table) && mask == NewMask(how, set_, old(mask)) && log == old(log) + trace
        && Delivered(old(table), table, mask, trace) && SignalsOf(trace) <= Pending(old(table))
        && (!exited ==> Released(old(table), old(mask), mask) <= SignalsOf(trace))
      ensures EndsProperly(trace, exited)
      ensures status == 0 && Released(old(table), old(mask), NewMask(how, set_, old(mask))) == {} ==> trace == []
      ensures status == 0 ==> InOrder(old(table), old(mask), mask, NSIG, trace)
      ensures set_.None? ==> mask == old(mask)
      ensures set_.Some? && how == SIG_SETMASK ==> mask == set_.value
      ensures set_.Some? && how == SIG_BLOCK ==>
        set_.value <= mask && forall s :: s !in set_.value ==> (s in mask <==> s in old(mask))
      ensures set_.Some? && how == SIG_UNBLOCK ==>
        set_.value !! mask && forall s :: s !in set_.value ==> (s in mask <==> s in old(mask))
      decreases |Pending(table)|, 2
    {
      hide Delivered, Pending;
      maskOld := mask;
      trace := [];
      if !KnownHow(how, set_) {
        return -1, maskOld, trace;
      }
      status := 0;
      mask := NewMask(how, set_, mask);
      trace := ReleaseAll(maskOld);
    }

    /** What the loop of sigprocmask has done for the signals below index. */
    ghost predicate ReleasedSoFar(t0: Table, maskOld: SigSet, m: SigSet, index: int, trace: seq<Event>)
      reads `table, `mask, `exited
    {
      && Complete(table) && Complete(t0) && mask == m
      && Delivered(t0, table, m, trace) && SignalsOf(trace) <= Pending(t0)
      && ReleasedBelow(t0, maskOld, m, index, trace) && EndsProperly(trace, exited)
      && InOrder(t0, maskOld, m, index, trace)
    }

    /** One round of that loop. */
    method ReleaseNext(index: int, maskOld: SigSet, ghost t0: Table, ghost trace0: seq<Event>)
      returns (ghost trace: seq<Event>)
      requires IsSignal(index) && !exited && ReleasedSoFar(t0, maskOld, mask, index, trace0)
      modifies this
      ensures trace0 <= trace && log == old(log) + trace[|trace0|..]
      ensures ReleasedSoFar(t0, maskOld, old(mask), index + 1, trace)
      decreases |Pending(t0)|, 1, 0
    {
      hide Delivered, Pending, EndsProperly, ReleasedBelow, SignalsOf, Released, InOrder, Independent;
      ghost var t1 := table;
      trace := trace0;
      PendingFalls(t0, table, mask, trace);
      PendingIff(table, index);
      if index !in mask && index in maskOld && table[index].count > 0 {
        FewerPending(Pending(table), Pending(t0));
        trace := ReleaseOne(index, t0, trace);
        ReleasedInOrder(t0, t1, maskOld, mask, index, trace0, trace);
      } else {
        InOrderFurther(t0, maskOld, mask, index, trace, index + 1);
      }
      OneMoreBelow(t0, t1, maskOld, mask, index, trace0, trace);
    }

    /** The loop of sigprocmask that delivers what is no longer masked. */
    method ReleaseAll(maskOld: SigSet) returns (ghost trace: seq<Event>)
      requires Valid()
      modifies this
      ensures Complete(table) && mask == old(mask) && log == old(log) + trace
      ensures Delivered(old(table), table, mask, trace) && SignalsOf(trace) <= Pending(old(table))
      ensures !exited ==> Released(old(table), maskOld, mask) <= SignalsOf(trace)
      ensures EndsProperly(trace, exited)
      ensures Released(old(table), maskOld, old(mask)) == {} ==> trace == []
      ensures InOrder(old(table), maskOld, mask, NSIG, trace)
      decreases |Pending(table)|, 1, 1
    {
      assert EndsProperly([], false);
      hide Delivered, Pending, EndsProperly, ReleasedBelow, SignalsOf, Released, InOrder, Independent;
      ghost var t0, m, log0 := table, mask, log;
      DeliveredNone(table, mask);
      NoneBelow(t0, maskOld, m);
      NoneInOrder(t0, maskOld, m, 1);
      trace := [];
      var index := 1;
      while index < NSIG
        invariant 1 <= index <= NSIG && !exited && log == log0 + trace && ReleasedSoFar(t0, maskOld, m, index, trace)
      {
        ghost var trace1 := trace;
        trace := ReleaseNext(index, maskOld, t0, trace);
        LogGrows(log0, trace1, trace);
        if exited {
          SomeReleased(t0, maskOld, m, index + 1, trace);
          InOrderFurther(t0, maskOld, m, index + 1, trace, NSIG);
          return;
        }
        index := index + 1;
      }
      AllBelow(t0, maskOld, m, trace);
      SomeReleased(t0, maskOld, m, NSIG, trace);
    }

    /** Delivers one pending signal, and what its delivery sets free. */
    method ReleaseOne(index: int, ghost t0: Table, ghost trace0: seq<Event>) returns (ghost trace: seq<Event>)
      requires Valid() && IsSignal(index) && index !in mask && table[index].count > 0
      requires Delivered(t0, table, mask, trace0) && SignalsOf(trace0) <= Pending(t0) && EndsProperly(trace0, false)
      modifies this
      ensures trace0 <= trace && log == old(log) + trace[|trace0|..]
      ensures Complete(table) && mask == old(mask) && Delivered(t0, table, mask, trace)
      ensures SignalsOf(trace0) + {index} <= SignalsOf(trace) <= Pending(t0)
      ensures EndsProperly(trace, exited)
      ensures |trace| > |trace0| && trace[|trace0|].signal == index
      ensures ReleasedAlone(old(table), index) ==> |trace| == |trace0| + 1
      decreases |Pending(table)|, 0
    {
      hide Delivered, Pending;
      ghost var t1, m := table, mask;
      PendingFalls(t0, t1, m, trace0);
      table := table[index := table[index].(count := 0)];
      ClearedNotPending(t1, index);
      var ok;
      ghost var more;
      ok, more := Raise(index);
      trace := trace0 + more;
      CountIrrelevant(t1, table, index, m, more);
      DeliveredTwice(t0, t1, table, m, trace0, more);
      SignalsOfSum(trace0, more);
      EndsOfSum(trace0, more, exited);
    }

    /** sigaction. The previous settings are returned if the number is that of a signal. */
    method Sigaction(s: int, action: Option<Info>) returns (ok: bool, before: Option<Info>)
      requires Valid()
      modifies `table
      ensures Valid() && ok == IsSignal(s) && (old(Quiet()) ==> Quiet())
      ensures ok ==> before == Some(old(table)[s])
      ensures table ==
        if ok && action.Some? then old(table)[s := action.value.(count := 0)] else old(table)
      ensures Pending(table) == if ok && action.Some? then old(Pending(table)) - {s} else old(Pending(table))
    {
      if IsSignal(s) {
        before := Some(table[s]);
        if action.Some? {
          table := table[s := action.value.(count := 0)];
        }
        return true, before;
      }
      return false, None;
    }

    /** signal. None stands for SIG_ERR. */
    method Signal(s: int, handler: Handler) returns (before: Option<Handler>)
      requires Valid()
      modifies `table
      ensures Valid() && (before.Some? <==> IsSignal(s)) && (old(Quiet()) ==> Quiet())
      ensures before.Some? ==> before.value == old(table)[s].handler
      ensures table == if IsSignal(s) then old(table)[s := Info(handler, 0, {}, false, false)] else old(table)
      ensures Pending(table) == if IsSignal(s) then old(Pending(table)) - {s} else old(Pending(table))
    {
      if !IsSignal(s) {
        return None;
      }
      before := Some(table[s].handler);
      table := table[s := Info(handler, 0, {}, false, false)];
    }

    /** sigpending. */
    method Sigpending() returns (pending: SigSet)
      requires Valid()
      ensures pending == Pending(table)
      ensures Quiet() ==> pending <= mask
    {
      pending := {};
      var index := 1;
      while index < NSIG
        invariant 1 <= index <= NSIG
        invariant forall s :: s in pending <==> s in Pending(table) && s < index
      {
        PendingIff(table, index);
        if table[index].count > 0 {
          pending := pending + {index};
        }
        index := index + 1;
      }
      PendingAreSignals(table);
    }

    /** What a signal with settings i does when it is delivered while the mask is m. */
    static ghost function Taken(i: Info, s: int, m: SigSet): Event {
      if i.handler == Default then
        Event(s, if s in {SIGABRT, SIGFPE, SIGILL, SIGINT, SIGSEGV, SIGTERM} then Exits else Ignored, m)
      else if i.handler == Ignore || (s == SIGCHLD && i.noCldStop) then Event(s, Ignored, m)
      else Event(s, Called(i.handler.id), m + i.mask + {s})
    }

    /** The delivery of s leaves everything as it was, but for a handler that is to be used only once. */
    static ghost predicate LeftBy(t: Table, t': Table, s: int)
      requires Complete(t) && Complete(t') && IsSignal(s)
    {
      && (forall k :: 0 <= k < NSIG && k != s ==> t'[k] == t[k])
      && t'[s].count == 0 && t'[s].mask == t[s].mask
      && t'[s].noCldStop == t[s].noCldStop && t'[s].resetHand == t[s].resetHand
      && (t[s].handler.Call? && t[s].resetHand ==> t'[s].handler == Default)
      && (!t[s].handler.Call? || !t[s].resetHand ==> t'[s].handler == t[s].handler)
    }

    lemma OneDelivered(t: Table, t': Table, s: int, m: SigSet, trace: seq<Event>)
      requires Complete(t) && IsSignal(s) && Delivered(t, t', m, trace) && |trace| == 1 && SignalsOf(trace) == {s}
      ensures trace == [Taken(t[s], s, m)] && Complete(t') && LeftBy(t, t', s)
    {
      assert trace[0].signal in SignalsOf(trace);
      assert trace == [Delivery(t[s], s, m)];
      forall k | 0 <= k < NSIG && k != s ensures t'[k] == t[k] {
        assert k !in SignalsOf(trace);
      }
    }

    /**
     * Two signals of the same number with a handler: it is called for both, unless it is to be used only once, when
     * the second one finds the default action.
     */
    method RaiseTwice(s: int, ghost id: int)
      requires Valid() && Quiet() && IsSignal(s) && s !in mask && table[s].handler == Call(id)
      requires !(s == SIGCHLD && table[s].noCldStop)
      modifies this
      ensures mask == old(mask) && Complete(table)
      ensures var call := Event(s, Called(id), mask + old(table)[s].mask + {s});
        if !old(table)[s].resetHand then log == old(log) + [call, call] && !exited
        else if s in {SIGABRT, SIGFPE, SIGILL, SIGINT, SIGSEGV, SIGTERM}
        then log == old(log) + [call, Event(s, Exits, mask)] && exited
        else log == old(log) + [call, Event(s, Ignored, mask)] && !exited
    {
      var ok;
      ghost var first, second;
      ok, first := RaiseAtRest(s);
      assert !exited by {
        assert first[0].action != Exits;
      }
      ok, second := RaiseAtRest(s);
      assert first + second == [first[0], second[0]];
    }

    /** signal makes a handler that stays, so that two signals call it twice. */
    method SignalAndRaise(s: int, id: int) returns (before: Option<Handler>)
      requires Valid() && Quiet() && IsSignal(s) && s !in mask
      modifies this
      ensures before == Some(old(table)[s].handler) && mask == old(mask) && Complete(table) && !exited
      ensures var call := Event(s, Called(id), mask + {s}); log == old(log) + [call, call]
    {
      before := Signal(s, Call(id));
      assert mask + table[s].mask + {s} == mask + {s};
      RaiseTwice(s, id);
    }

    /** However often a signal is raised while it is blocked, it is delivered once when it is set free. */
    method BlockRaiseUnblock(s: int, times: nat) returns (pending: SigSet)
      requires Valid() && Quiet() && IsSignal(s) && s !in mask
      modifies this
      ensures mask == old(mask) && pending == old(Pending(table)) + if times > 0 then {s} else {}
      ensures Complete(table) && forall k :: 0 <= k < NSIG && k != s ==> table[k] == old(table)[k]
      ensures if times == 0 then log == old(log) && table == old(table)
        else log == old(log) + [Taken(old(table)[s], s, mask)] && LeftBy(old(table), table, s)
    {
      ghost var t0, m0, log0 := table, mask, log;
      var status, maskOld;
      ghost var trace;
      status, maskOld, trace := SigprocmaskAtRest(SIG_BLOCK, Some({s}));
      NoSignals(t0, table, mask, trace);
      var k := 0;
      while k < times
        invariant 0 <= k <= times && Valid() && Quiet() && mask == m0 + {s} && log == log0
        invariant table == t0[s := t0[s].(count := t0[s].count + k)]
      {
        var ok;
        ok, trace := RaiseAtRest(s);
        k := k + 1;
      }
      pending := Sigpending();
      PendingMore(t0, s, times);
      ghost var t1 := table;
      status, maskOld, trace := SigprocmaskAtRest(SIG_UNBLOCK, Some({s}));
      assert mask == m0;
      NotPending(t0, s);
      if times == 0 {
        NoSignals(t1, table, mask, trace);
      } else {
        SomeSignals(trace);
        AtMostOne(t1, table, s, mask, trace);
        OneDelivered(t1, table, s, mask, trace);
      }
    }

    /**
     * raise from outside a handler. Between calls only masked signals are pending, so that a masked
     * signal becomes pending, and any other one is delivered alone.
     */
    method RaiseAtRest(s: int) returns (ok: bool, ghost trace: seq<Event>)
      requires Valid() && Quiet()
      modifies this
      ensures ok <==> IsSignal(s)
      ensures EndsProperly(trace, exited) && log == old(log) + trace && mask == old(mask)
      ensures !exited ==> Valid() && Quiet()
      ensures ok && s in mask ==> trace == [] && Pending(table) == old(Pending(table)) + {s}
      ensures ok && s in mask ==> table == old(table)[s := old(table)[s].(count := old(table)[s].count + 1)]
      ensures ok && s !in mask ==> |trace| == 1 && SignalsOf(trace) == {s} && Delivered(old(table), table, mask, trace)
      ensures ok && s !in mask ==> trace == [Taken(old(table)[s], s, mask)] && LeftBy(old(table), table, s)
    {
      if IsSignal(s) {
        PendingIff(table, s);
      }
      ghost var t0 := table;
      ok, trace := Raise(s);
      assert |trace| > 1 ==> trace[1].signal in SignalsOf(trace);
      if ok && s !in mask {
        OneDelivered(t0, table, s, mask, trace);
      }
    }

    /**
     * sigprocmask from outside a handler: exactly the pending signals that the new mask frees are
     * delivered, each of them once, and again only masked signals are pending.
     */
    method SigprocmaskAtRest(how: int, set_: Option<SigSet>)
      returns (status: int, maskOld: SigSet, ghost trace: seq<Event>)
      requires Valid() && Quiet()
      modifies this
      ensures status == (if KnownHow(how, set_) then 0 else -1) && maskOld == old(mask)
      ensures log == old(log) + trace && EndsProperly(trace, exited)
      ensures !exited ==> Valid() && Quiet()
      ensures status == 0 ==>
        && mask == NewMask(how, set_, old(mask)) && Delivered(old(table), table, mask, trace)
        && SignalsOf(trace) <= old(Pending(table)) - mask
      ensures status == 0 && !exited ==>
        SignalsOf(trace) == old(Pending(table)) - mask && Pending(table) == old(Pending(table)) * mask
      ensures status == 0 ==> InOrder(old(table), old(mask), mask, NSIG, trace)
      ensures set_.None? ==> mask == old(mask)
      ensures set_.Some? && how == SIG_SETMASK ==> mask == set_.value
      ensures set_.Some? && how == SIG_BLOCK ==>
        set_.value <= mask && forall s :: s !in set_.value ==> (s in mask <==> s in old(mask))
      ensures set_.Some? && how == SIG_UNBLOCK ==>
        set_.value !! mask && forall s :: s !in set_.value ==> (s in mask <==> s in old(mask))
    {
      hide Delivered;
      ghost var t0 := table;
      status, maskOld, trace := Sigprocmask(how, set_);
      if status == 0 {
        PendingFalls(t0, table, mask, trace);
        NotMasked(t0, table, mask, trace);
      }
    }
  }

  lemma NoSignals(t: Table, t': Table, m: SigSet, trace: seq<Event>)
    requires Delivered(t, t', m, trace) && SignalsOf(trace) == {}
    ensures trace == [] && t' == t
  {
    SomeSignals(trace);
  }

  lemma SomeSignals(trace: seq<Event>)
    ensures trace != [] ==> SignalsOf(trace) != {}
  {
    if trace != [] {
      assert trace[0].signal in SignalsOf(trace);
    }
  }

  lemma AtMostOne(t: Table, t': Table, s: int, m: SigSet, trace: seq<Event>)
    requires Delivered(t, t', m, trace) && SignalsOf(trace) <= {s} && trace != []
    ensures |trace| == 1 && SignalsOf(trace) == {s}
  {
    SignalAt(trace, 0);
    if |trace| > 1 {
      SignalAt(trace, 1);
    }
  }

  lemma SignalAt(trace: seq<Event>, i: nat)
    requires i < |trace|
    ensures trace[i].signal in SignalsOf(trace)
  {
  }

  lemma NotPending(t: Table, s: int)
    requires Complete(t) && IsSignal(s)
    ensures s !in Pending(t) ==> t[s].count == 0
  {
  }

  lemma PendingMore(t: Table, s: int, times: nat)
    requires Complete(t) && IsSignal(s)
    ensures Pending(t[s := t[s].(count := t[s].count + times)]) == Pending(t) + if times > 0 then {s} else {}
  {
  }

  lemma NotMasked(t: Table, t': Table, m: SigSet, trace: seq<Event>)
    requires Delivered(t, t', m, trace)
    ensures SignalsOf(trace) !! m
  {
  }
}
