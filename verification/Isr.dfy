/**
  The interrupt and event dispatcher (Sources/fnet_stack/stack/fnet_isr.c): a lock depth, a table of handlers
  with pended flags, and handlers that lock, unlock, raise events and are interrupted themselves.
  A ghost log records every raise and every start of a handler.
 */
module Isr {
  import opened Words

  /** What code does with the dispatcher, and the interrupts that hit it meanwhile. */
  datatype Action = Lock | Unlock | Raise(vector: int) | Interrupt(vector: int)

  /** A table entry: its vector and the hardware priority. */
  datatype Entry = Entry(vector: int, priority: nat)

  /**
    What the bottom half of an entry does at a start, and the interrupts that hit it meanwhile; it may
    differ from start to start, which are numbered for all handlers together.
   */
  type Script = (nat, nat) -> seq<Action>

  datatype Event = Raised(i: nat) | Started(i: nat, depth: nat)

  // ----- the log

  /** The last event of entry `i` is a raise: a start is owed to it. */
  ghost predicate Owed(log: seq<Event>, i: nat) {
    if log == [] then false
    else
      var e := log[|log| - 1];
      if e.i == i then e.Raised? else Owed(log[..|log| - 1], i)
  }

  /** Handlers start only when a start is owed to them, at lock depth 0 or 1. */
  ghost predicate Sound(log: seq<Event>) {
    forall k :: 0 <= k < |log| && log[k].Started? ==> log[k].depth <= 1 && Owed(log[..k], log[k].i)
  }

  lemma OwedGrow(log: seq<Event>, e: Event)
    ensures forall i: nat :: Owed(log + [e], i) <==> if e.i == i then e.Raised? else Owed(log, i)
  {
    assert (log + [e])[..|log|] == log;
  }

  lemma SoundGrow(log: seq<Event>, e: Event)
    requires Sound(log) && (e.Started? ==> e.depth <= 1 && Owed(log, e.i))
    ensures Sound(log + [e])
  {
    var more := log + [e];
    forall k | 0 <= k < |more| && more[k].Started? ensures more[k].depth <= 1 && Owed(more[..k], more[k].i) {
      assert more[..k] == log[..k];
      assert log[..|log|] == log;
    }
  }

  /** No event is lost: a raise is followed by a start of its handler, or a start is still owed. */
  lemma {:induction false} NoneLost(log: seq<Event>, k: nat, i: nat)
    requires k < |log| && log[k] == Raised(i)
    ensures Owed(log, i) || exists m :: k < m < |log| && log[m].Started? && log[m].i == i
    decreases |log|
  {
    var n := |log| - 1;
    if log[n].i != i {
      NoneLost(log[..n], k, i);
      if !Owed(log, i) {
        var m :| k < m < n && log[..n][m].Started? && log[..n][m].i == i;
        assert log[m].Started? && log[m].i == i;
      }
    }
  }

  /** Where in the log an entry is raised, and where its handler starts. */
  ghost function RaisesOf(log: seq<Event>, i: nat): set<nat> {
    set k: nat | k < |log| && log[k] == Raised(i)
  }

  ghost function StartsOf(log: seq<Event>, i: nat): set<nat> {
    set k: nat | k < |log| && log[k].Started? && log[k].i == i
  }

  lemma SetsGrow(log: seq<Event>, i: nat)
    requires log != []
    ensures var n := |log| - 1;
            && n !in RaisesOf(log[..n], i) && n !in StartsOf(log[..n], i)
            && RaisesOf(log, i) == RaisesOf(log[..n], i) + (if log[n] == Raised(i) then {n} else {})
            && StartsOf(log, i) == StartsOf(log[..n], i) + (if log[n].Started? && log[n].i == i then {n} else {})
  {}

  /** No handler starts more often than it was raised, and one that is owed a start has been raised once more. */
  lemma {:induction false} StartsBounded(log: seq<Event>, i: nat)
    requires Sound(log)
    ensures |StartsOf(log, i)| + (if Owed(log, i) then 1 else 0) <= |RaisesOf(log, i)|
  {
    hide RaisesOf, StartsOf;
    if log != [] {
      var n := |log| - 1;
      assert forall k :: 0 <= k < n ==> log[..n][..k] == log[..k];
      StartsBounded(log[..n], i);
      SetsGrow(log, i);
    } else {
      NothingRaised(i);
    }
  }

  lemma NothingRaised(i: nat)
    ensures RaisesOf([], i) == {} == StartsOf([], i)
  {}

  // ----- the table

  /** Nested locks and unlocks that never undo a lock from outside, from depth `n` back to zero. */
  ghost predicate Nested(body: seq<Action>, n: nat)
    decreases |body|
  {
    n < WORD - 4 &&
    if body == [] then n == 0
    else match body[0]
      case Lock => Nested(body[1..], n + 1)
      case Unlock => n > 0 && Nested(body[1..], n - 1)
      case _ => Nested(body[1..], n)
  }

  function IndexOf(entries: seq<Entry>, vector: int): (i: nat)
    ensures i <= |entries| && (i < |entries| ==> entries[i].vector == vector)
    ensures forall j :: 0 <= j < i ==> entries[j].vector != vector
  {
    if entries == [] || entries[0].vector == vector then 0 else 1 + IndexOf(entries[1..], vector)
  }

  /** What a handler at lock depth 1 logs: nothing starts, every raise and every interrupt let through is pended. */
  function Pends(entries: seq<Entry>, body: seq<Action>, level: nat): (r: seq<Event>)
    ensures forall k :: 0 <= k < |r| ==> r[k].Raised?
  {
    if body == [] then []
    else PendsOne(entries, body[0], level) + Pends(entries, body[1..], level)
  }

  function PendsOne(entries: seq<Entry>, a: Action, level: nat): seq<Event> {
    match a
    case Raise(v) => if IndexOf(entries, v) < |entries| then [Raised(IndexOf(entries, v))] else []
    case Interrupt(v) =>
      var i := IndexOf(entries, v);
      if i < |entries| && entries[i].priority > level then [Raised(i)] else []
    case _ => []
  }

  lemma PendsStep(entries: seq<Entry>, body: seq<Action>, level: nat)
    ensures body == [] ==> Pends(entries, body, level) == []
    ensures body != [] ==>
              && Pends(entries, body, level) == PendsOne(entries, body[0], level) + Pends(entries, body[1..], level)
              && (body[0].Lock? || body[0].Unlock? ==> PendsOne(entries, body[0], level) == [])
  {}

  lemma NestedStep(body: seq<Action>, n: nat)
    requires Nested(body, n)
    ensures n < WORD - 4 && (body == [] ==> n == 0)
    ensures body != [] ==> match body[0]
                           case Lock => Nested(body[1..], n + 1)
                           case Unlock => n > 0 && Nested(body[1..], n - 1)
                           case _ => Nested(body[1..], n)
  {}

  // ----- the pass of an unlock, before it is made

  /** What a pass starts from: the table, what handlers do, the level, the flags and the number of starts. */
  datatype Pass = Pass(entries: seq<Entry>, script: Script, level: nat, flags: seq<bool>, starts: nat)

  /** Entry `j` is pended already, or a handler above it in the table will start and raise it. */
  ghost predicate WillStart(p: Pass, j: nat)
    decreases j, 0
  {
    j < |p.flags| && (p.flags[j] || exists k: nat :: k < j && WillStart(p, k) && WillRaise(p, k, j))
  }

  /** The handlers above entry `j` that will start. */
  ghost function StartsBelow(p: Pass, j: nat): nat
    decreases j, 0
  {
    if j == 0 then 0 else StartsBelow(p, j - 1) + if WillStart(p, j - 1) then 1 else 0
  }

  /** What handler `k` does in the pass raises entry `i`, or lets an interrupt of it through. */
  ghost predicate WillRaise(p: Pass, k: nat, i: nat)
    decreases k, 1
  {
    Raised(i) in Pends(p.entries, p.script(k, p.starts + StartsBelow(p, k)), p.level)
  }

  /** A handler at entry `i` or below it will start and raise entry `i`. */
  ghost predicate WillStay(p: Pass, i: nat) {
    exists j: nat :: i <= j < |p.flags| && WillStart(p, j) && WillRaise(p, j, i)
  }

  /** The flag of entry `i` when the pass has visited `j` entries. */
  ghost predicate FlagAt(p: Pass, j: nat, i: nat) {
    (i >= j && i < |p.flags| && p.flags[i]) || exists k: nat :: (i < j ==> i <= k) && k < j && WillStart(p, k) && WillRaise(p, k, i)
  }

  lemma FlagHere(p: Pass, j: nat)
    requires j < |p.flags|
    ensures FlagAt(p, j, j) <==> WillStart(p, j)
  {}

  lemma FlagStart(p: Pass, i: nat)
    requires i < |p.flags|
    ensures FlagAt(p, 0, i) <==> p.flags[i]
  {}

  lemma FlagEnd(p: Pass, i: nat)
    requires i < |p.flags|
    ensures FlagAt(p, |p.flags|, i) <==> WillStay(p, i)
  {
    hide WillStart, WillRaise;
  }

  lemma FlagStep(p: Pass, j: nat, i: nat)
    requires j < |p.flags| && i < |p.flags|
    ensures FlagAt(p, j + 1, i) <==> (i != j && FlagAt(p, j, i)) || (WillStart(p, j) && WillRaise(p, j, i))
  {
    hide WillStart, WillRaise;
  }

  /** Nothing stays pended when handlers raise only entries further down the table. */
  lemma ForwardClears(p: Pass, i: nat)
    requires forall j: nat, n: nat, e :: e in Pends(p.entries, p.script(j, n), p.level) ==> e.i > j
    ensures !WillStay(p, i)
  {
    forall j: nat | i <= j && WillStart(p, j) ensures !WillRaise(p, j, i) {
      var n := p.starts + StartsBelow(p, j);
      assert forall e :: e in Pends(p.entries, p.script(j, n), p.level) ==> e.i > j;
    }
  }

  ghost predicate StartedSince(log: seq<Event>, from: nat, i: nat) {
    exists k :: from <= k < |log| && log[k] == Started(i, 1)
  }

  lemma StartedGrow(log: seq<Event>, more: seq<Event>, from: nat, i: nat)
    requires StartedSince(log, from, i) && log <= more
    ensures StartedSince(more, from, i)
  {
    var k :| from <= k < |log| && log[k] == Started(i, 1);
    assert more[k] == log[k];
  }

  lemma {:induction false} OwedJoin(log: seq<Event>, pends: seq<Event>, i: nat)
    requires forall k :: 0 <= k < |pends| ==> pends[k].Raised?
    ensures Owed(log + pends, i) <==> Owed(log, i) || Raised(i) in pends
  {
    if pends == [] {
      assert log + pends == log;
    } else {
      var n := |pends| - 1;
      assert pends == pends[..n] + [pends[n]];
      assert log + pends == (log + pends[..n]) + [pends[n]];
      OwedGrow(log + pends[..n], pends[n]);
      OwedJoin(log, pends[..n], i);
    }
  }

  /** Handler `j` starts in the pass: its flag is what it raises itself, and it raises others. */
  lemma PassStep(before: seq<Event>, p: Pass, j: nat, i: nat)
    requires j < |p.flags| && i < |p.flags| && WillStart(p, j) && (Owed(before, i) <==> FlagAt(p, j, i))
    ensures var log := before + [Started(j, 1)] + Pends(p.entries, p.script(j, p.starts + StartsBelow(p, j)), p.level);
            Owed(log, i) <==> FlagAt(p, j + 1, i)
  {
    hide Owed, Pends, FlagAt, WillStart;
    OwedGrow(before, Started(j, 1));
    OwedJoin(before + [Started(j, 1)], Pends(p.entries, p.script(j, p.starts + StartsBelow(p, j)), p.level), i);
    FlagStep(p, j, i);
  }

  lemma PassStarts(before: seq<Event>, pends: seq<Event>, from: nat, j: nat, i: nat)
    requires from <= |before| && forall k :: 0 <= k < |pends| ==> pends[k].Raised?
    ensures StartedSince(before + [Started(j, 1)] + pends, from, i) <==> StartedSince(before, from, i) || i == j
  {
    var log := before + [Started(j, 1)] + pends;
    assert log[|before|] == Started(j, 1);
    if StartedSince(before, from, i) {
      StartedGrow(before, log, from, i);
    }
    forall k | |before| < k < |log| ensures log[k].Raised? {
      assert log[k] == pends[k - |before| - 1];
    }
  }

  lemma StartsMore(p: Pass, j: nat)
    ensures StartsBelow(p, 0) == 0 && StartsBelow(p, j + 1) == StartsBelow(p, j) + if WillStart(p, j) then 1 else 0
  {}

  lemma OnlyEntries(p: Pass)
    ensures forall i: nat :: WillStart(p, i) ==> i < |p.flags|
  {}

  /** What a pass logs at its first `j` entries: each start, and what the handler then raises. */
  ghost function PassLog(p: Pass, j: nat): seq<Event> {
    if j == 0 then []
    else
      PassLog(p, j - 1)
      + if WillStart(p, j - 1) then [Started(j - 1, 1)] + Pends(p.entries, p.script(j - 1, p.starts + StartsBelow(p, j - 1)), p.level)
        else []
  }

  lemma PassLogStep(p: Pass, j: nat)
    ensures PassLog(p, 0) == []
    ensures PassLog(p, j + 1)
         == PassLog(p, j)
          + if WillStart(p, j) then [Started(j, 1)] + Pends(p.entries, p.script(j, p.starts + StartsBelow(p, j)), p.level) else []
  {
    hide WillStart, Pends, StartsBelow;
  }

  // ----- whole histories

  /** The lock depth, all that was logged, and the number of starts; the flags are told from the log. */
  datatype World = World(depth: nat, log: seq<Event>, starts: nat)

  ghost function FlagsOf(entries: seq<Entry>, log: seq<Event>): seq<bool> {
    seq(|entries|, i requires 0 <= i < |entries| => Owed(log, i))
  }

  /** The pass that an unlock would make after a history. */
  ghost function PassOf(entries: seq<Entry>, script: Script, log: seq<Event>, starts: nat, level: nat): Pass {
    Pass(entries, script, level, FlagsOf(entries, log), starts)
  }

  /** A pass over the whole table. */
  ghost function Passed(entries: seq<Entry>, script: Script, w: World, level: nat): World {
    var p := PassOf(entries, script, w.log, w.starts, level);
    w.(log := w.log + PassLog(p, |entries|), starts := w.starts + StartsBelow(p, |entries|))
  }

  /** What one action makes of the world, for code that runs at `level`. */
  ghost function Next(entries: seq<Entry>, script: Script, w: World, a: Action, level: nat, top: nat): World
    requires level <= top && forall j :: 0 <= j < |entries| ==> entries[j].priority <= top
    decreases top - level, 0, 0
  {
    match a
    case Lock => w.(depth := (w.depth + 1) % WORD)
    case Unlock =>
      (if w.depth == 1 then Passed(entries, script, w, level) else w).(depth := (w.depth - 1) % WORD)
    case Raise(v) =>
      var i := IndexOf(entries, v);
      if w.depth > 0 then w.(log := w.log + PendsOne(entries, a, level))
      else if i == |entries| then Passed(entries, script, w, level)
      else Passed(entries, script, Served(entries, script, w, i, level), level)
    case Interrupt(v) =>
      var i := IndexOf(entries, v);
      if w.depth > 0 || i == |entries| || entries[i].priority <= level then w.(log := w.log + PendsOne(entries, a, level))
      else
        Runs(entries, script, World(0, w.log + [Raised(i), Started(i, 0)], w.starts + 1), script(i, w.starts), entries[i].priority, top)
  }

  /** A raise served at once: its handler runs locked, so that all it raises is pended. */
  ghost function Served(entries: seq<Entry>, script: Script, w: World, i: nat, level: nat): World {
    w.(log := w.log + [Raised(i), Started(i, 1)] + Pends(entries, script(i, w.starts), level), starts := w.starts + 1)
  }

  ghost function Runs(entries: seq<Entry>, script: Script, w: World, body: seq<Action>, level: nat, top: nat): World
    requires level <= top && forall j :: 0 <= j < |entries| ==> entries[j].priority <= top
    decreases top - level, 1, |body|
  {
    if body == [] then w
    else Runs(entries, script, Next(entries, script, w, body[0], level, top), body[1..], level, top)
  }

  lemma RunsStep(entries: seq<Entry>, script: Script, w: World, body: seq<Action>, level: nat, top: nat)
    requires level <= top && forall j :: 0 <= j < |entries| ==> entries[j].priority <= top
    ensures Runs(entries, script, w, body, level, top)
         == if body == [] then w else Runs(entries, script, Next(entries, script, w, body[0], level, top), body[1..], level, top)
    ensures Next(entries, script, w, Lock, level, top) == w.(depth := (w.depth + 1) % WORD)
  {}

  /** The pass after a raise served at once, from what was before: the flags are those not served, and what the handler raises. */
  ghost function AfterServing(p: Pass, i: nat): Pass {
    p.(flags := seq(|p.flags|, j requires 0 <= j < |p.flags| => (j != i && p.flags[j]) || Raised(j) in Pends(p.entries, p.script(i, p.starts), p.level)),
       starts := p.starts + 1)
  }

  lemma ServedFlags(entries: seq<Entry>, script: Script, w: World, i: nat, level: nat)
    ensures var u := Served(entries, script, w, i, level);
            PassOf(entries, script, u.log, u.starts, level) == AfterServing(PassOf(entries, script, w.log, w.starts, level), i)
  {
    hide Owed, Pends;
    var es := Pends(entries, script(i, w.starts), level);
    assert w.log + [Raised(i), Started(i, 1)] == w.log + [Raised(i)] + [Started(i, 1)];
    OwedGrow(w.log, Raised(i));
    OwedGrow(w.log + [Raised(i)], Started(i, 1));
    forall j: nat ensures Owed(w.log + [Raised(i)] + [Started(i, 1)] + es, j) <==> (j != i && Owed(w.log, j)) || Raised(j) in es {
      OwedJoin(w.log + [Raised(i)] + [Started(i, 1)], es, j);
    }
  }

  lemma NoneSince(log: seq<Event>)
    ensures forall i :: !StartedSince(log, |log|, i)
  {}

  class Dispatcher {
    const entries: seq<Entry>
    const script: Script
    /** How many handlers have started. */
    var starts: nat
    /** fnet_locked, an unsigned long. */
    var locked: nat
    var pended: seq<bool>
    ghost var log: seq<Event>

    /** The flags agree with the log, except for entry `x`. */
    ghost predicate Agree(x: int)
      reads this
    {
      && locked < WORD && |pended| == |entries| && Sound(log)
      && (forall i: nat, n: nat :: Nested(script(i, n), 0))
      && (forall i :: 0 <= i < |entries| && i != x ==> (pended[i] <==> Owed(log, i)))
    }

    /** An entry is pended exactly when a start is owed to it. */
    ghost predicate Valid()
      reads this
    {
      Agree(-1)
    }

    /** What the pass of an unlock starts from. */
    ghost function Now(level: nat): Pass
      reads this
    {
      Pass(entries, script, level, pended, starts)
    }

    /** The world as it is. */
    ghost function Here(): World
      reads this
    {
      World(locked, log, starts)
    }

    /** The flags are those the log tells. */
    lemma FlagsHere(level: nat)
      requires Valid()
      ensures Now(level) == PassOf(entries, script, log, starts, level)
    {
      hide Owed, Sound, Nested;
      assert pended == FlagsOf(entries, log);
    }

    constructor (entries: seq<Entry>, script: Script)
      requires forall i: nat, n: nat :: Nested(script(i, n), 0)
      ensures Valid() && locked == 0 && log == [] && starts == 0 && this.entries == entries && this.script == script
    {
      this.entries, this.script := entries, script;
      locked, pended, starts, log := 0, seq(|entries|, _ => false), 0, [];
    }

    method FindEntry(vector: int) returns (i: nat)
      ensures i == IndexOf(entries, vector)
    {
      i := 0;
      assert entries[0..] == entries;
      while i < |entries| && entries[i].vector != vector
        invariant i <= |entries| && IndexOf(entries, vector) == i + IndexOf(entries[i..], vector)
      {
        assert entries[i..][1..] == entries[i + 1..];
        i := i + 1;
      }
    }

    /** fnet_isr_lock. */
    method DoLock()
      requires Valid()
      modifies `locked
      ensures Valid() && locked == (old(locked) + 1) % WORD
    {
      locked := (locked + 1) % WORD;
    }

    /** Logs a raise of entry `i`, and what that does to the agreement. */
    ghost method LogRaised(i: nat)
      requires Valid() && i < |entries|
      modifies `log
      ensures Agree(i) && log == old(log) + [Raised(i)] && Owed(log, i)
    {
      OwedGrow(log, Raised(i));
      SoundGrow(log, Raised(i));
      log := log + [Raised(i)];
    }

    ghost method LogStarted(i: nat)
      requires Agree(i) && i < |entries| && Owed(log, i) && locked <= 1 && !pended[i]
      modifies `log
      ensures Valid() && log == old(log) + [Started(i, locked)]
    {
      OwedGrow(log, Started(i, locked));
      SoundGrow(log, Started(i, locked));
      log := log + [Started(i, locked)];
    }

    /** A start of handler `i`, to which one is owed. */
    method Start(i: nat, level: nat, ghost top: nat)
      requires Agree(i) && i < |entries| && Owed(log, i) && locked <= 1
      requires level <= top && forall j :: 0 <= j < |entries| ==> entries[j].priority <= top
      modifies `locked, `pended, `starts, `log
      ensures Valid() && locked == old(locked)
      ensures old(log) + [Started(i, locked)] <= log
      ensures locked == 1 ==> log == old(log) + [Started(i, 1)] + Pends(entries, script(i, old(starts)), level) && starts == old(starts) + 1
      ensures Here() == Runs(entries, script, World(locked, old(log) + [Started(i, locked)], old(starts) + 1), script(i, old(starts)), level, top)
      decreases if locked == 0 then 3 else 0, top - level, 2, 0
    {
      hide Nested, Owed, Sound, Runs, Pends;
      pended := pended[i := false];
      LogStarted(i);
      var body := script(i, starts);
      starts := starts + 1;
      Run(body, level, top, 0, locked);
    }

    /** What a handler does: from nesting depth `n` above `base`, back to `base`. */
    method Run(body: seq<Action>, level: nat, ghost top: nat, ghost n: nat, ghost base: nat)
      requires Valid() && Nested(body, n) && base <= 1 && locked == base + n
      requires level <= top && forall j :: 0 <= j < |entries| ==> entries[j].priority <= top
      modifies `locked, `pended, `starts, `log
      ensures Valid() && locked == base && old(log) <= log
      ensures base == 1 ==> log == old(log) + Pends(entries, body, level) && starts == old(starts)
      ensures Here() == Runs(entries, script, old(Here()), body, level, top)
      decreases if base == 0 then 3 else 0, top - level, 1, |body|
    {
      hide Owed, Sound, Agree, Pends, PendsOne, IndexOf, Nested, Runs, Next, Passed;
      RunsStep(entries, script, Here(), body, level, top);
      PendsStep(entries, body, level);
      NestedStep(body, n);
      if body != [] {
        ghost var after := n;
        match body[0] {
          case Lock => DoLock(); after := n + 1;
          case Unlock => DoUnlock(level, top); after := n - 1;
          case Raise(v) => DoRaise(v, level, top);
          case Interrupt(v) => Handle(v, level, top);
        }
        Run(body[1..], level, top, after, base);
      }
    }

    /**
      fnet_isr_unlock: at depth 1 one pass over the table.  Which handlers start and which entries are
      pended afterwards is told from the table, the flags and what the handlers do.
     */
    method DoUnlock(level: nat, ghost top: nat)
      requires Valid()
      requires level <= top && forall j :: 0 <= j < |entries| ==> entries[j].priority <= top
      modifies `locked, `pended, `starts, `log
      ensures Valid() && locked == (old(locked) - 1) % WORD && old(log) <= log
      ensures old(locked) != 1 ==> pended == old(pended) && log == old(log) && starts == old(starts)
      ensures old(locked) == 1 ==> forall i: nat :: StartedSince(log, |old(log)|, i) <==> WillStart(old(Now(level)), i)
      ensures old(locked) == 1 ==> forall i: nat :: i < |entries| ==> (pended[i] <==> WillStay(old(Now(level)), i))
      ensures Here() == Next(entries, script, old(Here()), Unlock, level, top)
      decreases if locked == 1 then 1 else 0, 0, 0, 0
    {
      hide Owed, Sound, Nested, StartedSince, Pends, WillStart, WillStay, WillRaise, FlagAt, StartsBelow, PassLog, Runs, PassOf;
      FlagsHere(level);
      if locked == 1 {
        ghost var p := Now(level);
        PassLogStep(p, 0);
        NoneSince(log);
        StartsMore(p, 0);
        forall i: nat | i < |entries| ensures FlagAt(p, 0, i) <==> pended[i] {
          FlagStart(p, i);
        }
        var j := 0;
        while j < |entries|
          invariant 0 <= j <= |entries| && locked == 1 && Valid() && old(log) <= log
          invariant starts == old(starts) + StartsBelow(p, j) && log == old(log) + PassLog(p, j)
          invariant forall i: nat :: StartedSince(log, |old(log)|, i) <==> i < j && WillStart(p, i)
          invariant forall i: nat :: i < |entries| ==> (pended[i] <==> FlagAt(p, j, i))
        {
          FlagHere(p, j);
          StartsMore(p, j);
          PassLogStep(p, j);
          ghost var before := log;
          if pended[j] {
            Start(j, level, top);
          }
          forall i: nat ensures StartedSince(log, |old(log)|, i) <==> i <= j && WillStart(p, i) {
            PassStarts(before, Pends(entries, script(j, p.starts + StartsBelow(p, j)), level), |old(log)|, j, i);
          }
          forall i: nat | i < |entries| ensures pended[i] <==> FlagAt(p, j + 1, i) {
            FlagStep(p, j, i);
            if WillStart(p, j) {
              PassStep(before, p, j, i);
            }
          }
          j := j + 1;
        }
        forall i: nat ensures i < |entries| ==> (pended[i] <==> WillStay(p, i)) {
          if i < |entries| {
            FlagEnd(p, i);
          }
        }
        OnlyEntries(p);
      }
      locked := (locked - 1) % WORD;
    }

    /**
      fnet_event_raise.  From an unlocked state the handler runs at once, at depth 1, and the pass of the unlock
      follows: which handlers it starts and which entries are pended after it is told from before the call.
     */
    method DoRaise(vector: int, level: nat, ghost top: nat)
      requires Valid()
      requires level <= top && forall j :: 0 <= j < |entries| ==> entries[j].priority <= top
      modifies `locked, `pended, `starts, `log
      ensures Valid() && locked == old(locked) && old(log) <= log
      ensures Here() == Next(entries, script, old(Here()), Raise(vector), level, top)
      ensures locked > 0 ==> log == old(log) + PendsOne(entries, Raise(vector), level) && starts == old(starts)
      ensures locked == 0 ==>
                var i := IndexOf(entries, vector);
                var first := if i < |entries| then [Raised(i), Started(i, 1)] + Pends(entries, script(i, old(starts)), level) else [];
                var p := if i < |entries| then AfterServing(old(Now(level)), i) else old(Now(level));
                && old(log) + first <= log && (forall j: nat :: StartedSince(log, |old(log) + first|, j) <==> WillStart(p, j))
                && forall j: nat :: j < |entries| ==> (pended[j] <==> WillStay(p, j))
      decreases if locked == 0 then 2 else 0, 0, 0, 1
    {
      hide Owed, Sound, Nested, WillStart, WillStay, StartedSince, Pends, Runs, PassOf, PassLog, StartsBelow, AfterServing;
      FlagsHere(level);
      ghost var w := Here();
      DoLock();
      var i := FindEntry(vector);
      if i < |entries| {
        LogRaised(i);
        if locked == 1 {
          Start(i, level, top);
          ServedFlags(entries, script, w, i, level);
          assert w.log + [Raised(i)] + [Started(i, 1)] == w.log + [Raised(i), Started(i, 1)];
          assert log == Served(entries, script, w, i, level).log;
        } else {
          pended := pended[i := true];
        }
      } else {
        assert w.log + [] == w.log;
      }
      FlagsHere(level);
      DoUnlock(level, top);
    }

    /**
      fnet_isr_handler, when the hardware delivers an interrupt to code that runs at `level`: only one of
      higher priority gets through.
     */
    method Handle(vector: int, level: nat, ghost top: nat)
      requires Valid()
      requires level <= top && forall j :: 0 <= j < |entries| ==> entries[j].priority <= top
      modifies `locked, `pended, `starts, `log
      ensures Valid() && locked == old(locked) && old(log) <= log
      ensures var i := IndexOf(entries, vector);
              i < |entries| && entries[i].priority > level ==>
                old(log) + [Raised(i)] + (if locked == 0 then [Started(i, 0)] else []) <= log
      ensures var i := IndexOf(entries, vector);
              i == |entries| || entries[i].priority <= level ==> log == old(log) && pended == old(pended)
      ensures locked > 0 ==> log == old(log) + PendsOne(entries, Interrupt(vector), level) && starts == old(starts)
      ensures Here() == Next(entries, script, old(Here()), Interrupt(vector), level, top)
      decreases if locked == 0 then 3 else 0, top - level, 0, 0
    {
      hide Owed, Sound, Nested, Runs, Pends;
      var i := FindEntry(vector);
      assert log + [] == log && log + [Raised(i)] + [Started(i, 0)] == log + [Raised(i), Started(i, 0)];
      if i < |entries| && entries[i].priority > level {
        LogRaised(i);
        if locked != 0 {
          pended := pended[i := true];
        } else {
          Start(i, entries[i].priority, top);
        }
      }
    }
  }

  /** Any program of locks, unlocks, raises and interrupts. */
  method Perform(d: Dispatcher, program: seq<Action>)
    requires d.Valid()
    modifies d`locked, d`pended, d`starts, d`log
    ensures d.Valid() && old(d.log) <= d.log
    ensures forall k, i: nat :: 0 <= k < |d.log| && i < |d.entries| && d.log[k] == Raised(i) ==>
              d.pended[i] || exists m :: k < m < |d.log| && d.log[m].Started? && d.log[m].i == i
    ensures d.Here() == Runs(d.entries, d.script, old(d.Here()), program, 0, Highest(d.entries))
  {
    hide Owed, Sound, Nested, Runs, Next;
    ghost var top := Highest(d.entries);
    for k := 0 to |program|
      invariant d.Valid() && old(d.log) <= d.log
      invariant Runs(d.entries, d.script, d.Here(), program[k..], 0, top) == Runs(d.entries, d.script, old(d.Here()), program, 0, top)
    {
      RunsStep(d.entries, d.script, d.Here(), program[k..], 0, top);
      assert program[k..][0] == program[k] && program[k..][1..] == program[k + 1..];
      match program[k]
      case Lock => d.DoLock();
      case Unlock => d.DoUnlock(0, top);
      case Raise(v) => d.DoRaise(v, 0, top);
      case Interrupt(v) => d.Handle(v, 0, top);
    }
    RunsStep(d.entries, d.script, d.Here(), program[|program|..], 0, top);
    forall k, i: nat | 0 <= k < |d.log| && i < |d.entries| && d.log[k] == Raised(i)
      ensures d.pended[i] || exists m :: k < m < |d.log| && d.log[m].Started? && d.log[m].i == i
    {
      NoneLost(d.log, k, i);
    }
  }

  function Highest(entries: seq<Entry>): (top: nat)
    ensures forall j :: 0 <= j < |entries| ==> entries[j].priority <= top
  {
    if entries == [] then 0
    else
      var rest := Highest(entries[..|entries| - 1]);
      if entries[|entries| - 1].priority > rest then entries[|entries| - 1].priority else rest
  }

  /** With handlers that raise only entries further down the table, the last unlock leaves nothing pended. */
  method UnlockClears(d: Dispatcher)
    requires d.Valid() && d.locked == 1
    requires forall j: nat, n: nat, e :: e in Pends(d.entries, d.script(j, n), 0) ==> e.i > j
    modifies d`locked, d`pended, d`starts, d`log
    ensures d.Valid() && d.locked == 0 && forall i :: 0 <= i < |d.entries| ==> !d.pended[i]
  {
    hide Owed, Sound, Nested, Pends, WillStart, WillStay, WillRaise, StartedSince;
    ghost var p := d.Now(0);
    forall i: nat ensures !WillStay(p, i) {
      ForwardClears(p, i);
    }
    d.DoUnlock(0, Highest(d.entries));
  }

  /** Two entries, of which handler 1 raises entry 0. */
  const LATE: seq<Entry> := [Entry(500, 0), Entry(501, 0)]

  lemma LateIndex()
    ensures IndexOf(LATE, 500) == 0 && IndexOf(LATE, 501) == 1
  {
    assert IndexOf(LATE[1..], 501) == 0;
  }

  lemma LateStays(p: Pass)
    requires p.entries == LATE && p.level == 0 && p.flags == [false, true] && p.script(1, p.starts) == [Raise(500)]
    ensures WillStay(p, 0) && !WillStay(p, 1)
  {
    hide IndexOf;
    LateIndex();
    assert !WillStart(p, 0) && WillStart(p, 1);
    assert StartsBelow(p, 1) == 0;
    assert Pends(LATE, [Raise(500)], 0) == [Raised(0)];
    assert WillRaise(p, 1, 0) && !WillRaise(p, 1, 1);
  }

  /**
    An event can stay pended with the lock free: handler 1, started in the pass of an unlock, raises
    entry 0, which the pass has left behind.
   */
  method StillPended() returns (d: Dispatcher)
    ensures fresh(d) && d.Valid() && d.locked == 0 && d.pended == [true, false]
  {
    hide Sound, Owed, Pends, IndexOf, WillStart, WillStay, WillRaise, StartsBelow, StartedSince;
    var script: Script := (i, n) => if i == 1 then [Raise(500)] else [];
    d := new Dispatcher(LATE, script);
    LateIndex();
    d.DoLock();
    d.DoRaise(501, 0, 0);
    assert d.log == [] + [Raised(1)];
    OwedGrow([], Raised(1));
    NoneOwed();
    assert d.pended == [false, true];
    LateStays(d.Now(0));
    d.DoUnlock(0, 0);
  }

  lemma NoneOwed()
    ensures forall i: nat :: !Owed([], i)
  {}
}
