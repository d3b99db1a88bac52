/** The bounded log of sent counters and the loss-report windows of bin/yipd/src/dataplane.rs. Fractions are over reals. */
module SentLog {
  import opened Prelude

  datatype Flow = Realtime | Bulk | Default
  datatype Entry = Entry(counter: nat, flow: Flow)
  datatype Log = Log(capacity: nat, byCounter: map<nat, Flow>, order: seq<Entry>)

  function New(capacity: nat): Log {
    Log(capacity, map[], [])
  }

  function Insert(l: Log, e: Entry): Log {
    if |l.byCounter| >= l.capacity && l.order != []
    then l.(byCounter := (l.byCounter - {l.order[0].counter})[e.counter := e.flow], order := l.order[1..] + [e])
    else l.(byCounter := l.byCounter[e.counter := e.flow], order := l.order + [e])
  }

  /** How many entries of this flow have a counter in `lo..=hi`. */
  function Count(es: seq<Entry>, flow: Flow, lo: nat, hi: nat): nat {
    if es == [] then 0 else
      var e := es[|es| - 1];
      Count(es[..|es| - 1], flow, lo, hi) + if e.flow == flow && lo <= e.counter <= hi then 1 else 0
  }

  /** `u32` counters that stick at their maximum. */
  function Counted(es: seq<Entry>, flow: Flow, lo: nat, hi: nat): nat {
    Min(Count(es, flow, lo, hi), U32_MAX)
  }

  datatype Counts = Counts(realtime: nat, bulk: nat, default: nat)

  class LossAccounting {
    const capacity: nat
    var byCounter: map<nat, Flow>
    var order: seq<Entry>
    var lastHigh: nat

    function Abs(): Log
      reads this
    {
      Log(capacity, byCounter, order)
    }

    function AbsState(): State
      reads this
    {
      State(Abs(), lastHigh)
    }

    constructor (capacity: nat)
      ensures AbsState() == State(New(capacity), 0)
    {
      this.capacity, byCounter, order, lastHigh := capacity, map[], [], 0;
    }

    method InsertEntry(counter: nat, flow: Flow)
      modifies this`byCounter, this`order
      ensures AbsState() == Step(old(AbsState()), Sends(Entry(counter, flow)))
    {
      if |byCounter| >= capacity {
        if order != [] {
          byCounter := byCounter - {order[0].counter};
          order := order[1..];
        }
      }
      byCounter := byCounter[counter := flow];
      order := order + [Entry(counter, flow)];
    }

    method CountClassesInRange(start: nat, end: nat) returns (c: Counts)
      ensures c == CountedIn(order, start, end)
    {
      c := Counts(0, 0, 0);
      if start > end {
        EmptyRange(order, start, end);
        return;
      }
      for i := 0 to |order|
        invariant c == CountedIn(order[..i], start, end)
      {
        assert order[..i + 1][..i] == order[..i];
        var e := order[i];
        if e.counter >= start && e.counter <= end {
          match e.flow {
            case Realtime => c := c.(realtime := SatAdd(c.realtime, 1, U32_MAX));
            case Bulk => c := c.(bulk := SatAdd(c.bulk, 1, U32_MAX));
            case Default => c := c.(default := SatAdd(c.default, 1, U32_MAX));
          }
        }
      }
      assert order[..|order|] == order;
    }

    /** The sent counts a report is set against: its own window if it advances, else the whole log. */
    method OnReport(high: nat) returns (sent: Counts)
      modifies this`lastHigh
      ensures AbsState() == Step(old(AbsState()), Reports(high))
      ensures sent ==
              if Advances(old(AbsState()), high) then CountedIn(order, WindowStart(old(AbsState())), high) else FiledCounts(byCounter)
    {
      if high > lastHigh {
        var start := if lastHigh == 0 then (if order == [] then 0 else order[0].counter) else SatAdd(lastHigh, 1, U64_MAX);
        lastHigh := high;
        sent := CountClassesInRange(start, high);
      } else {
        sent := FiledCounts(byCounter);
      }
    }
  }

  function CountedIn(es: seq<Entry>, lo: nat, hi: nat): Counts {
    Counts(Counted(es, Realtime, lo, hi), Counted(es, Bulk, lo, hi), Counted(es, Default, lo, hi))
  }

  /** `count_class` for each flow: a filter over the map's values. */
  function FiledCounts(m: map<nat, Flow>): Counts {
    Counts(Min(|Filed(m, Realtime)|, U32_MAX), Min(|Filed(m, Bulk)|, U32_MAX), Min(|Filed(m, Default)|, U32_MAX))
  }

  lemma {:induction false} EmptyRange(es: seq<Entry>, lo: nat, hi: nat)
    requires lo > hi
    ensures forall flow :: Count(es, flow, lo, hi) == 0
  {
    if es != [] {
      EmptyRange(es[..|es| - 1], lo, hi);
    }
  }

  // ---- The log is a suffix of what was sent ----------------------------------------------------------------------

  predicate Increasing(es: seq<Entry>) {
    forall i, j :: 0 <= i < j < |es| ==> es[i].counter < es[j].counter
  }

  function AsMap(es: seq<Entry>): map<nat, Flow> {
    if es == [] then map[] else AsMap(es[..|es| - 1])[es[|es| - 1].counter := es[|es| - 1].flow]
  }

  /** The map files exactly the logged counters, each under its own flow. */
  lemma {:induction false} AsMapHolds(es: seq<Entry>, c: nat)
    requires Increasing(es)
    ensures c in AsMap(es) <==> exists i :: 0 <= i < |es| && es[i].counter == c
    ensures forall i :: 0 <= i < |es| && es[i].counter == c ==> c in AsMap(es) && AsMap(es)[c] == es[i].flow
  {
    if es != [] {
      var before := es[..|es| - 1];
      assert forall i :: 0 <= i < |before| ==> before[i] == es[i];
      AsMapHolds(before, c);
    }
  }

  lemma {:induction false} AsMapSize(es: seq<Entry>)
    requires Increasing(es)
    ensures |AsMap(es)| == |es|
    ensures forall c :: c in AsMap(es) ==> es != [] && c <= es[|es| - 1].counter
  {
    if es != [] {
      AsMapSize(es[..|es| - 1]);
    }
  }

  lemma RemoveThenUpdate(m: map<nat, Flow>, removed: nat, c: nat, flow: Flow)
    requires c != removed
    ensures m[c := flow] - {removed} == (m - {removed})[c := flow]
  {
  }

  lemma {:induction false} DropOldest(es: seq<Entry>)
    requires Increasing(es) && es != []
    ensures AsMap(es) - {es[0].counter} == AsMap(es[1..])
  {
    var before, last := es[..|es| - 1], es[|es| - 1];
    if before == [] {
      assert AsMap(es) == map[last.counter := last.flow];
      assert AsMap(es[1..]) == map[];
    } else {
      DropOldest(before);
      RemoveThenUpdate(AsMap(before), es[0].counter, last.counter, last.flow);
      assert es[1..][..|es[1..]| - 1] == before[1..];
    }
  }

  function RunLog(capacity: nat, es: seq<Entry>): Log {
    if es == [] then New(capacity) else Insert(RunLog(capacity, es[..|es| - 1]), es[|es| - 1])
  }

  function Suffix(es: seq<Entry>, n: nat): seq<Entry> {
    if |es| <= n then es else es[|es| - n..]
  }

  predicate HoldsSuffix(l: Log, capacity: nat, es: seq<Entry>) {
    l.capacity == capacity && l.order == Suffix(es, Max(capacity, 1)) && l.byCounter == AsMap(l.order)
  }

  lemma InsertHoldsSuffix(l: Log, capacity: nat, es: seq<Entry>, e: Entry)
    requires Increasing(es) && HoldsSuffix(l, capacity, es)
    ensures HoldsSuffix(Insert(l, e), capacity, es + [e])
  {
    hide Insert, AsMap;
    InsertKeepsMap(l, e);
    SuffixAppend(es, e, Max(capacity, 1));
  }

  lemma {:induction false} IncreasingPrefix(es: seq<Entry>)
    requires Increasing(es) && es != []
    ensures Increasing(es[..|es| - 1]) && es[..|es| - 1] + [es[|es| - 1]] == es
  {
  }

  lemma {:induction false} RunLogLast(capacity: nat, es: seq<Entry>)
    requires es != []
    ensures RunLog(capacity, es) == Insert(RunLog(capacity, es[..|es| - 1]), es[|es| - 1])
  {
    hide Insert;
  }

  /** Under increasing counters, deque and map both hold exactly the last `max(capacity, 1)` sends. */
  lemma {:induction false} LogIsSuffix(capacity: nat, es: seq<Entry>)
    requires Increasing(es)
    ensures HoldsSuffix(RunLog(capacity, es), capacity, es)
  {
    if es != [] {
      hide Insert, HoldsSuffix, Increasing, RunLog;
      IncreasingPrefix(es);
      LogIsSuffix(capacity, es[..|es| - 1]);
      RunLogLast(capacity, es);
      InsertHoldsSuffix(RunLog(capacity, es[..|es| - 1]), capacity, es[..|es| - 1], es[|es| - 1]);
    }
  }

  lemma InsertKeepsMap(l: Log, e: Entry)
    requires Increasing(l.order) && l.byCounter == AsMap(l.order)
    ensures Insert(l, e).capacity == l.capacity && Insert(l, e).byCounter == AsMap(Insert(l, e).order)
    ensures Insert(l, e).order == (if |l.order| >= Max(l.capacity, 1) then l.order[1..] else l.order) + [e]
  {
    AsMapSize(l.order);
    AsMapAppend(l.order, e);
    if l.order != [] {
      DropOldest(l.order);
      AsMapAppend(l.order[1..], e);
    }
  }

  lemma SuffixAppend(es: seq<Entry>, e: Entry, n: nat)
    requires n >= 1
    ensures var kept := Suffix(es, n); Suffix(es + [e], n) == (if |kept| >= n then kept[1..] else kept) + [e]
  {
  }

  lemma AsMapAppend(es: seq<Entry>, e: Entry)
    ensures AsMap(es + [e]) == AsMap(es)[e.counter := e.flow]
  {
    assert (es + [e])[..|es|] == es;
  }

  /** The counters the map files under a flow: `values().filter(..)`. */
  function Filed(m: map<nat, Flow>, flow: Flow): set<nat> {
    set c | c in m && m[c] == flow
  }

  lemma FiledUpdate(m: map<nat, Flow>, e: Entry, flow: Flow)
    requires e.counter !in m
    ensures |Filed(m[e.counter := e.flow], flow)| == |Filed(m, flow)| + if e.flow == flow then 1 else 0
  {
    assert Filed(m[e.counter := e.flow], flow) == Filed(m, flow) + if e.flow == flow then {e.counter} else {};
  }

  /** `count_class`, a filter over the map's values, counts what the deque holds. */
  lemma {:induction false} MapCountsLikeDeque(es: seq<Entry>, flow: Flow, hi: nat)
    requires Increasing(es) && forall i :: 0 <= i < |es| ==> es[i].counter <= hi
    ensures |Filed(AsMap(es), flow)| == Count(es, flow, 0, hi)
  {
    if es != [] {
      var before, last := es[..|es| - 1], es[|es| - 1];
      MapCountsLikeDeque(before, flow, hi);
      AsMapSize(before);
      FiledUpdate(AsMap(before), last, flow);
    }
  }

  // ---- Loss reports ----------------------------------------------------------------------------------------------

  datatype State = State(log: Log, lastHigh: nat)
  datatype Event = Sends(entry: Entry) | Reports(high: nat)

  predicate Advances(s: State, high: nat) {
    high > s.lastHigh
  }

  /** First counter of the window a report opens. */
  function WindowStart(s: State): nat {
    if s.lastHigh == 0 then (if s.log.order == [] then 0 else s.log.order[0].counter)
    else SatAdd(s.lastHigh, 1, U64_MAX)
  }

  function Step(s: State, v: Event): State {
    match v
    case Sends(entry) => s.(log := Insert(s.log, entry))
    case Reports(high) => if Advances(s, high) then s.(lastHigh := high) else s
  }

  function Run(capacity: nat, vs: seq<Event>): State {
    if vs == [] then State(New(capacity), 0) else Step(Run(capacity, vs[..|vs| - 1]), vs[|vs| - 1])
  }

  /** Event `k` is an advancing report whose window contains the counter. */
  predicate InWindow(capacity: nat, vs: seq<Event>, k: nat, counter: nat)
    requires k < |vs|
  {
    vs[k].Reports? && Advances(Run(capacity, vs[..k]), vs[k].high) && WindowStart(Run(capacity, vs[..k])) <= counter <= vs[k].high
  }

  /** `last_loss_report_high` never decreases. */
  lemma {:induction false} HighNeverDecreases(capacity: nat, vs: seq<Event>, k: nat)
    requires k <= |vs|
    ensures Run(capacity, vs[..k]).lastHigh <= Run(capacity, vs).lastHigh
    decreases vs
  {
    if k == |vs| {
      assert vs[..k] == vs;
    } else {
      assert vs[..|vs| - 1][..k] == vs[..k];
      HighNeverDecreases(capacity, vs[..|vs| - 1], k);
    }
  }

  predicate Words(vs: seq<Event>) {
    forall k :: 0 <= k < |vs| && vs[k].Reports? ==> vs[k].high <= U64_MAX
  }

  /** Advancing reports use pairwise disjoint windows: no counter is charged twice. */
  lemma WindowsAreDisjoint(capacity: nat, vs: seq<Event>, i: nat, j: nat, counter: nat)
    requires Words(vs) && i < j < |vs|
    ensures !(InWindow(capacity, vs, i, counter) && InWindow(capacity, vs, j, counter))
  {
    if InWindow(capacity, vs, i, counter) {
      assert vs[..i + 1][..i] == vs[..i] && vs[..i + 1][i] == vs[i];
      assert vs[..j][..i + 1] == vs[..i + 1];
      HighNeverDecreases(capacity, vs[..j], i + 1);
    }
  }

  function Sent(vs: seq<Event>): seq<Entry> {
    if vs == [] then [] else
      Sent(vs[..|vs| - 1]) + if vs[|vs| - 1].Sends? then [vs[|vs| - 1].entry] else []
  }

  lemma {:induction false} LogSeesSends(capacity: nat, vs: seq<Event>)
    ensures Run(capacity, vs).log == RunLog(capacity, Sent(vs))
  {
    if vs != [] {
      LogSeesSends(capacity, vs[..|vs| - 1]);
      if vs[|vs| - 1].Sends? {
        assert Sent(vs)[..|Sent(vs)| - 1] == Sent(vs[..|vs| - 1]);
      } else {
        assert Sent(vs) == Sent(vs[..|vs| - 1]);
      }
    }
  }

  /** `last_loss_report_high` is zero or the high counter of some earlier report. */
  lemma {:induction false} HighWasReported(capacity: nat, vs: seq<Event>)
    ensures Run(capacity, vs).lastHigh == 0 || exists k :: 0 <= k < |vs| && vs[k] == Reports(Run(capacity, vs).lastHigh)
  {
    if vs != [] {
      HighWasReported(capacity, vs[..|vs| - 1]);
      assert forall k :: 0 <= k < |vs| - 1 ==> vs[..|vs| - 1][k] == vs[k];
    }
  }

  /** It is the largest high counter reported, so a report advances exactly when it tops all before it. */
  lemma {:induction false} HighIsLargestReported(capacity: nat, vs: seq<Event>, high: nat)
    ensures Advances(Run(capacity, vs), high) <==> high > 0 && forall k :: 0 <= k < |vs| && vs[k].Reports? ==> vs[k].high < high
  {
    HighWasReported(capacity, vs);
    forall k | 0 <= k < |vs| && vs[k].Reports?
      ensures vs[k].high <= Run(capacity, vs).lastHigh
    {
      assert vs[..k + 1][..k] == vs[..k] && vs[..k + 1][k] == vs[k];
      HighNeverDecreases(capacity, vs, k + 1);
    }
    hide Run;
  }

  lemma OldestIsSmallest(capacity: nat, vs: seq<Event>, e: Entry)
    requires Increasing(Sent(vs)) && e in Run(capacity, vs).log.order
    ensures Run(capacity, vs).log.order[0].counter <= e.counter
  {
    LogSeesSends(capacity, vs);
    LogIsSuffix(capacity, Sent(vs));
  }

  /** All reports so far stopped short of the counter. */
  predicate NotYetReached(vs: seq<Event>, counter: nat) {
    forall i :: 0 <= i < |vs| && vs[i].Reports? ==> vs[i].high < counter
  }

  lemma WindowReachesBack(capacity: nat, vs: seq<Event>, e: Entry)
    requires Increasing(Sent(vs)) && NotYetReached(vs, e.counter) && e in Run(capacity, vs).log.order
    ensures WindowStart(Run(capacity, vs)) <= e.counter
  {
    OldestIsSmallest(capacity, vs, e);
    HighWasReported(capacity, vs);
  }

  /** A counter still logged when the first report reaching it arrives enters that report's window, and no other. */
  lemma ChargedExactlyOnce(capacity: nat, vs: seq<Event>, k: nat, e: Entry, j: nat)
    requires k < |vs| && j < |vs| && Words(vs) && Increasing(Sent(vs[..k]))
    requires vs[k].Reports? && Advances(Run(capacity, vs[..k]), vs[k].high) && e.counter <= vs[k].high
    requires NotYetReached(vs[..k], e.counter) && e in Run(capacity, vs[..k]).log.order
    ensures InWindow(capacity, vs, j, e.counter) <==> j == k
  {
    WindowReachesBack(capacity, vs[..k], e);
    assert InWindow(capacity, vs, k, e.counter);
    if j < k {
      WindowsAreDisjoint(capacity, vs, j, k, e.counter);
    } else if k < j {
      WindowsAreDisjoint(capacity, vs, k, j, e.counter);
    }
  }

  // ---- What the counts are -----------------------------------------------------------------------------------------

  /** The logged counters of a flow in `lo..=hi`. */
  function Within(es: seq<Entry>, flow: Flow, lo: nat, hi: nat): set<nat> {
    set e | e in es && e.flow == flow && lo <= e.counter <= hi :: e.counter
  }

  lemma WithinOneMore(es: seq<Entry>, flow: Flow, lo: nat, hi: nat)
    requires es != []
    ensures
      var before, e := es[..|es| - 1], es[|es| - 1];
      Within(es, flow, lo, hi) == Within(before, flow, lo, hi) + if e.flow == flow && lo <= e.counter <= hi then {e.counter} else {}
  {
    var before, e := es[..|es| - 1], es[|es| - 1];
    assert es == before + [e];
    assert forall x :: x in es <==> x in before || x == e;
  }

  /** The count a range query returns is the number of distinct counters of that flow in the range. */
  lemma {:induction false} CountIsSize(es: seq<Entry>, flow: Flow, lo: nat, hi: nat)
    requires Increasing(es)
    ensures Count(es, flow, lo, hi) == |Within(es, flow, lo, hi)|
  {
    if es != [] {
      var before, e := es[..|es| - 1], es[|es| - 1];
      assert forall i :: 0 <= i < |before| ==> before[i] == es[i];
      CountIsSize(before, flow, lo, hi);
      WithinOneMore(es, flow, lo, hi);
      assert e.counter !in Within(before, flow, lo, hi);
      hide Within;
    }
  }

  function OfFlow(c: Counts, flow: Flow): nat {
    match flow
    case Realtime => c.realtime
    case Bulk => c.bulk
    case Default => c.default
  }

  /** Both queries answer each flow in its own field, with the number of its logged counters, sticking at 2^32 - 1. */
  lemma {:induction false} CountsAreSizes(es: seq<Entry>, flow: Flow, lo: nat, hi: nat)
    requires Increasing(es)
    ensures OfFlow(CountedIn(es, lo, hi), flow) == Min(|Within(es, flow, lo, hi)|, 0xFFFF_FFFF)
    ensures (forall i :: 0 <= i < |es| ==> es[i].counter <= hi) ==>
              OfFlow(FiledCounts(AsMap(es)), flow) == Min(|Within(es, flow, 0, hi)|, 0xFFFF_FFFF)
  {
    CountIsSize(es, flow, lo, hi);
    if forall i :: 0 <= i < |es| ==> es[i].counter <= hi {
      MapCountsLikeDeque(es, flow, hi);
      CountIsSize(es, flow, 0, hi);
    }
    hide Within, Count, AsMap, Filed;
  }

  /** The count an advancing report is answered with, for one flow. */
  function ReportedBy(s: State, v: Event, flow: Flow): nat {
    if v.Reports? && Advances(s, v.high) then OfFlow(CountedIn(s.log.order, WindowStart(s), v.high), flow) else 0
  }

  /** The counters it is about. */
  function CoveredBy(s: State, v: Event, flow: Flow): set<nat> {
    if v.Reports? && Advances(s, v.high) then Within(s.log.order, flow, WindowStart(s), v.high) else {}
  }

  /** The sum of these counts over a run. */
  function Reported(capacity: nat, vs: seq<Event>, flow: Flow): nat {
    if vs == [] then 0 else
      Reported(capacity, vs[..|vs| - 1], flow) + ReportedBy(Run(capacity, vs[..|vs| - 1]), vs[|vs| - 1], flow)
  }

  function Covered(capacity: nat, vs: seq<Event>, flow: Flow): set<nat> {
    if vs == [] then {} else
      Covered(capacity, vs[..|vs| - 1], flow) + CoveredBy(Run(capacity, vs[..|vs| - 1]), vs[|vs| - 1], flow)
  }

  /** The counters sent with a flow. */
  function SentWith(vs: seq<Event>, flow: Flow): set<nat> {
    set e | e in Sent(vs) && e.flow == flow :: e.counter
  }

  /** The log holds sends, in order. */
  lemma {:induction false} LoggedWasSent(capacity: nat, vs: seq<Event>)
    requires Increasing(Sent(vs))
    ensures Increasing(Run(capacity, vs).log.order)
    ensures forall e :: e in Run(capacity, vs).log.order ==> e in Sent(vs)
  {
    LogSeesSends(capacity, vs);
    LogIsSuffix(capacity, Sent(vs));
    hide Run, RunLog, AsMap, Sent;
  }

  lemma {:induction false} SentPrefix(vs: seq<Event>)
    requires Increasing(Sent(vs)) && vs != []
    ensures Increasing(Sent(vs[..|vs| - 1]))
    ensures forall flow :: SentWith(vs[..|vs| - 1], flow) <= SentWith(vs, flow)
  {
    var before := Sent(vs[..|vs| - 1]);
    assert forall i :: 0 <= i < |before| ==> Sent(vs)[i] == before[i];
    assert forall e :: e in before ==> e in Sent(vs);
  }

  /** The counts so far are about distinct counters, all sent and all up to the mark. */
  ghost predicate Tallied(s: State, reported: nat, covered: set<nat>, sent: set<nat>) {
    && reported <= |covered| && covered <= sent
    && forall c :: c in covered ==> 0 < s.lastHigh && c <= s.lastHigh
  }

  /** A report's window lies beyond the mark. */
  lemma WindowIsNew(s: State, flow: Flow, high: nat, c: nat)
    requires Advances(s, high) && high <= U64_MAX && c in Within(s.log.order, flow, WindowStart(s), high)
    ensures c <= high && (0 < s.lastHigh ==> s.lastHigh < c)
  {
  }

  lemma {:induction false} EventTallies(s: State, v: Event, reported: nat, covered: set<nat>, sent: set<nat>, flow: Flow)
    requires Tallied(s, reported, covered, sent) && Increasing(s.log.order) && (v.Reports? ==> v.high <= U64_MAX)
    requires forall e :: e in s.log.order && e.flow == flow ==> e.counter in sent
    ensures Tallied(Step(s, v), reported + ReportedBy(s, v, flow), covered + CoveredBy(s, v, flow), sent)
  {
    if v.Reports? && Advances(s, v.high) {
      var window := CoveredBy(s, v, flow);
      CountIsSize(s.log.order, flow, WindowStart(s), v.high);
      assert window <= sent;
      forall c | c in window
        ensures c <= v.high && c !in covered
      {
        WindowIsNew(s, flow, v.high, c);
      }
      hide Within, WindowStart, Increasing, Count;
      assert |covered + window| == |covered| + |window|;
    }
  }

  lemma {:induction false} LoggedIsInSent(capacity: nat, vs: seq<Event>, flow: Flow)
    requires Increasing(Sent(vs)) && vs != []
    ensures Increasing(Run(capacity, vs[..|vs| - 1]).log.order)
    ensures forall e :: e in Run(capacity, vs[..|vs| - 1]).log.order && e.flow == flow ==> e.counter in SentWith(vs, flow)
  {
    SentPrefix(vs);
    LoggedWasSent(capacity, vs[..|vs| - 1]);
    hide Run, Sent, Increasing;
  }

  lemma TalliedMore(s: State, reported: nat, covered: set<nat>, sent: set<nat>, sent': set<nat>)
    requires Tallied(s, reported, covered, sent) && sent <= sent'
    ensures Tallied(s, reported, covered, sent')
  {
  }

  lemma {:induction false} ReportedIsCovered(capacity: nat, vs: seq<Event>, flow: Flow)
    requires Increasing(Sent(vs)) && Words(vs)
    ensures Tallied(Run(capacity, vs), Reported(capacity, vs, flow), Covered(capacity, vs, flow), SentWith(vs, flow))
  {
    if vs != [] {
      hide Sent, Increasing, SentWith, Step, ReportedBy, CoveredBy, Tallied;
      var before := vs[..|vs| - 1];
      SentPrefix(vs);
      ReportedIsCovered(capacity, before, flow);
      LoggedIsInSent(capacity, vs, flow);
      var s, reported, covered := Run(capacity, before), Reported(capacity, before, flow), Covered(capacity, before, flow);
      TalliedMore(s, reported, covered, SentWith(before, flow), SentWith(vs, flow));
      EventTallies(s, vs[|vs| - 1], reported, covered, SentWith(vs, flow), flow);
    }
  }

  /** No send is counted twice: the counts of all advancing reports together are at most the sends. */
  lemma {:induction false} ReportsCountSendsAtMostOnce(capacity: nat, vs: seq<Event>, flow: Flow)
    requires Increasing(Sent(vs)) && Words(vs)
    ensures Reported(capacity, vs, flow) <= |SentWith(vs, flow)|
  {
    ReportedIsCovered(capacity, vs, flow);
    hide Run, Reported, Covered, SentWith;
    SubsetSize(Covered(capacity, vs, flow), SentWith(vs, flow));
  }

  // ---- Loss fractions --------------------------------------------------------------------------------------------

  /** `fraction_f32` without rounding: both operands saturate at 16 bits, the quotient is clamped to [0, 1]. */
  function Fraction(numerator: nat, denominator: nat): real {
    if denominator == 0 then 0.0 else
      var q := Min(numerator, U16_MAX) as real / Min(denominator, U16_MAX) as real;
      if q > 1.0 then 1.0 else q
  }

  /** What `observe_class` feeds to the estimator for `missing` out of `sent`. */
  function LossFraction(missing: nat, sent: nat): real {
    Fraction(missing, Max(Max(sent, missing), 1))
  }

  /** The fraction is a fraction, the clamp never bites, and below 2^16 it is exact. */
  lemma LossFractionIsAFraction(missing: nat, sent: nat)
    ensures 0.0 <= LossFraction(missing, sent) <= 1.0
    ensures LossFraction(missing, sent) == 0.0 <==> missing == 0
    ensures missing <= sent <= 65_535 && sent > 0 ==> LossFraction(missing, sent) * sent as real == missing as real
    ensures sent > 65_535 ==> LossFraction(missing, sent) * 65_535.0 == Min(missing, 65_535) as real
  {
    var n, d := Min(missing, U16_MAX) as real, Min(Max(Max(sent, missing), 1), U16_MAX) as real;
    assert 0.0 <= n <= d && 1.0 <= d;
    QuotientBounds(n, d);
  }

  lemma QuotientBounds(n: real, d: real)
    requires 0.0 <= n <= d && 1.0 <= d
    ensures 0.0 <= n / d <= 1.0 && n / d * d == n && (n / d == 0.0 <==> n == 0.0)
  {
  }
}
