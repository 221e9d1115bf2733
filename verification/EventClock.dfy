/** Simulated time and pending hardware interrupts, as a state machine on values. */
module EventClocks {
  import opened Lists

  const UserTick: nat := 1
  const SystemTick: nat := 10

  datatype MachineStatus = IdleMode | SystemMode | UserMode
  datatype IntType = TimerInt | DiskInt | ConsoleWriteInt | ConsoleReadInt | NetworkSendInt | NetworkRecvInt

  /** A scheduled interrupt; `id` counts the calls of Schedule. */
  datatype Pending = Pending(id: nat, when: int, kind: IntType)

  /** An interrupt whose handler was called, and at what time. */
  datatype Firing = Firing(what: Pending, at: int)

  /** A request that a handler makes: Schedule insists that it lies in the future. */
  datatype Request = Request(fromNow: int, kind: IntType)

  /** What one call of a handler does as far as interrupts are concerned. */
  datatype Response = Response(requests: seq<Request>, yielding: bool)

  /** The behaviour of all handlers in a run: what the n-th handler call does. */
  type Script = s: nat -> Response | forall n, i :: 0 <= i < |s(n).requests| ==> s(n).requests[i].fromNow > 0
    witness n => Response([], false)

  /** `log` holds every interrupt ever scheduled, in the order of the calls. */
  datatype Clock = Clock(
    total: int, idle: int, system: int, user: int,
    pending: seq<Entry<Pending>>, fired: seq<Firing>, log: seq<Pending>, yieldOnReturn: bool)

  function Schedule(c: Clock, r: Request): Clock {
    var p := Pending(|c.log|, c.total + r.fromNow, r.kind);
    c.(pending := Insert(c.pending, Entry(p, p.when)), log := c.log + [p])
  }

  function ScheduleAll(c: Clock, rs: seq<Request>): Clock {
    if rs == [] then c else Schedule(ScheduleAll(c, rs[..|rs| - 1]), rs[|rs| - 1])
  }

  /** Call the handler of an interrupt that was taken off the list. */
  function Fire(c: Clock, p: Pending, script: Script): Clock {
    var r := script(|c.fired|);
    ScheduleAll(c.(fired := c.fired + [Firing(p, c.total)], yieldOnReturn := c.yieldOnReturn || r.yielding), r.requests)
  }

  /** Check whether an interrupt is due, and fire it.  In idle mode the clock may be advanced to the
      next interrupt, and a timer that is alone on the list is put back. */
  function CheckIfDue(c: Clock, status: MachineStatus, advance: bool, script: Script): (Clock, bool) {
    if c.pending == [] then (c, false) else
      var e, rest := c.pending[0], c.pending[1..];
      if !advance && e.key > c.total then (c.(pending := Insert(rest, e)), false) else
        var d := if e.key > c.total then c.(pending := rest, idle := c.idle + (e.key - c.total), total := e.key)
                 else c.(pending := rest);
        if status == IdleMode && e.item.kind == TimerInt && rest == [] then (d.(pending := Insert(rest, e)), false)
        else (Fire(d, e.item, script), true)
  }

  /** How many pending interrupts are due at time `t`. */
  function Due(s: seq<Entry<Pending>>, t: int): nat {
    if s == [] then 0 else (if s[0].key <= t then 1 else 0) + Due(s[1..], t)
  }

  lemma {:induction false} DueInsert(s: seq<Entry<Pending>>, e: Entry<Pending>, t: int)
    ensures Due(Insert(s, e), t) == Due(s, t) + if e.key <= t then 1 else 0
  {
    if !(s == [] || e.key < s[0].key) {
      DueInsert(s[1..], e, t);
    }
  }

  ghost predicate Future(rs: seq<Request>) {
    forall i :: 0 <= i < |rs| ==> rs[i].fromNow > 0
  }

  /** Requests that lie in the future change neither the time nor what is due. */
  lemma {:induction false} ScheduleAllDue(c: Clock, rs: seq<Request>)
    requires Future(rs)
    ensures var d := ScheduleAll(c, rs);
            && Due(d.pending, d.total) == Due(c.pending, c.total)
            && d.total == c.total && d.idle == c.idle && d.system == c.system && d.user == c.user
            && d.fired == c.fired && d.yieldOnReturn == c.yieldOnReturn
  {
    if rs != [] {
      var c1, r := ScheduleAll(c, rs[..|rs| - 1]), rs[|rs| - 1];
      ScheduleAllDue(c, rs[..|rs| - 1]);
      DueInsert(c1.pending, Entry(Pending(|c1.log|, c1.total + r.fromNow, r.kind), c1.total + r.fromNow), c1.total);
    }
  }

  /** Every interrupt that fires leaves one less due: the loop that fires them ends. */
  lemma FiringReducesDue(c: Clock, status: MachineStatus, script: Script)
    requires CheckIfDue(c, status, false, script).1
    ensures var d := CheckIfDue(c, status, false, script).0; Due(d.pending, d.total) < Due(c.pending, c.total)
  {
    var e := c.pending[0];
    var r := script(|c.fired|);
    ScheduleAllDue(c.(pending := c.pending[1..], fired := c.fired + [Firing(e.item, c.total)],
                      yieldOnReturn := c.yieldOnReturn || r.yielding), r.requests);
  }

  /** The loop `while (CheckIfDue(FALSE))`. */
  function FireDue(c: Clock, status: MachineStatus, script: Script): Clock
    decreases Due(c.pending, c.total)
  {
    var (d, more) := CheckIfDue(c, status, false, script);
    if more then
      FiringReducesDue(c, status, script);
      FireDue(d, status, script)
    else d
  }

  /** OneTick, up to the context switch, */
  function OneTick(c: Clock, status: MachineStatus, script: Script): Clock {
    FireDue(Ticked(c, status), status, script).(yieldOnReturn := false)
  }

  /** which is made if a handler has asked for it. */
  predicate Switches(c: Clock, status: MachineStatus, script: Script) {
    FireDue(Ticked(c, status), status, script).yieldOnReturn
  }

  /** Simulated time advances. */
  function Ticked(c: Clock, status: MachineStatus): Clock {
    if status == SystemMode then c.(total := c.total + SystemTick, system := c.system + SystemTick)
    else c.(total := c.total + UserTick, user := c.user + UserTick)
  }

  /** Idle; the flag says whether the machine goes on rather than halts. */
  function Idle(c: Clock, script: Script): (Clock, bool) {
    var (d, more) := CheckIfDue(c, IdleMode, true, script);
    if more then (FireDue(d, IdleMode, script).(yieldOnReturn := false), true) else (d, false)
  }

  // What holds in every run

  /** The interrupts that have fired. */
  function Fired(f: seq<Firing>): seq<Pending> {
    if f == [] then [] else Fired(f[..|f| - 1]) + [f[|f| - 1].what]
  }

  /** The invariant.  No pending interrupt is overdue by more than `late` ticks. */
  ghost predicate Sound(c: Clock, late: int) {
    && Queue(c.pending, c.total - late)
    && c.total == c.idle + c.system + c.user
    && Conserved(c.pending, c.fired, c.log)
    && History(c.fired, c.total)
    && Precedes(c.fired, c.pending)
  }

  /** What was scheduled is either pending or has fired. */
  ghost predicate Conserved(pending: seq<Entry<Pending>>, fired: seq<Firing>, log: seq<Pending>) {
    multiset(ItemsOf(pending)) + multiset(Fired(fired)) == multiset(log) && forall i :: 0 <= i < |log| ==> log[i].id == i
  }

  ghost predicate History(fired: seq<Firing>, total: int) {
    InOrder(fired) && forall f :: f in fired ==> Timely(f) && f.what.when <= total
  }

  ghost predicate Precedes(fired: seq<Firing>, pending: seq<Entry<Pending>>) {
    forall f, e :: f in fired && e in pending ==> f.what.when <= e.key
  }

  ghost predicate InOrder(f: seq<Firing>) {
    forall i, j :: 0 <= i < j < |f| ==> f[i].what.when <= f[j].what.when
  }

  /** Not before its time, and at most one system tick after it. */
  ghost predicate Timely(f: Firing) {
    f.what.when <= f.at <= f.what.when + SystemTick
  }

  lemma {:induction false} ItemsInsert(s: seq<Entry<Pending>>, e: Entry<Pending>)
    ensures multiset(ItemsOf(Insert(s, e))) == multiset(ItemsOf(s)) + multiset{e.item}
  {
    if s == [] || e.key < s[0].key {
      assert ([e] + s)[1..] == s;
    } else {
      ItemsInsert(s[1..], e);
      assert ([s[0]] + Insert(s[1..], e))[1..] == Insert(s[1..], e);
    }
  }

  lemma InsertMembers(s: seq<Entry<Pending>>, e: Entry<Pending>)
    ensures forall x :: x in Insert(s, e) <==> x in s || x == e
  {
  }

  /** Conditions on the list of pending interrupts alone. */
  ghost predicate Queue(s: seq<Entry<Pending>>, from: int) {
    Sorted(s) && forall e :: e in s ==> e.key == e.item.when && from <= e.key
  }

  lemma InsertQueue(s: seq<Entry<Pending>>, e: Entry<Pending>, from: int)
    requires Queue(s, from) && e.key == e.item.when && from <= e.key
    ensures Queue(Insert(s, e), from)
  {
    InsertSorted(s, e);
    InsertMembers(s, e);
  }

  lemma ScheduleSound(c: Clock, r: Request, late: nat)
    requires Sound(c, late) && r.fromNow > 0
    ensures Sound(Schedule(c, r), late)
  {
    var p := Pending(|c.log|, c.total + r.fromNow, r.kind);
    var e := Entry(p, p.when);
    InsertQueue(c.pending, e, c.total - late);
    ConservedSchedule(c.pending, c.fired, c.log, e);
    PrecedesInsert(c.fired, c.pending, e, c.total);
  }

  lemma PrecedesInsert(fired: seq<Firing>, pending: seq<Entry<Pending>>, e: Entry<Pending>, total: int)
    requires Precedes(fired, pending) && History(fired, total) && total <= e.key
    ensures Precedes(fired, Insert(pending, e))
  {
  }

  lemma ConservedSchedule(pending: seq<Entry<Pending>>, fired: seq<Firing>, log: seq<Pending>, e: Entry<Pending>)
    requires Conserved(pending, fired, log) && e.item.id == |log|
    ensures Conserved(Insert(pending, e), fired, log + [e.item])
  {
    ItemsInsert(pending, e);
    assert multiset(log + [e.item]) == multiset(log) + multiset{e.item};
  }

  lemma ConservedFire(pending: seq<Entry<Pending>>, fired: seq<Firing>, log: seq<Pending>, f: Firing)
    requires pending != [] && Conserved(pending, fired, log) && f.what == pending[0].item
    ensures Conserved(pending[1..], fired + [f], log)
  {
  }

  lemma ConservedPutBack(pending: seq<Entry<Pending>>, fired: seq<Firing>, log: seq<Pending>)
    requires pending != [] && Conserved(pending, fired, log)
    ensures Conserved(Insert(pending[1..], pending[0]), fired, log)
  {
    ItemsInsert(pending[1..], pending[0]);
    assert multiset(ItemsOf(pending)) == multiset{pending[0].item} + multiset(ItemsOf(pending[1..]));
  }

  lemma {:induction false} ScheduleAllSound(c: Clock, rs: seq<Request>, late: nat)
    requires Sound(c, late) && Future(rs)
    ensures Sound(ScheduleAll(c, rs), late)
  {
    if rs != [] {
      ScheduleAllSound(c, rs[..|rs| - 1], late);
      ScheduleSound(ScheduleAll(c, rs[..|rs| - 1]), rs[|rs| - 1], late);
    }
  }

  /** The clock with its first interrupt taken off the list, at its time if that is not yet reached. */
  function Taken(c: Clock): Clock
    requires c.pending != []
  {
    var e, rest := c.pending[0], c.pending[1..];
    if e.key > c.total then c.(pending := rest, idle := c.idle + (e.key - c.total), total := e.key) else c.(pending := rest)
  }

  lemma HistoryExtend(fired: seq<Firing>, f: Firing, total: int, total': int)
    requires History(fired, total) && total <= total' && Timely(f) && f.what.when <= total'
    requires forall g :: g in fired ==> g.what.when <= f.what.when
    ensures History(fired + [f], total')
  {
  }

  lemma QueueRest(s: seq<Entry<Pending>>, from: int)
    requires s != [] && Queue(s, from)
    ensures Queue(s[1..], s[0].key) && s[0].key == s[0].item.when && from <= s[0].key
  {
  }

  lemma QueueFrom(s: seq<Entry<Pending>>, from: int, from': int)
    requires Queue(s, from) && from' <= from
    ensures Queue(s, from')
  {
  }

  /** Firing the first interrupt, at most a system tick late, keeps the invariant. */
  lemma FireSound(c: Clock, script: Script, late: nat)
    requires Sound(c, late) && late <= SystemTick && c.pending != []
    ensures Sound(Fire(Taken(c), c.pending[0].item, script), late)
  {
    var r := script(|c.fired|);
    TakenSound(c, late, r.yielding);
    ScheduleAllSound(Called(c, r.yielding), r.requests, late);
  }

  /** The clock when the handler of the first interrupt is called. */
  function Called(c: Clock, yielding: bool): Clock
    requires c.pending != []
  {
    var d := Taken(c);
    d.(fired := d.fired + [Firing(c.pending[0].item, d.total)], yieldOnReturn := d.yieldOnReturn || yielding)
  }

  lemma TakenSound(c: Clock, late: nat, yielding: bool)
    requires Sound(c, late) && late <= SystemTick && c.pending != []
    ensures Sound(Called(c, yielding), late)
  {
    var e, rest, d := c.pending[0], c.pending[1..], Taken(c);
    var f := Firing(e.item, d.total);
    QueueRest(c.pending, c.total - late);
    QueueFrom(rest, e.key, d.total - late);
    assert e in c.pending;
    HistoryExtend(c.fired, f, c.total, d.total);
    ConservedFire(c.pending, c.fired, c.log, f);
    PrecedesRest(c.fired, f, c.pending);
  }

  lemma PrecedesRest(fired: seq<Firing>, f: Firing, s: seq<Entry<Pending>>)
    requires s != [] && Precedes(fired, s) && Queue(s[1..], s[0].key) && f.what.when == s[0].key
    ensures Precedes(fired + [f], s[1..])
  {
  }

  /** Putting the first interrupt back keeps the invariant, whether the clock was advanced or not. */
  lemma PutBackSound(c: Clock, late: nat)
    requires Sound(c, late) && c.pending != []
    ensures Sound(c.(pending := Insert(c.pending[1..], c.pending[0])), late)
  {
    var e, rest := c.pending[0], c.pending[1..];
    QueueRest(c.pending, c.total - late);
    InsertQueue(rest, e, e.key);
    QueueFrom(Insert(rest, e), e.key, c.total - late);
    ConservedPutBack(c.pending, c.fired, c.log);
    SameMembers(c.pending);
  }

  lemma PrecedesPutBack(fired: seq<Firing>, s: seq<Entry<Pending>>)
    requires s != [] && Precedes(fired, s)
    ensures Precedes(fired, Insert(s[1..], s[0]))
  {
    SameMembers(s);
  }

  lemma AdvancedPutBackSound(c: Clock, late: nat)
    requires Sound(c, late) && c.pending != []
    ensures Sound(Taken(c).(pending := Insert(c.pending[1..], c.pending[0])), late)
  {
    var e, rest := c.pending[0], c.pending[1..];
    QueueRest(c.pending, c.total - late);
    InsertQueue(rest, e, e.key);
    QueueFrom(Insert(rest, e), e.key, Taken(c).total - late);
    ConservedPutBack(c.pending, c.fired, c.log);
    PrecedesPutBack(c.fired, c.pending);
    LaterHistory(c.fired, c.total, Taken(c).total);
  }

  lemma SameMembers(s: seq<Entry<Pending>>)
    requires s != []
    ensures forall x :: x in Insert(s[1..], s[0]) <==> x in s
  {
    InsertMembers(s[1..], s[0]);
    assert s == [s[0]] + s[1..];
  }

  lemma LaterHistory(fired: seq<Firing>, total: int, total': int)
    requires History(fired, total) && total <= total'
    ensures History(fired, total')
  {
  }

  lemma CheckIfDueSound(c: Clock, status: MachineStatus, advance: bool, script: Script, late: nat)
    requires Sound(c, late) && late <= SystemTick
    ensures Sound(CheckIfDue(c, status, advance, script).0, late)
  {
    if c.pending != [] {
      FireSound(c, script, late);
      PutBackSound(c, late);
      AdvancedPutBackSound(c, late);
    }
  }

  /** When nothing more fires, nothing is due, except for a lone timer of an idle machine. */
  lemma NothingDue(c: Clock, status: MachineStatus, script: Script, late: nat)
    requires Sound(c, late) && !CheckIfDue(c, status, false, script).1
    ensures NoneDue(CheckIfDue(c, status, false, script).0, status)
  {
    if c.pending != [] {
      InsertMembers(c.pending[1..], c.pending[0]);
    }
  }

  /** The loop keeps the invariant, */
  lemma {:induction false} FireDueSound(c: Clock, status: MachineStatus, script: Script, late: nat)
    requires Sound(c, late) && late <= SystemTick
    ensures Sound(FireDue(c, status, script), late)
    decreases Due(c.pending, c.total)
  {
    CheckIfDueSound(c, status, false, script, late);
    var (d, more) := CheckIfDue(c, status, false, script);
    if more {
      FiringReducesDue(c, status, script);
      FireDueSound(d, status, script, late);
    }
  }

  ghost predicate NoneDue(c: Clock, status: MachineStatus) {
    || (forall e :: e in c.pending ==> c.total < e.key)
    || (status == IdleMode && |c.pending| == 1 && c.pending[0].item.kind == TimerInt)
  }

  /** and when it ends nothing is overdue. */
  lemma {:induction false} FireDueEnds(c: Clock, status: MachineStatus, script: Script, late: nat)
    requires Sound(c, late) && late <= SystemTick
    ensures NoneDue(FireDue(c, status, script), status)
    decreases Due(c.pending, c.total)
  {
    var (d, more) := CheckIfDue(c, status, false, script);
    if more {
      CheckIfDueSound(c, status, false, script, late);
      FiringReducesDue(c, status, script);
      FireDueEnds(d, status, script, late);
    } else {
      NothingDue(c, status, script, late);
    }
  }

  /** A tick keeps the invariant, and afterwards every pending interrupt lies in the future. */
  lemma OneTickSound(c: Clock, status: MachineStatus, script: Script)
    requires Sound(c, 0) && status != IdleMode
    ensures Sound(OneTick(c, status, script), 0)
    ensures forall e :: e in OneTick(c, status, script).pending ==> OneTick(c, status, script).total < e.key
  {
    TickedSound(c, status);
    FireDueSound(Ticked(c, status), status, script, SystemTick);
    FireDueEnds(Ticked(c, status), status, script, SystemTick);
    NothingOverdue(OneTick(c, status, script), SystemTick);
  }

  lemma TickedSound(c: Clock, status: MachineStatus)
    requires Sound(c, 0)
    ensures Sound(Ticked(c, status), SystemTick)
  {
  }

  lemma NothingOverdue(c: Clock, late: nat)
    requires Sound(c, late) && forall e :: e in c.pending ==> c.total < e.key
    ensures Sound(c, 0)
  {
  }

  lemma IdleSound(c: Clock, script: Script)
    requires Sound(c, 0)
    ensures Sound(Idle(c, script).0, 0)
  {
    CheckIfDueSound(c, IdleMode, true, script, 0);
    var (d, more) := CheckIfDue(c, IdleMode, true, script);
    if more {
      FireDueSound(d, IdleMode, script, 0);
    }
  }

  /** What happens to the clock in a run: ticks, idling, and devices that schedule interrupts. */
  datatype Event = Tick(status: MachineStatus) | Wait | Device(request: Request)

  ghost predicate Possible(ev: Event) {
    (ev.Tick? ==> ev.status != IdleMode) && (ev.Device? ==> ev.request.fromNow > 0)
  }

  function Step(c: Clock, ev: Event, script: Script): Clock {
    match ev
    case Tick(status) => OneTick(c, status, script)
    case Wait => Idle(c, script).0
    case Device(r) => Schedule(c, r)
  }

  function Run(events: seq<Event>, script: Script): Clock {
    if events == [] then Clock(0, 0, 0, 0, [], [], [], false)
    else Step(Run(events[..|events| - 1], script), events[|events| - 1], script)
  }

  /** The invariant holds in every run, whatever the handlers do. */
  lemma {:induction false} RunSound(events: seq<Event>, script: Script)
    requires forall i :: 0 <= i < |events| ==> Possible(events[i])
    ensures Sound(Run(events, script), 0)
  {
    if events != [] {
      var before, ev := events[..|events| - 1], events[|events| - 1];
      RunSound(before, script);
      match ev
      case Tick(status) => OneTickSound(Run(before, script), status, script);
      case Wait => IdleSound(Run(before, script), script);
      case Device(r) => ScheduleSound(Run(before, script), r, 0);
    }
  }

  /** In every run each scheduled interrupt is either pending once or has fired once. */
  lemma PendingOrFiredOnce(events: seq<Event>, script: Script, id: nat)
    requires forall i :: 0 <= i < |events| ==> Possible(events[i])
    requires id < |Run(events, script).log|
    ensures var c := Run(events, script);
            multiset(ItemsOf(c.pending))[c.log[id]] + multiset(Fired(c.fired))[c.log[id]] == 1
  {
    RunSound(events, script);
    var c := Run(events, script);
    OccursOnce(c.log, id);
  }

  lemma OccursOnce(log: seq<Pending>, id: nat)
    requires id < |log| && forall i :: 0 <= i < |log| ==> log[i].id == i
    ensures multiset(log)[log[id]] == 1
  {
    assert log == log[..id] + [log[id]] + log[id + 1..];
    assert log[id] !in log[..id] && log[id] !in log[id + 1..];
  }

  /** Interrupts fire in the order of their due times, never early and never more than a system tick
      late; and the ticks add up. */
  lemma FiredInOrderAndOnTime(events: seq<Event>, script: Script)
    requires forall i :: 0 <= i < |events| ==> Possible(events[i])
    ensures var c := Run(events, script);
            && InOrder(c.fired)
            && (forall f :: f in c.fired ==> f.what.when <= f.at <= f.what.when + SystemTick)
            && c.total == c.idle + c.system + c.user
  {
    RunSound(events, script);
  }
}
