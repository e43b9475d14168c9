/** The event slots and the kernel's interest set of cs/my_event/epoll.c. */
module EpollBook {
  import opened Basics

  // struct event, as far as this file reads it; signal events are left out.
  class Event {
    const fd: nat      // ev_fd
    const onRead: bool  // EV_READ in ev_events
    const onWrite: bool // EV_WRITE in ev_events

    constructor (fd: nat, onRead: bool, onWrite: bool)
      ensures this.fd == fd && this.onRead == onRead && this.onWrite == onWrite
    {
      this.fd, this.onRead, this.onWrite := fd, onRead, onWrite;
    }
  }

  // struct evepoll
  datatype Slots = Slots(evread: Event?, evwrite: Event?)

  // struct epoll_event: EPOLLIN, EPOLLOUT, and data.ptr as an index into fds.
  datatype Interest = Interest(input: bool, output: bool, evep: nat)

  datatype Op = CtlAdd | CtlMod | CtlDel

  // The state of one epollop: fds, and what epfd stands for.
  datatype Book = Book(slots: seq<Slots>, kernel: map<nat, Interest>)

  const NOBODY := Slots(null, null)

  // What the kernel should watch for a pair of slots.
  function InterestOf(s: Slots, fd: nat): Interest {
    Interest(s.evread != null, s.evwrite != null, fd)
  }

  predicate SlotAgrees(b: Book, fd: nat)
    requires fd < |b.slots|
  {
    if b.slots[fd] == NOBODY then fd !in b.kernel
    else fd in b.kernel && b.kernel[fd] == InterestOf(b.slots[fd], fd)
  }

  // A descriptor is in the interest set exactly when one of its slots is taken, for exactly its slots.
  ghost predicate Agrees(b: Book) {
    && (forall fd {:trigger SlotAgrees(b, fd)} :: 0 <= fd < |b.slots| ==> SlotAgrees(b, fd))
    && (forall fd <- b.kernel :: fd < |b.slots|)
  }

  // epoll_ctl: ADD needs absence, MOD and DEL presence, ADD and MOD an epoll_event; else it returns -1.
  predicate Legal(kernel: map<nat, Interest>, op: Op, fd: nat, epev: Option<Interest>) {
    match op
    case CtlAdd => fd !in kernel && epev.Some?
    case CtlMod => fd in kernel && epev.Some?
    case CtlDel => fd in kernel
  }

  function Controlled(kernel: map<nat, Interest>, op: Op, fd: nat, epev: Option<Interest>): map<nat, Interest> {
    if !Legal(kernel, op, fd, epev) then kernel
    else if op == CtlDel then kernel - {fd}
    else kernel[fd := epev.value]
  }

  // The meaning of an add and of a del, on the slots of one descriptor.
  function Added(s: Slots, ev: Event): Slots {
    Slots(if ev.onRead then ev else s.evread, if ev.onWrite then ev else s.evwrite)
  }

  function Removed(s: Slots, ev: Event): Slots {
    Slots(if ev.onRead || !ev.onWrite then null else s.evread, if ev.onWrite || !ev.onRead then null else s.evwrite)
  }

  function Put(b: Book, fd: nat, s: Slots): Book
    requires fd < |b.slots|
  {
    Book(b.slots[fd := s], if s == NOBODY then b.kernel - {fd} else b.kernel[fd := InterestOf(s, fd)])
  }

  lemma PutAgrees(b: Book, fd: nat, s: Slots)
    requires Agrees(b) && fd < |b.slots|
    ensures Agrees(Put(b, fd, s))
  {
    var b' := Put(b, fd, s);
    forall k {:trigger SlotAgrees(b', k)} | 0 <= k < |b'.slots| ensures SlotAgrees(b', k) {
      assert SlotAgrees(b, k);
    }
  }

  datatype Call = Add(ev: Event) | Del(ev: Event)

  function After(s: Slots, c: Call): Slots {
    if c.Add? then Added(s, c.ev) else Removed(s, c.ev)
  }

  // The operation chosen: an add modifies what is taken already, a del what stays taken.
  function Chosen(s: Slots, c: Call): Op {
    if c.Add? then (if s == NOBODY then CtlAdd else CtlMod)
    else if After(s, c) == NOBODY then CtlDel else CtlMod
  }

  // The epoll_event given to epoll_ctl; a del gives it only when `passes`.
  function Given(s: Slots, c: Call, passes: bool): Option<Interest> {
    if c.Add? || passes then Some(InterestOf(After(s, c), c.ev.fd)) else None
  }

  // What a call does, in any state.
  function Step(b: Book, c: Call, passes: bool): Book {
    var fd := c.ev.fd;
    if fd >= |b.slots| then b
    else
      var s := b.slots[fd];
      Book(b.slots[fd := After(s, c)], Controlled(b.kernel, Chosen(s, c), fd, Given(s, c, passes)))
  }

  // Whether the operation chosen is accepted.
  predicate Accepted(b: Book, c: Call, passes: bool)
    requires c.ev.fd < |b.slots|
  {
    var s := b.slots[c.ev.fd];
    Legal(b.kernel, Chosen(s, c), c.ev.fd, Given(s, c, passes))
  }

  // Whether a call keeps slots and interest set in agreement.
  predicate Keeps(b: Book, c: Call) {
    c.Add? && c.ev.fd < |b.slots| ==> c.ev.onRead || c.ev.onWrite || b.slots[c.ev.fd] != NOBODY
  }

  // While slots and interest set agree, a call that keeps them so registers exactly the slots it leaves.
  lemma StepPuts(b: Book, c: Call)
    requires Agrees(b) && c.ev.fd < |b.slots| && Keeps(b, c)
    ensures Step(b, c, true) == Put(b, c.ev.fd, After(b.slots[c.ev.fd], c))
    ensures Accepted(b, c, true) <==> c.Add? || b.slots[c.ev.fd] != NOBODY
  {
    var fd, s := c.ev.fd, After(b.slots[c.ev.fd], c);
    assert SlotAgrees(b, fd);
    if s == NOBODY {
      assert fd !in b.kernel ==> b.kernel - {fd} == b.kernel;
    }
  }

  // An add without flags, for a descriptor nobody waits on, makes the kernel watch it for nothing; every other
  // call keeps slots and interest set in agreement.
  lemma StepAgrees(b: Book, c: Call)
    requires Agrees(b)
    ensures Agrees(Step(b, c, true)) <==> Keeps(b, c)
  {
    if c.ev.fd < |b.slots| {
      assert SlotAgrees(b, c.ev.fd);
      if Keeps(b, c) {
        StepPuts(b, c);
        PutAgrees(b, c.ev.fd, After(b.slots[c.ev.fd], c));
      } else {
        assert !SlotAgrees(Step(b, c, true), c.ev.fd);
      }
    }
  }

  // With NULL for the epoll_event, a del is refused unless it empties slots of which one was taken, and it
  // keeps the agreement exactly unless both slots are taken and the event has one flag.
  lemma NullAgrees(b: Book, ev: Event)
    requires Agrees(b) && ev.fd < |b.slots|
    ensures var s := b.slots[ev.fd];
      && (Accepted(b, Del(ev), false) <==> s != NOBODY && Removed(s, ev) == NOBODY)
      && (Agrees(Step(b, Del(ev), false)) <==> !(ev.onRead != ev.onWrite && s.evread != null && s.evwrite != null))
  {
    var s, t, fd := b.slots[ev.fd], Removed(b.slots[ev.fd], ev), ev.fd;
    var b' := Step(b, Del(ev), false);
    assert SlotAgrees(b, fd);
    if t == NOBODY || s == t {
      StepPuts(b, Del(ev));
      PutAgrees(b, fd, t);
      assert t != NOBODY ==> b.kernel[fd := InterestOf(t, fd)] == b.kernel;
      assert b' == Put(b, fd, t);
    } else {
      assert !SlotAgrees(b', fd);
    }
  }

  // What the two calls promise where slots and interest set agree.

  lemma AddAgrees(b: Book, ev: Event)
    requires ev.fd < |b.slots|
    ensures Agrees(b) ==> (Agrees(Step(b, Add(ev), true)) <==> Keeps(b, Add(ev))) && Accepted(b, Add(ev), true)
  {
    if Agrees(b) {
      StepAgrees(b, Add(ev));
      assert SlotAgrees(b, ev.fd);
    }
  }

  lemma DelAgrees(b: Book, ev: Event)
    requires ev.fd < |b.slots|
    ensures Agrees(b) ==>
      && Agrees(Step(b, Del(ev), true)) && (Accepted(b, Del(ev), true) <==> b.slots[ev.fd] != NOBODY)
      && (Agrees(Step(b, Del(ev), false)) <==>
          !(ev.onRead != ev.onWrite && b.slots[ev.fd].evread != null && b.slots[ev.fd].evwrite != null))
  {
    if Agrees(b) {
      StepAgrees(b, Del(ev));
      StepPuts(b, Del(ev));
      NullAgrees(b, ev);
    }
  }

  const START := Book([NOBODY], map[])

  // A read event and a write event added to one descriptor reach such a state.
  lemma NullLoses(r: Event, w: Event)
    requires r.fd == w.fd == 0 && r.onRead && !r.onWrite && w.onWrite && !w.onRead
    ensures var b := Step(Step(START, Add(r), true), Add(w), true);
      Agrees(b) && !Accepted(b, Del(r), false) && !Agrees(Step(b, Del(r), false))
  {
    assert SlotAgrees(START, 0);
    StepAgrees(START, Add(r));
    var b1 := Step(START, Add(r), true);
    assert b1.slots == [Slots(r, null)];
    StepAgrees(b1, Add(w));
    var b2 := Step(b1, Add(w), true);
    assert b2.slots == [Slots(r, w)];
    NullAgrees(b2, r);
  }

  // After an add without flags the next add is refused: its event waits, and the kernel watches for nothing.
  lemma EmptyAddDeafens(e: Event, r: Event)
    requires e.fd == r.fd == 0 && !e.onRead && !e.onWrite && r.onRead
    ensures var b := Step(START, Add(e), true);
      && !Accepted(b, Add(r), true)
      && Step(b, Add(r), true).slots[0].evread == r
      && Step(b, Add(r), true).kernel == map[0 := Interest(false, false, 0)]
  {
    var b := Step(START, Add(e), true);
    assert b.slots == [NOBODY] && b.kernel == map[0 := Interest(false, false, 0)];
  }

  // What epoll_wait reports about one descriptor.
  datatype Report = Report(evep: nat, input: bool, output: bool, hup: bool, err: bool)

  datatype Waited = Failed | Interrupted | Ready(reports: seq<Report>)

  // Why an event is active: EV_READ or EV_WRITE.
  datatype Reason = ForRead | ForWrite

  // A report selects a slot by its own bit, or both by a hangup or an error.
  predicate Selects(r: Report, why: Reason) {
    r.hup || r.err || (if why == ForRead then r.input else r.output)
  }

  function Slot(s: Slots, why: Reason): Event? {
    if why == ForRead then s.evread else s.evwrite
  }

  function Picked(s: Slots, r: Report, why: Reason): seq<(Event, Reason)> {
    if Selects(r, why) && Slot(s, why) != null then [(Slot(s, why), why)] else []
  }

  // What a run of reports activates, in order.
  function Activations(slots: seq<Slots>, reports: seq<Report>): seq<(Event, Reason)>
    requires forall r <- reports :: r.evep < |slots|
    decreases |reports|
  {
    if reports == [] then [] else
    var n := |reports| - 1;
    var r := reports[n];
    Activations(slots, reports[..n]) + Picked(slots[r.evep], r, ForRead) + Picked(slots[r.evep], r, ForWrite)
  }

  class Epoll {
    const fds: array<Slots>                // fds, of length nfds
    var kernel: map<nat, Interest>         // the interest set behind epfd
    var refused: nat                       // how many epoll_ctl calls have failed
    var active: seq<(Event, Reason)>       // the calls of event_active

    ghost function Now(): Book
      reads this, fds
    {
      Book(fds[..], kernel)
    }

    // epoll_init
    constructor (nfiles: nat)
      ensures fds.Length == nfiles && fresh(fds)
      ensures Agrees(Now()) && kernel == map[] && refused == 0 && active == []
      ensures forall i | 0 <= i < nfiles :: fds[i] == NOBODY
    {
      fds := new Slots[nfiles](_ => NOBODY);
      kernel, refused, active := map[], 0, [];
      new;
      forall fd {:trigger SlotAgrees(Now(), fd)} | 0 <= fd < |Now().slots| ensures SlotAgrees(Now(), fd) {
        assert Now().slots[fd] == fds[fd];
      }
    }

    // epoll_ctl
    method Control(op: Op, fd: nat, epev: Option<Interest>) returns (code: int)
      modifies `kernel, `refused
      ensures code == if Legal(old(kernel), op, fd, epev) then 0 else -1
      ensures kernel == Controlled(old(kernel), op, fd, epev)
      ensures refused == if code == 0 then old(refused) else old(refused) + 1
    {
      if !Legal(kernel, op, fd, epev) {
        refused := refused + 1;
        return -1;
      }
      match op {
        case CtlDel => kernel := kernel - {fd};
        case _ => kernel := kernel[fd := epev.value];
      }
      code := 0;
    }

    // epoll_add
    method EpollAdd(ev: Event) returns (code: int)
      modifies `kernel, `refused, fds
      ensures code == if ev.fd >= fds.Length then -1 else 0
      ensures Now() == Step(old(Now()), Add(ev), true)
      ensures old(Agrees(Now())) ==> (Agrees(Now()) <==> Keeps(old(Now()), Add(ev))) && refused == old(refused)
    {
      var fd := ev.fd;
      if fd >= fds.Length {
        return -1;
      }
      ghost var was := Now();
      assert was.slots[fd] == fds[fd];
      var evep, op, input, output := fds[fd], CtlAdd, false, false;
      if evep.evread != null {
        input, op := true, CtlMod;
      }
      if evep.evwrite != null {
        output, op := true, CtlMod;
      }
      if ev.onRead {
        input := true;
      }
      if ev.onWrite {
        output := true;
      }
      var _ := Control(op, fd, Some(Interest(input, output, fd)));
      if ev.onRead {
        fds[fd] := fds[fd].(evread := ev);
      }
      if ev.onWrite {
        fds[fd] := fds[fd].(evwrite := ev);
      }
      assert fds[..] == was.slots[fd := Added(evep, ev)];
      AddAgrees(was, ev);
      code := 0;
    }

    // epoll_del, passing &epev to epoll_ctl as line 242 does when `passes`, or NULL as line 243 does.
    method EpollDel(ev: Event, passes: bool) returns (code: int)
      modifies `kernel, `refused, fds
      ensures Now() == Step(old(Now()), Del(ev), passes)
      ensures code == if ev.fd < fds.Length && !Accepted(old(Now()), Del(ev), passes) then -1 else 0
      ensures refused == if code == 0 then old(refused) else old(refused) + 1
      ensures old(Agrees(Now())) && passes ==> Agrees(Now())
      ensures old(Agrees(Now())) && passes ==> (code == -1 <==> ev.fd < fds.Length && old(fds[ev.fd]) == NOBODY)
      ensures old(Agrees(Now())) && !passes ==> (Agrees(Now()) <==> ev.fd < fds.Length ==>
        !(ev.onRead != ev.onWrite && old(fds[ev.fd]).evread != null && old(fds[ev.fd]).evwrite != null))
    {
      var fd := ev.fd;
      if fd >= fds.Length {
        return 0;
      }
      ghost var was := Now();
      var evep := fds[fd];
      assert was.slots[fd] == evep;
      var op, needReadDelete, needWriteDelete, input, output := CtlDel, true, true, ev.onRead, ev.onWrite;
      if !(input && output) {
        if input && evep.evwrite != null {
          needWriteDelete, input, output, op := false, false, true, CtlMod;
        } else if output && evep.evread != null {
          needReadDelete, input, output, op := false, true, false, CtlMod;
        }
      }
      if needReadDelete {
        fds[fd] := fds[fd].(evread := null);
      }
      if needWriteDelete {
        fds[fd] := fds[fd].(evwrite := null);
      }
      code := Control(op, fd, if passes then Some(Interest(input, output, fd)) else None);
      assert fds[..] == was.slots[fd := Removed(evep, ev)];
      DelAgrees(was, ev);
    }

    // One turn of the loop of epoll_dispatch.
    method Activate(what: Report)
      requires what.evep < fds.Length
      modifies `active
      ensures active ==
        old(active) + Picked(fds[what.evep], what, ForRead) + Picked(fds[what.evep], what, ForWrite)
    {
      var evread: Event?, evwrite: Event? := null, null;
      var evep := fds[what.evep];
      if what.hup || what.err {
        evread, evwrite := evep.evread, evep.evwrite;
      } else {
        if what.input {
          evread := evep.evread;
        }
        if what.output {
          evwrite := evep.evwrite;
        }
      }
      if evread != null {
        active := active + [(evread, ForRead)];
      }
      if evwrite != null {
        active := active + [(evwrite, ForWrite)];
      }
    }

    // epoll_dispatch, once epoll_wait has answered.
    method EpollDispatch(waited: Waited) returns (code: int)
      requires waited.Ready? ==> forall r <- waited.reports :: r.evep < fds.Length
      modifies `active
      ensures code == if waited.Failed? then -1 else 0
      ensures !waited.Ready? ==> active == old(active)
      ensures waited.Ready? ==> active == old(active) + Activations(fds[..], waited.reports)
    {
      match waited {
        case Failed => return -1;
        case Interrupted => return 0;
        case Ready(events) =>
          var i := 0;
          while i < |events|
            invariant 0 <= i <= |events|
            invariant active == old(active) + Activations(fds[..], events[..i])
          {
            Activate(events[i]);
            assert events[..i + 1][..i] == events[..i];
            i := i + 1;
          }
          assert events[..i] == events;
          code := 0;
      }
    }
  }

  // Runs of calls.

  function Run(b: Book, calls: seq<Call>): Book
    decreases |calls|
  {
    if calls == [] then b else Step(Run(b, calls[..|calls| - 1]), calls[|calls| - 1], true)
  }

  predicate Touches(c: Call, fd: nat, why: Reason) {
    c.ev.fd == fd && (if why == ForRead then c.ev.onRead || (c.Del? && !c.ev.onWrite)
                      else c.ev.onWrite || (c.Del? && !c.ev.onRead))
  }

  // Who waits on a descriptor, read off the calls alone: the last call about it and the direction decides.
  function LastWord(calls: seq<Call>, fd: nat, why: Reason): Event?
    decreases |calls|
  {
    if calls == [] then null else
    var c := calls[|calls| - 1];
    if !Touches(c, fd, why) then LastWord(calls[..|calls| - 1], fd, why)
    else if c.Add? then c.ev else null
  }

  ghost predicate Empty(b: Book) {
    b.kernel == map[] && forall fd | 0 <= fd < |b.slots| :: b.slots[fd] == NOBODY
  }

  // After any run of calls each slot holds what the last word about its descriptor and direction says.
  lemma {:induction false} RunIsLastWord(b: Book, calls: seq<Call>)
    requires Empty(b)
    ensures |Run(b, calls).slots| == |b.slots|
    ensures forall fd: nat, why | fd < |b.slots| :: Slot(Run(b, calls).slots[fd], why) == LastWord(calls, fd, why)
    decreases |calls|
  {
    if calls == [] {
    } else {
      var before := calls[..|calls| - 1];
      RunIsLastWord(b, before);
      var was := Run(b, before);
      forall fd: nat, why | fd < |b.slots|
        ensures Slot(Run(b, calls).slots[fd], why) == LastWord(calls, fd, why)
      {
        assert Slot(was.slots[fd], why) == LastWord(before, fd, why);
      }
    }
  }

  // While every event added has a flag, slots and interest set agree throughout.
  lemma {:induction false} RunAgrees(b: Book, calls: seq<Call>)
    requires Empty(b) && forall c <- calls :: c.Add? ==> c.ev.onRead || c.ev.onWrite
    ensures Agrees(Run(b, calls))
    decreases |calls|
  {
    if calls == [] {
      forall fd {:trigger SlotAgrees(b, fd)} | 0 <= fd < |b.slots| ensures SlotAgrees(b, fd) {
      }
    } else {
      RunAgrees(b, calls[..|calls| - 1]);
      StepAgrees(Run(b, calls[..|calls| - 1]), calls[|calls| - 1]);
    }
  }

  // The interest set, read off the calls.
  lemma KernelIsLastWord(b: Book, calls: seq<Call>, fd: nat)
    requires Empty(b) && fd < |b.slots|
    requires forall c <- calls :: c.Add? ==> c.ev.onRead || c.ev.onWrite
    ensures var k, r, w := Run(b, calls).kernel, LastWord(calls, fd, ForRead), LastWord(calls, fd, ForWrite);
      && (fd in k <==> r != null || w != null)
      && (fd in k ==> k[fd] == Interest(r != null, w != null, fd))
  {
    RunIsLastWord(b, calls);
    RunAgrees(b, calls);
    var b' := Run(b, calls);
    assert SlotAgrees(b', fd);
    assert Slot(b'.slots[fd], ForRead) == LastWord(calls, fd, ForRead);
    assert Slot(b'.slots[fd], ForWrite) == LastWord(calls, fd, ForWrite);
  }

  // Dispatch.

  // An event is activated exactly when it stands in a slot that a report selects.
  lemma {:induction false} ActivatedIff(slots: seq<Slots>, reports: seq<Report>, ev: Event, why: Reason)
    requires forall r <- reports :: r.evep < |slots|
    ensures (ev, why) in Activations(slots, reports) <==>
            exists r <- reports :: Selects(r, why) && Slot(slots[r.evep], why) == ev
    decreases |reports|
  {
    if reports != [] {
      var n := |reports| - 1;
      ActivatedIff(slots, reports[..n], ev, why);
      assert reports == reports[..n] + [reports[n]];
    }
  }

  // Where an activation comes from: the place of the report, and the direction.
  datatype Cause = Cause(place: nat, why: Reason) {
    predicate Before(c: Cause) {
      place < c.place || (place == c.place && why == ForRead && c.why == ForWrite)
    }

    // The report asks for the direction, by its bit or by a hangup or an error, and an event waits for it.
    predicate Counts(slots: seq<Slots>, reports: seq<Report>)
      requires forall r <- reports :: r.evep < |slots|
    {
      && place < |reports|
      && var (r, s) := (reports[place], slots[reports[place].evep]);
         match why
         case ForRead => (r.input || r.hup || r.err) && s.evread != null
         case ForWrite => (r.output || r.hup || r.err) && s.evwrite != null
    }

    function Activation(slots: seq<Slots>, reports: seq<Report>): (Event, Reason)
      requires (forall r <- reports :: r.evep < |slots|) && Counts(slots, reports)
    {
      var s := slots[reports[place].evep];
      if why == ForRead then (s.evread, ForRead) else (s.evwrite, ForWrite)
    }
  }

  // The activations from the places of the first n reports, with their causes: each from its own cause, in the order
  // of the reports, read before write, and no cause left out.
  ghost predicate CausedBy(slots: seq<Slots>, reports: seq<Report>, n: nat, active: seq<(Event, Reason)>,
      causes: seq<Cause>)
    requires forall r <- reports :: r.evep < |slots|
  {
    && |causes| == |active|
    && (forall i :: 0 <= i < |causes| ==> causes[i].place < n && causes[i].Counts(slots, reports))
    && (forall i :: 0 <= i < |causes| ==> active[i] == causes[i].Activation(slots, reports))
    && (forall i, j :: 0 <= i < j < |causes| ==> causes[i].Before(causes[j]))
    && (forall c: Cause :: c.place < n && c.Counts(slots, reports) ==> c in causes)
  }

  // Those of one report.
  function CausesOf(slots: seq<Slots>, reports: seq<Report>, place: nat): (causes: seq<Cause>)
    requires (forall r <- reports :: r.evep < |slots|) && place < |reports|
    ensures forall c <- causes :: c.place == place && c.Counts(slots, reports)
    ensures forall c: Cause :: c.place == place && c.Counts(slots, reports) ==> c in causes
    ensures forall i, j :: 0 <= i < j < |causes| ==> causes[i].Before(causes[j])
  {
    (if Cause(place, ForRead).Counts(slots, reports) then [Cause(place, ForRead)] else [])
    + (if Cause(place, ForWrite).Counts(slots, reports) then [Cause(place, ForWrite)] else [])
  }

  lemma CausesOfReport(slots: seq<Slots>, reports: seq<Report>, place: nat)
    requires (forall r <- reports :: r.evep < |slots|) && place < |reports|
    ensures var (r, causes) := (reports[place], CausesOf(slots, reports, place));
      var active := Picked(slots[r.evep], r, ForRead) + Picked(slots[r.evep], r, ForWrite);
      |causes| == |active| && forall i :: 0 <= i < |causes| ==> active[i] == causes[i].Activation(slots, reports)
  {
  }

  lemma CausedMore(slots: seq<Slots>, reports: seq<Report>, n: nat, active: seq<(Event, Reason)>, causes: seq<Cause>,
      more: seq<(Event, Reason)>, last: seq<Cause>)
    requires (forall r <- reports :: r.evep < |slots|) && n < |reports| && CausedBy(slots, reports, n, active, causes)
    requires last == CausesOf(slots, reports, n) && |last| == |more|
    requires forall i :: 0 <= i < |last| ==> more[i] == last[i].Activation(slots, reports)
    ensures CausedBy(slots, reports, n + 1, active + more, causes + last)
  {
    var all := causes + last;
    forall i | 0 <= i < |all| ensures all[i].place < n + 1 && all[i].Counts(slots, reports) {
      assert i >= |causes| ==> all[i] in last;
    }
    forall i, j | 0 <= i < j < |all| ensures all[i].Before(all[j]) {
      assert j >= |causes| ==> all[j] in last;
    }
    forall c: Cause | c.place < n + 1 && c.Counts(slots, reports) ensures c in all {
      assert c.place == n ==> c in last;
    }
  }

  lemma {:induction false} FirstActivations(slots: seq<Slots>, reports: seq<Report>, n: nat) returns (causes: seq<Cause>)
    requires (forall r <- reports :: r.evep < |slots|) && n <= |reports|
    ensures CausedBy(slots, reports, n, Activations(slots, reports[..n]), causes)
    decreases n
  {
    if n == 0 {
      causes := [];
    } else {
      var before := FirstActivations(slots, reports, n - 1);
      var r, last := reports[n - 1], CausesOf(slots, reports, n - 1);
      var active := Activations(slots, reports[..n - 1]);
      var more := Picked(slots[r.evep], r, ForRead) + Picked(slots[r.evep], r, ForWrite);
      CausesOfReport(slots, reports, n - 1);
      CausedMore(slots, reports, n - 1, active, before, more, last);
      causes := before + last;
      assert reports[..n][..n - 1] == reports[..n - 1];
      assert Activations(slots, reports[..n]) == active + more;
    }
  }

  // Dispatch activates one event for each cause, in order.
  lemma ActivationsInOrder(slots: seq<Slots>, reports: seq<Report>) returns (causes: seq<Cause>)
    requires forall r <- reports :: r.evep < |slots|
    ensures CausedBy(slots, reports, |reports|, Activations(slots, reports), causes)
  {
    causes := FirstActivations(slots, reports, |reports|);
    assert reports[..|reports|] == reports;
  }

  // What the kernel may report about a watched descriptor.
  predicate Expected(kernel: map<nat, Interest>, r: Report) {
    && r.evep in kernel
    && (r.input ==> kernel[r.evep].input) && (r.output ==> kernel[r.evep].output)
    && (r.input || r.output || r.hup || r.err)
  }

  // While slots and interest set agree, no report is for nobody: each bit finds its slot taken, and each
  // report activates an event.
  lemma NoReportIsLost(b: Book, r: Report)
    requires Agrees(b) && Expected(b.kernel, r)
    ensures r.evep < |b.slots|
    ensures r.input ==> b.slots[r.evep].evread != null
    ensures r.output ==> b.slots[r.evep].evwrite != null
    ensures Activations(b.slots, [r]) != []
  {
    assert SlotAgrees(b, r.evep);
    assert [r][..0] == [];
  }
}
