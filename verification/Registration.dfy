// Event registration in src/reactor.c on values: the table of expected events per descriptor and the
// kernel's interest set, which EventAdd and EventDel have to keep in step.

module Registration {
  /** An event mask by its bits: EVENT_WRITABLE 0x01, EVENT_READABLE 0x02, and any other. */
  datatype Mask = Mask(writable: bool, readable: bool, other: bool) {
    /** `this | m` */
    function Or(m: Mask): Mask {
      Mask(writable || m.writable, readable || m.readable, other || m.other)
    }

    /** `this & ~m` */
    function Without(m: Mask): Mask {
      Mask(writable && !m.writable, readable && !m.readable, other && !m.other)
    }

    /** `(this & m) != 0` */
    predicate Meets(m: Mask) {
      (writable && m.writable) || (readable && m.readable) || (other && m.other)
    }
  }

  const EVENT_NONE := Mask(false, false, false)
  const EVENT_WRITABLE := Mask(true, false, false)
  const EVENT_READABLE := Mask(false, true, false)
  const EVENT_BOTH := Mask(true, true, false)

  /** The callbacks in use. */
  datatype Callback = NoCallback | AcceptCallback | RecvCallback | SendCallback

  /** `FdEvent`; `arg` is the connection that the callbacks are called with, or nothing. */
  datatype FdEvent<A> = FdEvent(mask: Mask, onRead: Callback, onWrite: Callback, arg: A)

  /** The events that the kernel watches for a descriptor: EPOLLIN, EPOLLOUT. */
  datatype Interest = Interest(input: bool, output: bool)

  datatype Operation = CtlAdd | CtlMod | CtlDel

  /** `events` is the array of the source, `kernel` the interest list behind `epfd`. */
  datatype Table<A> = Table(events: seq<FdEvent<A>>, kernel: map<int, Interest>)

  datatype Registered<A> = Registered(table: Table<A>, ok: bool)

  /** What `epoll_ctl` refuses: adding what is there, changing or removing what is not. */
  predicate CtlFits(kernel: map<int, Interest>, op: Operation, fd: int) {
    op == CtlAdd <==> fd !in kernel
  }

  /** `epoll_ctl`, which can also fail for reasons of its own. */
  function EpollCtl<A>(t: Table<A>, op: Operation, fd: int, interest: Interest, ctlOk: bool): Registered<A> {
    if !ctlOk || !CtlFits(t.kernel, op, fd) then Registered(t, false)
    else Registered(t.(kernel := if op == CtlDel then t.kernel - {fd} else t.kernel[fd := interest]), true)
  }

  /** The epoll events for a mask. */
  function Translate(mask: Mask): Interest {
    Interest(mask.Meets(EVENT_READABLE), mask.Meets(EVENT_WRITABLE))
  }

  /** `EventAdd` for a descriptor inside the array, or beyond it by more than one. */
  function EventAdd<A>(t: Table<A>, fd: nat, mask: Mask, callback: Callback, arg: A, ctlOk: bool): Registered<A>
    requires fd != |t.events|
  {
    if fd > |t.events| then Registered(t, false)
    else
      var e := t.events[fd];
      if e.mask.Meets(mask) then Registered(t, true)
      else
        var op := if e.mask == EVENT_NONE then CtlAdd else CtlMod;
        var e1 := Added(e, mask, callback, arg);
        EpollCtl(t.(events := t.events[fd := e1]), op, fd, Translate(e1.mask), ctlOk)
  }

  /** `EventDel` */
  function EventDel<A>(t: Table<A>, fd: nat, mask: Mask, ctlOk: bool): Registered<A>
    requires fd != |t.events|
  {
    if fd > |t.events| then Registered(t, false)
    else
      var e := t.events[fd];
      if e.mask == EVENT_NONE then Registered(t, true)
      else if !e.mask.Meets(mask) then Registered(t, true)
      else
        var e1 := e.(mask := e.mask.Without(mask));
        var op := if e1.mask == EVENT_NONE then CtlDel else CtlMod;
        EpollCtl(t.(events := t.events[fd := e1]), op, fd, Translate(e1.mask), ctlOk)
  }

  /** The entry that EventAdd stores. */
  function Added<A>(e: FdEvent<A>, mask: Mask, callback: Callback, arg: A): FdEvent<A> {
    FdEvent(e.mask.Or(mask),
            if mask.Meets(EVENT_READABLE) then callback else e.onRead,
            if mask.Meets(EVENT_WRITABLE) then callback else e.onWrite,
            arg)
  }

  /** `FdFileEventInit`, which checks no bound. */
  function FdInit<A>(t: Table<A>, fd: nat, none: A): Table<A>
    requires fd < |t.events|
  {
    t.(events := t.events[fd := FdEvent(EVENT_NONE, NoCallback, NoCallback, none)])
  }

  // ---------------------------------------------------------------------------------------------

  /** The kernel watches a descriptor for exactly what its mask says: for input if the readable bit is set, for output if
      the writable bit is set, and not at all for an empty mask. */
  ghost predicate Mirrors<A>(t: Table<A>, fd: nat)
    requires fd < |t.events|
  {
    var mask := t.events[fd].mask;
    && !mask.other
    && (fd in t.kernel <==> mask != EVENT_NONE)
    && (fd in t.kernel ==> (t.kernel[fd].input <==> mask.readable) && (t.kernel[fd].output <==> mask.writable))
  }

  /** Nothing but one descriptor's registration differs. */
  ghost predicate OnlyAt<A>(t: Table<A>, t': Table<A>, fd: nat) {
    && |t'.events| == |t.events|
    && (forall i :: 0 <= i < |t.events| && i != fd ==> t'.events[i] == t.events[i])
    && (forall k :: k != fd ==> (k in t'.kernel <==> k in t.kernel))
    && (forall k :: k != fd && k in t.kernel ==> t'.kernel[k] == t.kernel[k])
  }

  /** EventAdd never asks the kernel for something it refuses, so it fails only when the kernel fails by
      itself; and the mirror survives exactly then. */
  lemma EventAddMirrors<A>(t: Table<A>, fd: nat, mask: Mask, callback: Callback, arg: A, ctlOk: bool)
    requires fd < |t.events| && Mirrors(t, fd) && (mask == EVENT_READABLE || mask == EVENT_WRITABLE)
    ensures var r := EventAdd(t, fd, mask, callback, arg, ctlOk);
      && OnlyAt(t, r.table, fd)
      && (r.ok <==> ctlOk || t.events[fd].mask.Meets(mask))
      && (Mirrors(r.table, fd) <==> r.ok)
      && r.table.events[fd].mask == t.events[fd].mask.Or(mask)
    ensures var e, e' := t.events[fd], EventAdd(t, fd, mask, callback, arg, ctlOk).table.events[fd];
      && (e'.mask.readable <==> e.mask.readable || mask == EVENT_READABLE)
      && (e'.mask.writable <==> e.mask.writable || mask == EVENT_WRITABLE)
      && (e.mask != e'.mask ==> e'.arg == arg && (if mask == EVENT_READABLE then e'.onRead == callback && e'.onWrite == e.onWrite
                                                  else e'.onWrite == callback && e'.onRead == e.onRead))
      && (e.mask == e'.mask ==> e' == e)
  {}

  /** With both bits at once, EventAdd reports success without registering anything when one of the two is
      registered already: the descriptor ends up watched for all of the mask exactly when that is not so. */
  lemma EventAddCoversIff<A>(t: Table<A>, fd: nat, callback: Callback, arg: A)
    requires fd < |t.events| && Mirrors(t, fd)
    ensures var r, m := EventAdd(t, fd, EVENT_BOTH, callback, arg, true), t.events[fd].mask;
      && r.ok
      && (r.table.events[fd].mask == EVENT_BOTH <==> m == EVENT_NONE || m == EVENT_BOTH)
  {}

  /** The same for EventDel. */
  lemma EventDelMirrors<A>(t: Table<A>, fd: nat, mask: Mask, ctlOk: bool)
    requires fd < |t.events| && Mirrors(t, fd)
    ensures var r := EventDel(t, fd, mask, ctlOk);
      && OnlyAt(t, r.table, fd)
      && (r.ok <==> ctlOk || !t.events[fd].mask.Meets(mask))
      && (Mirrors(r.table, fd) <==> r.ok)
      && r.table.events[fd].mask == t.events[fd].mask.Without(mask)
      && (r.table.events[fd].mask.readable <==> t.events[fd].mask.readable && !mask.readable)
      && (r.table.events[fd].mask.writable <==> t.events[fd].mask.writable && !mask.writable)
      && r.table.events[fd].onRead == t.events[fd].onRead && r.table.events[fd].onWrite == t.events[fd].onWrite
      && r.table.events[fd].arg == t.events[fd].arg
  {}

  /** `EventBaseCreate` over an array that malloc left as it was: registering the listening descriptor
      succeeds and takes effect exactly when its entry happened to be empty. A readable bit in the
      leftover mask makes it report success without ever watching the descriptor. */
  lemma ListenRegisteredIff<A>(t: Table<A>, fd: nat, none: A)
    requires fd < |t.events| && t.kernel == map[]
    ensures var r, m := EventAdd(t, fd, EVENT_READABLE, AcceptCallback, none, true), t.events[fd].mask;
      && (r.ok && fd in r.table.kernel <==> m == EVENT_NONE)
      && (r.ok <==> m == EVENT_NONE || m.readable)
  {}

  // ---------------------------------------------------------------------------------------------
  // Runs

  /** Calls on the table: a single-bit EventAdd, an EventDel, and the two steps by which a connection is
      dropped from it; `ctlOk` is whether the kernel fails by itself. */
  datatype TableCall<A> = AddEvent(fd: nat, readable: bool, callback: Callback, arg: A, ctlOk: bool)
                   | DelEvent(fd: nat, mask: Mask, ctlOk: bool)
                   | DropAll(fd: nat, none: A)

  function Perform<A>(t: Table<A>, c: TableCall<A>): Registered<A>
    requires c.fd < |t.events|
  {
    match c
    case AddEvent(fd, readable, callback, arg, ctlOk) =>
      EventAdd(t, fd, if readable then EVENT_READABLE else EVENT_WRITABLE, callback, arg, ctlOk)
    case DelEvent(fd, mask, ctlOk) => EventDel(t, fd, mask, ctlOk)
    case DropAll(fd, none) =>
      var r := EventDel(t, fd, EVENT_BOTH, true);
      Registered(FdInit(r.table, fd, none), r.ok)
  }

  ghost predicate AllMirrored<A>(t: Table<A>) {
    && (forall fd: nat :: fd < |t.events| ==> Mirrors(t, fd))
    && (forall k :: k in t.kernel ==> 0 <= k < |t.events|)
  }

  lemma PerformMirrors<A>(t: Table<A>, c: TableCall<A>)
    requires c.fd < |t.events| && AllMirrored(t) && Perform(t, c).ok
    ensures AllMirrored(Perform(t, c).table) && |Perform(t, c).table.events| == |t.events|
  {
    var t' := Perform(t, c).table;
    match c {
      case AddEvent(fd, readable, callback, arg, ctlOk) =>
        EventAddMirrors(t, fd, if readable then EVENT_READABLE else EVENT_WRITABLE, callback, arg, ctlOk);
      case DelEvent(fd, mask, ctlOk) => EventDelMirrors(t, fd, mask, ctlOk);
      case DropAll(fd, none) => EventDelMirrors(t, fd, EVENT_BOTH, true);
    }
    assert OnlyAt(t, t', c.fd) && Mirrors(t', c.fd);
    forall fd: nat | fd < |t'.events| ensures Mirrors(t', fd) {
      assert Mirrors(t, fd);
    }
  }

  /** Calls that all succeed; the source gives up the process when one does not. */
  ghost predicate Succeeds<A>(t: Table<A>, cs: seq<TableCall<A>>)
    decreases |cs|
  {
    cs == [] || (cs[0].fd < |t.events| && Perform(t, cs[0]).ok && Succeeds(Perform(t, cs[0]).table, cs[1..]))
  }

  ghost function PerformAll<A>(t: Table<A>, cs: seq<TableCall<A>>): Table<A>
    requires Succeeds(t, cs)
    decreases |cs|
  {
    if cs == [] then t else PerformAll(Perform(t, cs[0]).table, cs[1..])
  }

  /** After any sequence of successful calls the kernel watches every descriptor for exactly what the table
      says. */
  lemma {:induction false} MirrorOverRuns<A>(t: Table<A>, cs: seq<TableCall<A>>)
    requires AllMirrored(t) && Succeeds(t, cs)
    ensures AllMirrored(PerformAll(t, cs))
    decreases |cs|
  {
    if cs != [] {
      PerformMirrors(t, cs[0]);
      MirrorOverRuns(Perform(t, cs[0]).table, cs[1..]);
    }
  }
}
