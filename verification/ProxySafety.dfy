/**
  What every interleaving of the proxy's workers keeps: each frame is queued, in
  the hands of the processor, sent on once, or left to exactly one rule, or it is
  lost with a processor that panicked; and the event flag and the compression cell
  are what the frames taken so far say.
 */
module ProxySafety {
  import opened Wire
  import opened Frames
  import opened Rules
  import opened Proxy

  // ------------------------------------------------------------------ counting

  /** How often the action of this kind sent something for this frame. */
  function Count(outs: seq<Out>, d: Direction, kind: SendKind, id: nat): (n: nat) {
    if outs == [] then 0
    else Count(outs[..|outs| - 1], d, kind, id) + Matches(outs[|outs| - 1], d, kind, id)
  }

  function Matches(o: Out, d: Direction, kind: SendKind, id: nat): (n: nat) {
    if o.d == d && o.kind == kind && o.id == id then 1 else 0
  }

  lemma CountAppend(outs: seq<Out>, o: Out, d: Direction, kind: SendKind, id: nat)
    ensures Count(outs + [o], d, kind, id) == Count(outs, d, kind, id) + Matches(o, d, kind, id)
  {
    assert (outs + [o])[..|outs|] == outs;
  }

  /** The frames sent on by default, in the order of the channel. */
  function Defaults(outs: seq<Out>, d: Direction): (ids: seq<nat>) {
    if outs == [] then []
    else
      var o := outs[|outs| - 1];
      Defaults(outs[..|outs| - 1], d) + (if o.d == d && o.kind.Default? then [o.id] else [])
  }

  lemma DefaultsAppend(outs: seq<Out>, o: Out, d: Direction)
    ensures Defaults(outs + [o], d) == Defaults(outs, d) + (if o.d == d && o.kind.Default? then [o.id] else [])
  {
    assert (outs + [o])[..|outs|] == outs;
  }

  /** The frames that no rule applied to, in the order of their arrival. */
  function ForwardedIds(fates: seq<Fate>): (ids: seq<nat>)
    ensures forall i :: 0 <= i < |ids| ==> ids[i] < |fates| && fates[ids[i]].Forwarded?
    ensures forall i, j :: 0 <= i < j < |ids| ==> ids[i] < ids[j]
  {
    if fates == [] then []
    else
      var n := |fates| - 1;
      ForwardedIds(fates[..n]) + (if fates[n].Forwarded? then [n] else [])
  }

  lemma ForwardedAppend(fates: seq<Fate>, f: Fate)
    ensures ForwardedIds(fates + [f]) == ForwardedIds(fates) + (if f.Forwarded? then [|fates|] else [])
  {
    assert (fates + [f])[..|fates|] == fates;
  }

  // ----------------------------------------------------------- lane invariants

  predicate InHand(l: Lane) {
    !l.phase.Idle?
  }

  function Taken(l: Lane): (n: int) {
    |l.received| - |l.queue|
  }

  /** The queue holds the frames not yet taken, in order; the processor holds the first without a fate. */
  predicate InOrder(l: Lane) {
    && |l.queue| <= |l.received|
    && (forall k :: 0 <= k < |l.queue| ==> l.queue[k] == Msg(Taken(l) + k, l.received[Taken(l) + k]))
    && Taken(l) == |l.fates| + (if InHand(l) then 1 else 0)
    && (InHand(l) ==> l.phase.msg == Msg(|l.fates|, l.received[|l.fates|]))
  }

  ghost predicate TasksOk(l: Lane) {
    && |l.fates| <= |l.received|
    && forall id :: id in l.tasks ==>
         && id < |l.fates| && l.fates[id] == Consumed(l.tasks[id].reaction)
         && l.tasks[id].frame == l.received[id]
         && (l.tasks[id].pass ==> l.tasks[id].reaction.toAddressee.Some?)
         && (l.tasks[id].forge ==> l.tasks[id].reaction.toSender.Some?)
  }

  /** A forging action needs a processor. */
  predicate CanComplete(r: Reaction) {
    r.toSender.Some? ==> r.toSender.value.processor.Some?
  }

  function PendingPass(l: Lane, id: nat): (n: nat) {
    if id in l.tasks && l.tasks[id].pass then 1 else 0
  }

  function PendingForge(l: Lane, id: nat): (n: nat) {
    if id in l.tasks && l.tasks[id].forge then 1 else 0
  }

  function One(b: bool): (n: nat) {
    if b then 1 else 0
  }

  /** The copies of a frame with a fate, sent and still to be sent. */
  ghost predicate Accounted(l: Lane, addressee: seq<Out>, sender: seq<Out>, d: Direction, id: nat)
    requires id < |l.fates|
  {
    var defaults, passes := Count(addressee, d, Default, id), Count(addressee, d, Pass, id);
    var forges := Count(sender, d, Forge, id);
    match l.fates[id]
    case Forwarded => defaults == 1 && passes == 0 && forges == 0 && id !in l.tasks
    case Consumed(r) =>
      && defaults == 0
      && passes + PendingPass(l, id) <= One(r.toAddressee.Some?)
      && forges + PendingForge(l, id) <= One(r.toSender.Some?)
      && (CanComplete(r) ==>
            && passes + PendingPass(l, id) == One(r.toAddressee.Some?)
            && forges + PendingForge(l, id) == One(r.toSender.Some?))
  }

  /** What is on a channel came from a frame with the fate for it, changed only by the rule. */
  ghost predicate OutOk(l: Lane, o: Out, toAddressee: bool) {
    && o.id < |l.fates| <= |l.received|
    && var f := l.received[o.id];
       match o.kind
       case Default => toAddressee && l.fates[o.id].Forwarded? && o.frame == f
       case Pass =>
         && toAddressee && l.fates[o.id].Consumed?
         && var a := l.fates[o.id].reaction.toAddressee;
            a.Some? && o.frame == Processed(a.value, f)
       case Forge =>
         && !toAddressee && l.fates[o.id].Consumed?
         && var a := l.fates[o.id].reaction.toSender;
            a.Some? && a.value.processor.Some? && o.frame == a.value.processor.value(f)
  }

  ghost predicate OutsOk(l: Lane, outs: seq<Out>, d: Direction, toAddressee: bool) {
    forall i :: 0 <= i < |outs| && outs[i].d == d ==> OutOk(l, outs[i], toAddressee)
  }

  ghost predicate AllAccounted(l: Lane, addressee: seq<Out>, sender: seq<Out>, d: Direction) {
    forall id :: 0 <= id < |l.fates| ==> Accounted(l, addressee, sender, d, id)
  }

  ghost predicate LaneInv(l: Lane, addressee: seq<Out>, sender: seq<Out>, d: Direction) {
    && InOrder(l) && TasksOk(l)
    && AllAccounted(l, addressee, sender, d)
    && OutsOk(l, addressee, d, true) && OutsOk(l, sender, d, false)
    && Defaults(addressee, d) == ForwardedIds(l.fates)
  }

  // -------------------------------------------------------------- lane steps

  /** Nothing was sent for a frame that has no fate yet. */
  lemma {:induction false} NothingSent(l: Lane, outs: seq<Out>, d: Direction, toAddressee: bool,
                                       kind: SendKind, id: nat)
    requires OutsOk(l, outs, d, toAddressee) && id >= |l.fates|
    ensures Count(outs, d, kind, id) == 0
    decreases |outs|
  {
    hide OutOk;
    if outs != [] {
      var n := |outs| - 1;
      assert outs[n].d == d ==> OutOk(l, outs[n], toAddressee);
      FateKnown(l, outs[n], toAddressee);
      assert OutsOk(l, outs[..n], d, toAddressee);
      NothingSent(l, outs[..n], d, toAddressee, kind, id);
    }
  }

  lemma FateKnown(l: Lane, o: Out, toAddressee: bool)
    ensures OutOk(l, o, toAddressee) ==> o.id < |l.fates|
  {
  }

  /** What one lane sends does not count for the other. */
  lemma OtherLaneSends(l: Lane, addressee: seq<Out>, sender: seq<Out>, d: Direction, o: Out)
    requires LaneInv(l, addressee, sender, d) && o.d != d
    ensures LaneInv(l, addressee + [o], sender, d) && LaneInv(l, addressee, sender + [o], d)
  {
    hide Count, Defaults, OutOk, InOrder, TasksOk;
    DefaultsAppend(addressee, o, d);
    forall id | 0 <= id < |l.fates|
      ensures Accounted(l, addressee + [o], sender, d, id)
      ensures Accounted(l, addressee, sender + [o], d, id)
    {
      assert Accounted(l, addressee, sender, d, id);
      CountAppend(addressee, o, d, Default, id);
      CountAppend(addressee, o, d, Pass, id);
      CountAppend(sender, o, d, Forge, id);
    }
  }

  /** Receiving, taking and loading concern only the frames without a fate. */
  lemma FatesStay(l: Lane, l': Lane, addressee: seq<Out>, sender: seq<Out>, d: Direction)
    requires LaneInv(l, addressee, sender, d) && InOrder(l')
    requires l'.fates == l.fates && l'.tasks == l.tasks && l.received <= l'.received
    ensures LaneInv(l', addressee, sender, d)
  {
    hide Count, Defaults, InOrder;
    assert forall i :: 0 <= i < |l.received| ==> l'.received[i] == l.received[i];
    forall id | 0 <= id < |l'.fates|
      ensures Accounted(l', addressee, sender, d, id)
    {
      assert Accounted(l, addressee, sender, d, id);
    }
    assert forall o: Out, b: bool :: OutOk(l, o, b) ==> OutOk(l', o, b);
  }

  lemma Forward(l: Lane, addressee: seq<Out>, sender: seq<Out>, d: Direction)
    requires LaneInv(l, addressee, sender, d) && InHand(l)
    ensures var l' := l.(phase := Idle, fates := l.fates + [Forwarded]);
            LaneInv(l', addressee + [Out(d, Default, l.phase.msg.id, l.phase.msg.frame)], sender, d)
  {
    hide Count, Defaults, ForwardedIds, OutOk;
    var l' := l.(phase := Idle, fates := l.fates + [Forwarded]);
    var o := Out(d, Default, l.phase.msg.id, l.phase.msg.frame);
    var n := |l.fates|;
    DefaultsAppend(addressee, o, d);
    ForwardedAppend(l.fates, Forwarded);
    NothingSent(l, addressee, d, true, Default, n);
    NothingSent(l, addressee, d, true, Pass, n);
    NothingSent(l, sender, d, false, Forge, n);
    forall id | 0 <= id < |l'.fates|
      ensures Accounted(l', addressee + [o], sender, d, id)
    {
      CountAppend(addressee, o, d, Default, id);
      CountAppend(addressee, o, d, Pass, id);
      if id < n {
        assert Accounted(l, addressee, sender, d, id);
        assert l'.fates[id] == l.fates[id];
      }
    }
    MoreFates(l, l', addressee, d, true);
    MoreFates(l, l', sender, d, false);
    ForwardedOk(l', o, n);
    assert TasksOk(l');
  }

  lemma ForwardedOk(l: Lane, o: Out, n: nat)
    requires n < |l.fates| <= |l.received| && l.fates[n].Forwarded?
    requires o.kind.Default? && o.id == n && o.frame == l.received[n]
    ensures OutOk(l, o, true)
  {
  }

  /** A further fate leaves what was sent before in order. */
  lemma MoreFates(l: Lane, l': Lane, outs: seq<Out>, d: Direction, toAddressee: bool)
    requires OutsOk(l, outs, d, toAddressee) && l.received == l'.received
    requires l.fates <= l'.fates && |l'.fates| <= |l'.received|
    ensures OutsOk(l', outs, d, toAddressee)
  {
    assert forall i :: 0 <= i < |l.fates| ==> l'.fates[i] == l.fates[i];
  }

  lemma Consume(l: Lane, addressee: seq<Out>, sender: seq<Out>, d: Direction, r: Reaction)
    requires LaneInv(l, addressee, sender, d) && InHand(l)
    ensures var m := l.phase.msg;
            var l' := l.(phase := Idle, fates := l.fates + [Consumed(r)],
                         tasks := l.tasks[m.id := Task(m.frame, r, r.toAddressee.Some?, r.toSender.Some?)]);
            LaneInv(l', addressee, sender, d)
  {
    hide Count, Defaults, ForwardedIds, OutOk;
    var m, n := l.phase.msg, |l.fates|;
    var l' := l.(phase := Idle, fates := l.fates + [Consumed(r)],
                 tasks := l.tasks[m.id := Task(m.frame, r, r.toAddressee.Some?, r.toSender.Some?)]);
    ForwardedAppend(l.fates, Consumed(r));
    NothingSent(l, addressee, d, true, Default, n);
    NothingSent(l, addressee, d, true, Pass, n);
    NothingSent(l, sender, d, false, Forge, n);
    forall id | 0 <= id < |l'.fates|
      ensures Accounted(l', addressee, sender, d, id)
    {
      if id < n {
        assert Accounted(l, addressee, sender, d, id);
        assert l'.fates[id] == l.fates[id];
      }
    }
    MoreFates(l, l', addressee, d, true);
    MoreFates(l, l', sender, d, false);
  }

  lemma SendPass(l: Lane, addressee: seq<Out>, sender: seq<Out>, d: Direction, id: nat)
    requires LaneInv(l, addressee, sender, d) && CanPass(l, id)
    ensures var t := l.tasks[id];
            var l' := l.(tasks := l.tasks[id := t.(pass := false)]);
            LaneInv(l', addressee + [Out(d, Pass, id, Processed(t.reaction.toAddressee.value, t.frame))], sender, d)
  {
    hide Count, Defaults, ForwardedIds;
    var t := l.tasks[id];
    var l' := l.(tasks := l.tasks[id := t.(pass := false)]);
    var o := Out(d, Pass, id, Processed(t.reaction.toAddressee.value, t.frame));
    DefaultsAppend(addressee, o, d);
    forall i | 0 <= i < |l'.fates|
      ensures Accounted(l', addressee + [o], sender, d, i)
    {
      assert Accounted(l, addressee, sender, d, i);
      CountAppend(addressee, o, d, Default, i);
      CountAppend(addressee, o, d, Pass, i);
    }
    MoreFates(l, l', addressee, d, true);
    MoreFates(l, l', sender, d, false);
  }

  lemma SendForge(l: Lane, addressee: seq<Out>, sender: seq<Out>, d: Direction, id: nat)
    requires LaneInv(l, addressee, sender, d) && CanForge(l, id)
    requires l.tasks[id].reaction.toSender.value.processor.Some?
    ensures var t := l.tasks[id];
            var l' := l.(tasks := l.tasks[id := t.(forge := false)]);
            var f := t.reaction.toSender.value.processor.value(t.frame);
            LaneInv(l', addressee, sender + [Out(d, Forge, id, f)], d)
  {
    hide Count, Defaults, ForwardedIds;
    var t := l.tasks[id];
    var l' := l.(tasks := l.tasks[id := t.(forge := false)]);
    var o := Out(d, Forge, id, t.reaction.toSender.value.processor.value(t.frame));
    forall i | 0 <= i < |l'.fates|
      ensures Accounted(l', addressee, sender + [o], d, i)
    {
      assert Accounted(l, addressee, sender, d, i);
      CountAppend(sender, o, d, Forge, i);
    }
    MoreFates(l, l', addressee, d, true);
    MoreFates(l, l', sender, d, false);
  }

  /** A task that panics takes along what it had yet to send. */
  lemma AbortTask(l: Lane, addressee: seq<Out>, sender: seq<Out>, d: Direction, id: nat)
    requires LaneInv(l, addressee, sender, d) && CanForge(l, id)
    requires l.tasks[id].reaction.toSender.value.processor.None?
    ensures LaneInv(l.(tasks := l.tasks - {id}), addressee, sender, d)
  {
    hide Count, Defaults, ForwardedIds;
    var l' := l.(tasks := l.tasks - {id});
    forall i | 0 <= i < |l'.fates|
      ensures Accounted(l', addressee, sender, d, i)
    {
      assert Accounted(l, addressee, sender, d, i);
    }
    MoreFates(l, l', addressee, d, true);
    MoreFates(l, l', sender, d, false);
  }

  // ----------------------------------------------- the event flag and the cell

  predicate AnyRegister(fs: seq<Frame>) {
    exists i :: 0 <= i < |fs| && IsRegister(fs[i])
  }

  /** The compression of the first STARTUP that could be parsed. */
  function FirstStartup(fs: seq<Frame>): (cell: Cell) {
    if fs == [] then None
    else
      var before := FirstStartup(fs[..|fs| - 1]);
      if before.Some? then before else StartupCell(fs[|fs| - 1])
  }

  lemma OneMoreFrame(fs: seq<Frame>, f: Frame)
    ensures AnyRegister(fs + [f]) <==> AnyRegister(fs) || IsRegister(f)
    ensures FirstStartup(fs + [f]) == if FirstStartup(fs).Some? then FirstStartup(fs) else StartupCell(f)
  {
    hide StartupCell, IsRegister;
    assert (fs + [f])[..|fs|] == fs;
    if AnyRegister(fs) {
      var i :| 0 <= i < |fs| && IsRegister(fs[i]);
      assert (fs + [f])[i] == fs[i];
    }
    assert (fs + [f])[|fs|] == f;
  }

  lemma {:induction false} StartupFound(fs: seq<Frame>, i: nat)
    requires i < |fs| && StartupCell(fs[i]).Some?
    ensures FirstStartup(fs).Some?
    decreases |fs|
  {
    hide StartupCell;
    if i < |fs| - 1 {
      StartupFound(fs[..|fs| - 1], i);
    }
  }

  /** Both are what the requests taken so far say; what a processor loaded is not ahead of that. */
  predicate FlagsOk(c: Conn) {
    && |c.requests.queue| <= |c.requests.received|
    && var taken := c.requests.received[..|c.requests.received| - |c.requests.queue|];
       && c.hasEvents == AnyRegister(taken)
       && c.cell == FirstStartup(taken)
       && (c.requests.phase.Loaded? ==> c.requests.phase.hasEvents == c.hasEvents)
       && (c.responses.phase.Loaded? && c.responses.phase.hasEvents ==> c.hasEvents)
  }

  // ------------------------------------------------------- connection invariants

  ghost predicate LanesOk(c: Conn) {
    && LaneInv(c.requests, c.toCluster, c.toDriver, FromDriver)
    && LaneInv(c.responses, c.toDriver, c.toCluster, FromCluster)
  }

  /** A lane that sends nothing leaves the other as it is. */
  lemma QuietStep(c: Conn, d: Direction, l': Lane)
    requires LanesOk(c) && LaneInv(l', Channel(c, d, true), Channel(c, d, false), d)
    ensures LanesOk(WithLane(c, d, l'))
  {
    hide LaneInv;
  }

  lemma SendStep(c: Conn, d: Direction, l': Lane, toAddressee: bool, o: Out)
    requires LanesOk(c) && o.d == d
    requires var a, s := Channel(c, d, true), Channel(c, d, false);
             if toAddressee then LaneInv(l', a + [o], s, d) else LaneInv(l', a, s + [o], d)
    ensures LanesOk(Send(WithLane(c, d, l'), toAddressee, o))
  {
    hide LaneInv;
    if d.FromDriver? {
      OtherLaneSends(c.responses, c.toDriver, c.toCluster, FromCluster, o);
    } else {
      OtherLaneSends(c.requests, c.toCluster, c.toDriver, FromDriver, o);
    }
  }

  lemma LanesOf(c: Conn, d: Direction)
    requires LanesOk(c)
    ensures LaneInv(LaneOf(c, d), Channel(c, d, true), Channel(c, d, false), d)
    ensures InOrder(LaneOf(c, d))
  {
    hide InOrder, TasksOk, AllAccounted, OutsOk, Defaults;
  }

  lemma EnqueueKeeps(c: Conn, d: Direction, f: Frame)
    requires LanesOk(c) && FlagsOk(c)
    ensures LanesOk(Enqueue(c, d, f)) && FlagsOk(Enqueue(c, d, f))
  {
    hide LaneInv, LanesOk, AnyRegister, FirstStartup;
    LanesOf(c, d);
    var l, c' := LaneOf(c, d), Enqueue(c, d, f);
    FatesStay(l, LaneOf(c', d), Channel(c, d, true), Channel(c, d, false), d);
    QuietStep(c, d, LaneOf(c', d));
    var n := |c.requests.received| - |c.requests.queue|;
    assert c'.requests.received[..n] == c.requests.received[..n];
  }

  lemma ReceiveKeeps(lib: Library, c: Conn, d: Direction)
    requires LanesOk(c) && FlagsOk(c)
    ensures LanesOk(ReceiveOn(lib, c, d)) && FlagsOk(ReceiveOn(lib, c, d))
  {
    hide LanesOk, FlagsOk, ParseFrame, Enqueue;
    var source := SourceOf(c, d);
    var r := ParseFrame(lib, d, c.cell, source.unread);
    if r.Ok? {
      var c' := WithSource(c, d, source.(unread := r.value.rest, open := !LaneOf(c, d).phase.Dead?));
      SocketsAside(c, c');
      EnqueueKeeps(c', d, r.value.frame);
    } else {
      SocketsAside(c, ReceiveOn(lib, c, d));
    }
  }

  /** The sockets do not matter to the lanes and the flags. */
  lemma SocketsAside(c: Conn, c': Conn)
    requires LanesOk(c) && FlagsOk(c)
    requires c' == c.(driverIn := c'.driverIn, clusterIn := c'.clusterIn,
                      clusterOut := c'.clusterOut, driverOut := c'.driverOut)
    ensures LanesOk(c') && FlagsOk(c')
  {
    hide LaneInv, AnyRegister, FirstStartup;
  }

  lemma TakeKeeps(c: Conn, d: Direction)
    requires LanesOk(c) && FlagsOk(c) && LaneOf(c, d).phase.Idle? && LaneOf(c, d).queue != []
    ensures LanesOk(TakeOn(c, d)) && FlagsOk(TakeOn(c, d))
  {
    hide LaneInv, LanesOk, AnyRegister, FirstStartup, StartupCell, IsRegister;
    LanesOf(c, d);
    var l, c' := LaneOf(c, d), TakeOn(c, d);
    FatesStay(l, LaneOf(c', d), Channel(c, d, true), Channel(c, d, false), d);
    QuietStep(c, d, LaneOf(c', d));
    SameLanes(WithLane(c, d, LaneOf(c', d)), c');
    if d.FromDriver? {
      var n := |l.received| - |l.queue|;
      assert l.received[..n + 1] == l.received[..n] + [l.received[n]];
      OneMoreFrame(l.received[..n], l.received[n]);
    }
  }

  lemma SameLanes(c: Conn, c': Conn)
    requires LanesOk(c) && c.requests == c'.requests && c.responses == c'.responses
    requires c.toCluster == c'.toCluster && c.toDriver == c'.toDriver
    ensures LanesOk(c')
  {
  }

  lemma LoadKeeps(c: Conn, d: Direction)
    requires LanesOk(c) && FlagsOk(c) && LaneOf(c, d).phase.Stored?
    ensures LanesOk(LoadOn(c, d)) && FlagsOk(LoadOn(c, d))
  {
    hide LaneInv, LanesOk, AnyRegister, FirstStartup;
    LanesOf(c, d);
    var l, c' := LaneOf(c, d), LoadOn(c, d);
    FatesStay(l, LaneOf(c', d), Channel(c, d, true), Channel(c, d, false), d);
    QuietStep(c, d, LaneOf(c', d));
  }

  lemma CrashKeeps(c: Conn, d: Direction)
    requires LanesOk(c) && FlagsOk(c) && LaneOf(c, d).phase.Loaded?
    ensures LanesOk(CrashOn(c, d)) && FlagsOk(CrashOn(c, d))
  {
    hide LaneInv, LanesOk, AnyRegister, FirstStartup;
    LanesOf(c, d);
    var l, c' := LaneOf(c, d), CrashOn(c, d);
    FatesStay(l, LaneOf(c', d), Channel(c, d, true), Channel(c, d, false), d);
    QuietStep(c, d, LaneOf(c', d));
  }

  lemma ApplyKeeps(c: Conn, d: Direction, applied: Option<Reaction>)
    requires LanesOk(c) && FlagsOk(c) && LaneOf(c, d).phase.Loaded?
    ensures LanesOk(ApplyOn(c, d, applied)) && FlagsOk(ApplyOn(c, d, applied))
  {
    hide LaneInv, LanesOk, AnyRegister, FirstStartup;
    LanesOf(c, d);
    var l, c' := LaneOf(c, d), ApplyOn(c, d, applied);
    var a, s := Channel(c, d, true), Channel(c, d, false);
    if applied.None? {
      Forward(l, a, s, d);
      SendStep(c, d, LaneOf(c', d), true, Out(d, Default, l.phase.msg.id, l.phase.msg.frame));
    } else {
      Consume(l, a, s, d, applied.value);
      QuietStep(c, d, LaneOf(c', d));
    }
  }

  lemma RunPassKeeps(c: Conn, d: Direction, id: nat)
    requires LanesOk(c) && FlagsOk(c) && CanPass(LaneOf(c, d), id)
    ensures LanesOk(RunPassOn(c, d, id)) && FlagsOk(RunPassOn(c, d, id))
  {
    hide LaneInv, LanesOk, AnyRegister, FirstStartup;
    LanesOf(c, d);
    var l := LaneOf(c, d);
    var t := l.tasks[id];
    SendPass(l, Channel(c, d, true), Channel(c, d, false), d, id);
    SendStep(c, d, l.(tasks := l.tasks[id := t.(pass := false)]), true,
             Out(d, Pass, id, Processed(t.reaction.toAddressee.value, t.frame)));
  }

  lemma RunForgeKeeps(c: Conn, d: Direction, id: nat)
    requires LanesOk(c) && FlagsOk(c) && CanForge(LaneOf(c, d), id)
    ensures LanesOk(RunForgeOn(c, d, id)) && FlagsOk(RunForgeOn(c, d, id))
  {
    hide LaneInv, LanesOk, AnyRegister, FirstStartup;
    LanesOf(c, d);
    var l := LaneOf(c, d);
    var t := l.tasks[id];
    var a := t.reaction.toSender.value;
    if a.processor.None? {
      AbortTask(l, Channel(c, d, true), Channel(c, d, false), d, id);
      QuietStep(c, d, l.(tasks := l.tasks - {id}));
    } else {
      SendForge(l, Channel(c, d, true), Channel(c, d, false), d, id);
      SendStep(c, d, l.(tasks := l.tasks[id := t.(forge := false)]), false,
               Out(d, Forge, id, a.processor.value(t.frame)));
    }
  }

  // ------------------------------------------------------------------ the system

  ghost predicate Inv(s: State) {
    forall c :: 0 <= c < |s.conns| ==> LanesOk(s.conns[c]) && FlagsOk(s.conns[c])
  }

  lemma NewConnOk()
    ensures LanesOk(NEW_CONN) && FlagsOk(NEW_CONN)
  {
    assert NEW_LANE.received[..0] == [];
  }

  lemma StepKeepsConn(s: State, step: Step)
    requires !step.Open? && !step.Replace? && step.c < |s.conns| && EnabledOn(s, step)
    requires LanesOk(s.conns[step.c]) && FlagsOk(s.conns[step.c])
    ensures LanesOk(StepOn(s, step)) && FlagsOk(StepOn(s, step))
  {
    hide LanesOk, FlagsOk, Locked, ParseFrame, WriteFrame;
    var c := s.conns[step.c];
    match step
    case Arrive(_, d, bs) => SocketsAside(c, ArriveOn(c, d, bs));
    case Receive(_, d) => ReceiveKeeps(s.lib, c, d);
    case Take(_, d) => TakeKeeps(c, d);
    case Load(_, d) => LoadKeeps(c, d);
    case Apply(i, d, toss) =>
      ApplyKeeps(c, d, ReactionOf(RulesOf(s, d).rules, ScanFor(s, i, d, toss).found));
    case Crash(_, d, _) => CrashKeeps(c, d);
    case RunPass(_, d, id) => RunPassKeeps(c, d, id);
    case RunForge(_, d, id) => RunForgeKeeps(c, d, id);
    case Transmit(_, d) => SocketsAside(c, TransmitOn(s.lib, c, d));
  }

  /** A step changes at most the connection that it is about, and may add one. */
  lemma StepChanges(s: State, step: Step)
    requires Enabled(s, step)
    ensures var s' := Do(s, step);
            && s'.lib == s.lib
            && s'.conns == if step.Open? then s.conns + [NEW_CONN]
                           else if step.Replace? then s.conns
                           else s.conns[step.c := StepOn(s, step)]
  {
    hide EnabledOn, StepOn, AfterLock;
  }

  lemma StepKeepsInv(s: State, step: Step)
    requires Inv(s) && Enabled(s, step)
    ensures Inv(Do(s, step))
  {
    hide LanesOk, FlagsOk, EnabledOn, StepOn, Do;
    StepChanges(s, step);
    if step.Open? {
      NewConnOk();
    } else if !step.Replace? {
      StepKeepsConn(s, step);
    }
  }

  /** Every state that any run from a node without connections reaches is in order. */
  lemma {:induction false} RunKeepsInv(s: State, steps: seq<Step>, s': State)
    requires Runs(s, steps, s') && Inv(s)
    ensures Inv(s')
    decreases |steps|
  {
    hide Inv, Do, Enabled;
    if steps != [] {
      StepKeepsInv(s, steps[0]);
      RunKeepsInv(Do(s, steps[0]), steps[1..], s');
    }
  }
}
