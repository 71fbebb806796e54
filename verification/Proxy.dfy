/**
  The workers of a proxied node as a step system. A connection has a lane for
  requests and a lane for responses; each lane is a receiver, a FIFO queue, a
  processor that takes one frame at a time, and tasks that applied rules leave
  behind. A sender writes each channel to its socket. All connections share the
  rules behind a mutex. Models scylla-proxy/src/proxy.rs for a real node, up to
  the shutdown of the proxy and the closing of connections.

  Frames are numbered in the order of their arrival on their lane. The channels
  to the cluster and to the driver are given by all that was ever sent on them,
  and sockets by all the bytes that ever arrived or were ever written.
 */
module Proxy {
  import opened Wire
  import opened Opcodes
  import opened Frames
  import opened Extensions
  import opened Conditions
  import opened Rules

  // --------------------------------------------------------------------- state

  datatype Msg = Msg(id: nat, frame: Frame)

  /**
    Between taking a frame and loading the event flag the processor has only stored what the frame
    says. A processor that panicked is dead; the frame in its hands and its queue are lost.
   */
  datatype Phase = Idle | Stored(msg: Msg) | Loaded(msg: Msg, hasEvents: bool) | Dead(msg: Msg)

  /** What became of a frame: the default action, or the reaction of the one rule that applied. */
  datatype Fate = Forwarded | Consumed(reaction: Reaction)

  /** The spawned task of an applied rule, with the actions it has yet to perform. */
  datatype Task = Task(frame: Frame, reaction: Reaction, pass: bool, forge: bool)

  datatype Lane = Lane(
    received: seq<Frame>,
    queue: seq<Msg>,
    phase: Phase,
    fates: seq<Fate>,
    tasks: map<nat, Task>)

  datatype SendKind = Default | Pass | Forge

  /** A frame sent on a channel, and which action on which frame sent it. */
  datatype Out = Out(d: Direction, kind: SendKind, id: nat, frame: Frame)

  /** What a receiver reads from: all bytes that arrived and those it has not read; it runs while open. */
  datatype Source = Source(stream: bytes, unread: bytes, open: bool)

  /** What a sender writes to: how much of its channel it has written, as which bytes. */
  datatype Sink = Sink(sent: nat, written: bytes, open: bool)

  datatype Conn = Conn(
    requests: Lane,
    responses: Lane,
    toCluster: seq<Out>,
    toDriver: seq<Out>,
    hasEvents: bool,
    cell: Cell,
    driverIn: Source,
    clusterIn: Source,
    clusterOut: Sink,
    driverOut: Sink)

  datatype State = State(lib: Library, conns: seq<Conn>, requestRules: RuleGuard, responseRules: RuleGuard)

  const NEW_LANE := Lane([], [], Idle, [], map[])
  const NEW_SOURCE := Source([], [], true)
  const NEW_SINK := Sink(0, [], true)
  const NEW_CONN :=
    Conn(NEW_LANE, NEW_LANE, [], [], false, None, NEW_SOURCE, NEW_SOURCE, NEW_SINK, NEW_SINK)

  function LaneOf(c: Conn, d: Direction): (l: Lane) {
    if d.FromDriver? then c.requests else c.responses
  }

  function WithLane(c: Conn, d: Direction, l: Lane): (c': Conn) {
    if d.FromDriver? then c.(requests := l) else c.(responses := l)
  }

  /** The channel towards the addressee of the lane's frames, or towards their sender. */
  function Channel(c: Conn, d: Direction, toAddressee: bool): (outs: seq<Out>) {
    if d.FromDriver? == toAddressee then c.toCluster else c.toDriver
  }

  function Send(c: Conn, toAddressee: bool, o: Out): (c': Conn) {
    if o.d.FromDriver? == toAddressee then c.(toCluster := c.toCluster + [o])
    else c.(toDriver := c.toDriver + [o])
  }

  function SourceOf(c: Conn, d: Direction): (source: Source) {
    if d.FromDriver? then c.driverIn else c.clusterIn
  }

  function WithSource(c: Conn, d: Direction, source: Source): (c': Conn) {
    if d.FromDriver? then c.(driverIn := source) else c.(clusterIn := source)
  }

  /** The sink of the channel towards the addressee of the lane's frames. */
  function SinkOf(c: Conn, d: Direction): (sink: Sink) {
    if d.FromDriver? then c.clusterOut else c.driverOut
  }

  function WithSink(c: Conn, d: Direction, sink: Sink): (c': Conn) {
    if d.FromDriver? then c.(clusterOut := sink) else c.(driverOut := sink)
  }

  function RulesOf(s: State, d: Direction): (guard: RuleGuard) {
    if d.FromDriver? then s.requestRules else s.responseRules
  }

  function WithRules(s: State, d: Direction, guard: RuleGuard): (s': State) {
    if d.FromDriver? then s.(requestRules := guard) else s.(responseRules := guard)
  }

  // ------------------------------------------------------------- what STARTUP says

  const COMPRESSION_KEY: bytes := [67, 79, 77, 80, 82, 69, 83, 83, 73, 79, 78]
  const LZ4_NAME: bytes := [108, 122, 52]
  const SNAPPY_NAME: bytes := [115, 110, 97, 112, 112, 121]

  function CompressionNamed(name: bytes): (c: Option<Compression>) {
    if name == LZ4_NAME then Some(Lz4) else if name == SNAPPY_NAME then Some(Snappy) else None
  }

  /** `Compression::as_str`. */
  function NameOf(c: Compression): (name: bytes) {
    match c
    case Lz4 => LZ4_NAME
    case Snappy => SNAPPY_NAME
  }

  lemma NameRoundTrip(c: Compression)
    ensures CompressionNamed(NameOf(c)) == Some(c)
  {
  }

  /** The compression that the options of a STARTUP ask for; an unknown one counts as none. */
  function Chosen(options: map<bytes, bytes>): (c: Option<Compression>) {
    if COMPRESSION_KEY in options then CompressionNamed(options[COMPRESSION_KEY]) else None
  }

  /** What a STARTUP with this body negotiates, if it can be parsed. */
  function StartupOptions(body: bytes): (cell: Cell) {
    match ReadMap(Strings, body)
    case Err(_) => None
    case Ok(options) => Some(Chosen(options.value))
  }

  function StartupCell(f: Frame): (cell: Cell) {
    if f.opcode == Request(Startup) then StartupOptions(f.body) else None
  }

  /** A STARTUP that asks for a compression, its options written in any order, negotiates that one. */
  lemma StartupNegotiates(options: map<bytes, bytes>, order: seq<Pair>, c: Compression, rest: bytes)
    requires WriteMap(Strings, order).Ok? && Lists(order, options)
    requires forall i :: 0 <= i < |order| ==> PairUtf8(Strings, order[i])
    requires COMPRESSION_KEY in options && options[COMPRESSION_KEY] == NameOf(c)
    ensures StartupOptions(WriteMap(Strings, order).value + rest) == Some(Some(c))
  {
    hide ReadMap, WriteMap, Lists, PairUtf8;
    MapRoundTrip(Strings, order, options, rest);
    NameRoundTrip(c);
  }

  predicate IsRegister(f: Frame) {
    f.opcode == Request(Register)
  }

  // --------------------------------------------------------------------- steps

  /** Bytes arrive from the driver or the cluster; a sender is named by the lane that it serves. */
  datatype Step =
    | Open
    | Replace(d: Direction, rules: seq<Rule>)
    | Arrive(c: nat, d: Direction, bs: bytes)
    | Receive(c: nat, d: Direction)
    | Take(c: nat, d: Direction)
    | Load(c: nat, d: Direction)
    | Apply(c: nat, d: Direction, toss: nat -> bool)
    | Crash(c: nat, d: Direction, toss: nat -> bool)
    | RunPass(c: nat, d: Direction, id: nat)
    | RunForge(c: nat, d: Direction, id: nat)
    | Transmit(c: nat, d: Direction)

  function ArriveOn(c: Conn, d: Direction, bs: bytes): (c': Conn) {
    var source := SourceOf(c, d);
    WithSource(c, d, source.(stream := source.stream + bs, unread := source.unread + bs))
  }

  /** A receiver waits until the bytes decide whether there is a frame. */
  predicate CanReceive(lib: Library, c: Conn, d: Direction) {
    && SourceOf(c, d).open
    && var r := ParseFrame(lib, d, c.cell, SourceOf(c, d).unread);
       r.Ok? || !(r.error.HeaderIoError? || r.error.ConnectionClosed?)
  }

  /** It stops at bytes that are no frame, and after a frame that it finds nobody to hand to. */
  function ReceiveOn(lib: Library, c: Conn, d: Direction): (c': Conn) {
    var source := SourceOf(c, d);
    match ParseFrame(lib, d, c.cell, source.unread)
    case Err(_) => WithSource(c, d, source.(open := false))
    case Ok(p) =>
      Enqueue(WithSource(c, d, source.(unread := p.rest, open := !LaneOf(c, d).phase.Dead?)), d, p.frame)
  }

  function Enqueue(c: Conn, d: Direction, f: Frame): (c': Conn) {
    var l := LaneOf(c, d);
    WithLane(c, d, l.(received := l.received + [f], queue := l.queue + [Msg(|l.received|, f)]))
  }

  /** The request processor raises the event flag and sets the cell, unless it was set before. */
  function TakeOn(c: Conn, d: Direction): (c': Conn)
    requires LaneOf(c, d).queue != []
  {
    var l := LaneOf(c, d);
    var m := l.queue[0];
    var c' := WithLane(c, d, l.(queue := l.queue[1..], phase := Stored(m)));
    if d.FromDriver? then
      c'.(hasEvents := c.hasEvents || IsRegister(m.frame),
          cell := if c.cell.Some? then c.cell else StartupCell(m.frame))
    else c'
  }

  function LoadOn(c: Conn, d: Direction): (c': Conn)
    requires LaneOf(c, d).phase.Stored?
  {
    var l := LaneOf(c, d);
    WithLane(c, d, l.(phase := Loaded(l.phase.msg, c.hasEvents)))
  }

  /** The default action sends the frame on; an applied rule leaves a task for its actions. */
  function ApplyOn(c: Conn, d: Direction, applied: Option<Reaction>): (c': Conn)
    requires LaneOf(c, d).phase.Loaded?
  {
    var l := LaneOf(c, d);
    var m := l.phase.msg;
    match applied
    case None =>
      Send(WithLane(c, d, l.(phase := Idle, fates := l.fates + [Forwarded])), true, Out(d, Default, m.id, m.frame))
    case Some(r) =>
      WithLane(c, d, l.(phase := Idle, fates := l.fates + [Consumed(r)],
                        tasks := l.tasks[m.id := Task(m.frame, r, r.toAddressee.Some?, r.toSender.Some?)]))
  }

  /** A panic of the scan, or a lock that an earlier panic left poisoned. */
  function CrashOn(c: Conn, d: Direction): (c': Conn)
    requires LaneOf(c, d).phase.Loaded?
  {
    var l := LaneOf(c, d);
    WithLane(c, d, l.(phase := Dead(l.phase.msg)))
  }

  function Processed(a: Action, f: Frame): (f': Frame) {
    if a.processor.Some? then a.processor.value(f) else f
  }

  predicate CanPass(l: Lane, id: nat) {
    id in l.tasks && l.tasks[id].pass && l.tasks[id].reaction.toAddressee.Some?
  }

  predicate CanForge(l: Lane, id: nat) {
    id in l.tasks && l.tasks[id].forge && l.tasks[id].reaction.toSender.Some?
  }

  function RunPassOn(c: Conn, d: Direction, id: nat): (c': Conn)
    requires CanPass(LaneOf(c, d), id)
  {
    var l := LaneOf(c, d);
    var t := l.tasks[id];
    Send(WithLane(c, d, l.(tasks := l.tasks[id := t.(pass := false)])), true,
         Out(d, Pass, id, Processed(t.reaction.toAddressee.value, t.frame)))
  }

  /** Without a processor there is nothing to forge: that task panics with all it had yet to do. */
  function RunForgeOn(c: Conn, d: Direction, id: nat): (c': Conn)
    requires CanForge(LaneOf(c, d), id)
  {
    var l := LaneOf(c, d);
    var t := l.tasks[id];
    var a := t.reaction.toSender.value;
    if a.processor.None? then WithLane(c, d, l.(tasks := l.tasks - {id}))
    else
      Send(WithLane(c, d, l.(tasks := l.tasks[id := t.(forge := false)])), false,
           Out(d, Forge, id, a.processor.value(t.frame)))
  }

  function LoadedContext(phase: Phase, no: nat, toss: nat -> bool): (ctx: EvaluationContext)
    requires phase.Loaded?
  {
    EvaluationContext(no, phase.hasEvents, phase.msg.frame.opcode, phase.msg.frame.body, toss)
  }

  function ContextOf(s: State, c: nat, d: Direction, toss: nat -> bool): (ctx: EvaluationContext)
    requires c < |s.conns| && LaneOf(s.conns[c], d).phase.Loaded?
  {
    LoadedContext(LaneOf(s.conns[c], d).phase, c, toss)
  }

  /** The reaction of the rule that a scan found. */
  function ReactionOf(rules: seq<Rule>, found: Found): (r: Option<Reaction>)
    requires found.Matched? ==> found.index < |rules|
  {
    if found.Matched? then Some(rules[found.index].reaction) else None
  }

  function ScanFor(s: State, c: nat, d: Direction, toss: nat -> bool): (r: Scanned)
    requires c < |s.conns| && LaneOf(s.conns[c], d).phase.Loaded?
  {
    Locked(RulesOf(s, d), ContextOf(s, c, d, toss))
  }

  predicate CanTransmit(c: Conn, d: Direction) {
    SinkOf(c, d).open && SinkOf(c, d).sent < |Channel(c, d, true)|
  }

  /** A sender stops at a frame that it cannot write. */
  function TransmitOn(lib: Library, c: Conn, d: Direction): (c': Conn)
    requires CanTransmit(c, d)
  {
    var sink := SinkOf(c, d);
    match WriteFrame(lib, c.cell, Channel(c, d, true)[sink.sent].frame)
    case Err(_) => WithSink(c, d, sink.(open := false))
    case Ok(bs) => WithSink(c, d, sink.(sent := sink.sent + 1, written := sink.written + bs))
  }

  predicate Enabled(s: State, step: Step) {
    if step.Open? then true
    else if step.Replace? then !RulesOf(s, step.d).poisoned
    else step.c < |s.conns| && EnabledOn(s, step)
  }

  predicate EnabledOn(s: State, step: Step)
    requires !step.Open? && !step.Replace? && step.c < |s.conns|
  {
    var l := LaneOf(s.conns[step.c], step.d);
    match step
    case Arrive(_, _, _) => true
    case Receive(c, d) => CanReceive(s.lib, s.conns[c], d)
    case Take(_, _) => l.phase.Idle? && l.queue != []
    case Load(_, _) => l.phase.Stored?
    case Apply(c, d, toss) => l.phase.Loaded? && !ScanFor(s, c, d, toss).found.Panicked?
    case Crash(c, d, toss) => l.phase.Loaded? && ScanFor(s, c, d, toss).found.Panicked?
    case RunPass(_, _, id) => CanPass(l, id)
    case RunForge(_, _, id) => CanForge(l, id)
    case Transmit(c, d) => CanTransmit(s.conns[c], d)
  }

  /** The connection that a step is about, after it. */
  function StepOn(s: State, step: Step): (c': Conn)
    requires !step.Open? && !step.Replace? && step.c < |s.conns| && EnabledOn(s, step)
  {
    var c, d := s.conns[step.c], step.d;
    match step
    case Arrive(_, _, bs) => ArriveOn(c, d, bs)
    case Receive(_, _) => ReceiveOn(s.lib, c, d)
    case Take(_, _) => TakeOn(c, d)
    case Load(_, _) => LoadOn(c, d)
    case Apply(i, _, toss) => ApplyOn(c, d, ReactionOf(RulesOf(s, d).rules, ScanFor(s, i, d, toss).found))
    case Crash(_, _, _) => CrashOn(c, d)
    case RunPass(_, _, id) => RunPassOn(c, d, id)
    case RunForge(_, _, id) => RunForgeOn(c, d, id)
    case Transmit(_, _) => TransmitOn(s.lib, c, d)
  }

  predicate Scans(step: Step) {
    step.Apply? || step.Crash?
  }

  function Do(s: State, step: Step): (s': State)
    requires Enabled(s, step)
  {
    if step.Open? then s.(conns := s.conns + [NEW_CONN])
    else if step.Replace? then WithRules(s, step.d, RuleGuard(step.rules, false))
    else
      var s' := s.(conns := s.conns[step.c := StepOn(s, step)]);
      if Scans(step)
      then WithRules(s', step.d, AfterLock(RulesOf(s, step.d), ContextOf(s, step.c, step.d, step.toss)))
      else s'
  }

  /** The steps lead from `s` to `s'`. */
  ghost predicate Runs(s: State, steps: seq<Step>, s': State)
    decreases |steps|
  {
    if steps == [] then s == s' else Enabled(s, steps[0]) && Runs(Do(s, steps[0]), steps[1..], s')
  }
}
