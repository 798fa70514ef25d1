/**
 The start/stop/halt protocol: the server thread and the emitter thread as two processes that share only
 an in-order channel. Every send, receive and flag assignment is a step of its own.
 */
module Control {
  import opened Commands

  /** Where the server thread is. StopToSend and StopSent remember whether a start follows. */
  datatype ServerPc =
    | Idle
    | StopToSend(thenStart: bool) | StopSent(thenStart: bool)
    | StartToSend | StartSent
    | HaltToSend | Joining | Joined | Returned

  datatype EmitterPc = Top | Got(msg: Message) | Reading | Exited

  datatype Act = Obeyed(msg: Message) | FifosRead

  datatype World = World(
    server: ServerPc,
    serverFlag: bool,            // data_emitter_running
    channel: seq<Message>,
    emitter: EmitterPc,
    emitterFlag: bool,           // running
    sent: seq<Message>,
    taken: seq<Message>,
    acts: seq<Act>               // what the emitter did so far
  )

  const INITIAL := World(Idle, false, [], Top, false, [], [], [])

  datatype Move =
    | CallStart | CallStop | CallHalt   // the server begins start_packet_emitter, stop_packet_emitter, the halt branch
    | ServerStep                        // the server's next send, join or assignment
    | Receive                           // the emitter takes the oldest message
    | Miss                              // a non-blocking receive returns nothing
    | EmitterStep                       // the emitter acts on what it received, or reads the FIFOs

  predicate Enabled(w: World, m: Move) {
    match m
    case CallStart => w.server.Idle?
    case CallStop => w.server.Idle?
    case CallHalt => w.server.Idle?
    case ServerStep => !w.server.Idle? && !w.server.Returned? && (w.server.Joining? ==> w.emitter.Exited?)
    case Receive => w.emitter.Top? && w.channel != []
    case Miss => w.emitter.Top? && w.emitterFlag
    case EmitterStep => w.emitter.Got? || w.emitter.Reading?
  }

  function Send(w: World, msg: Message, next: ServerPc): World {
    w.(server := next, channel := w.channel + [msg], sent := w.sent + [msg])
  }

  function AfterServer(w: World): World
    requires Enabled(w, ServerStep)
  {
    match w.server
    case StopToSend(r) => Send(w, STOP, StopSent(r))
    case StopSent(r) => w.(server := if r then StartToSend else Idle, serverFlag := false)
    case StartToSend => Send(w, START, StartSent)
    case StartSent => w.(server := Idle, serverFlag := true)
    case HaltToSend => Send(w, HALT, Joining)
    case Joining => w.(server := Joined)
    case Joined => w.(server := Returned, serverFlag := false)
  }

  function AfterEmitter(w: World): World
    requires Enabled(w, EmitterStep)
  {
    match w.emitter
    case Reading => w.(emitter := Top, acts := w.acts + [FifosRead])
    case Got(msg) =>
      if HaltReceived(msg) then w.(emitter := Exited, acts := w.acts + [Obeyed(msg)])
      else
        var flag := Obey(w.emitterFlag, msg);
        w.(emitter := if flag then Reading else Top, emitterFlag := flag, acts := w.acts + [Obeyed(msg)])
  }

  function After(w: World, m: Move): World
    requires Enabled(w, m)
  {
    match m
    case CallStart => w.(server := if w.serverFlag then StopToSend(true) else StartToSend)
    case CallStop => w.(server := StopToSend(false))
    case CallHalt => w.(server := HaltToSend)
    case ServerStep => AfterServer(w)
    case Receive => w.(emitter := Got(w.channel[0]), channel := w.channel[1..], taken := w.taken + [w.channel[0]])
    case Miss => w.(emitter := Got([]))
    case EmitterStep => AfterEmitter(w)
  }

  /** A run: every move is enabled where it is made. */
  predicate IsRun(w: World, ms: seq<Move>)
    decreases |ms|
  {
    ms != [] ==> Enabled(w, ms[0]) && IsRun(After(w, ms[0]), ms[1..])
  }

  function End(w: World, ms: seq<Move>): World
    requires IsRun(w, ms)
    decreases |ms|
  {
    if ms == [] then w else End(After(w, ms[0]), ms[1..])
  }

  // ---------- the invariant ----------

  predicate HaltQueued(w: World) {
    w.server.Joining? || w.server.Joined? || w.server.Returned?
  }

  /** The flag the server has, or is about to give itself after its last send. */
  function Target(w: World): bool {
    match w.server
    case StartSent => true
    case StopSent(_) => false
    case _ => w.serverFlag
  }

  /** The flag the emitter has once it acts on the message in hand. */
  function Effective(w: World): bool {
    if w.emitter.Got? then Obey(w.emitterFlag, w.emitter.msg) else w.emitterFlag
  }

  /** The last command the emitter acted on was a start. */
  function LastIsStart(acts: seq<Act>): bool {
    if acts == [] then false
    else
      var before, a := acts[..|acts| - 1], acts[|acts| - 1];
      if a.FifosRead? then LastIsStart(before) else Obey(LastIsStart(before), a.msg)
  }

  /** FIFOs are read only while the last command acted on is a start. */
  predicate ReadsAllowed(acts: seq<Act>) {
    forall j | 0 <= j < |acts| && acts[j].FifosRead? :: LastIsStart(acts[..j])
  }

  predicate Inv(w: World) {
    && w.sent == w.taken + w.channel
    && (forall j | 0 <= j < |w.sent| :: w.sent[j] in {START, STOP, HALT})
    && (forall j | 0 <= j < |w.sent| :: w.sent[j] == HALT <==> HaltQueued(w) && j == |w.sent| - 1)
    && (HaltQueued(w) ==> w.sent != [])
    && (w.server.Joined? || w.server.Returned? ==> w.emitter.Exited?)
    && (w.emitter.Exited? ==> HaltQueued(w) && w.channel == [])
    && (w.emitter.Got? && w.emitter.msg != [] ==> w.taken != [] && w.emitter.msg == w.taken[|w.taken| - 1])
    && (HaltQueued(w) && w.channel == [] ==> w.emitter.Exited? || w.emitter == Got(HALT))
    && (w.emitter.Reading? ==> w.emitterFlag)
    && (!w.server.Returned? ==> ObeyAll(Effective(w), w.channel) == Target(w))
    && (w.server.Returned? ==> !w.serverFlag)
    && LastIsStart(w.acts) == w.emitterFlag && ReadsAllowed(w.acts)
  }

  lemma ActsSnoc(acts: seq<Act>, a: Act)
    requires ReadsAllowed(acts) && (a.FifosRead? ==> LastIsStart(acts))
    ensures ReadsAllowed(acts + [a])
    ensures LastIsStart(acts + [a]) == if a.FifosRead? then LastIsStart(acts) else Obey(LastIsStart(acts), a.msg)
  {
    var all := acts + [a];
    assert all[..|acts|] == acts;
    forall j | 0 <= j < |all| && all[j].FifosRead?
      ensures LastIsStart(all[..j])
    {
      if j < |acts| {
        assert all[..j] == acts[..j];
      }
    }
  }

  lemma NothingObeyed(flag: bool)
    ensures Obey(flag, []) == flag && !HaltReceived([])
  {
  }

  lemma ServerKeepsInv(w: World)
    requires Inv(w) && Enabled(w, ServerStep)
    ensures Inv(After(w, ServerStep))
  {
    match w.server {
      case StopToSend(r) => SendKeepsInv(w, STOP, StopSent(r));
      case StartToSend => SendKeepsInv(w, START, StartSent);
      case HaltToSend => SendKeepsInv(w, HALT, Joining);
      case _ =>
    }
  }

  lemma SendKeepsInv(w: World, msg: Message, next: ServerPc)
    requires Inv(w) && !HaltQueued(w)
    requires (msg, next) == (START, StartSent) || (msg, next) == (HALT, Joining)
             || (msg == STOP && next.StopSent?)
    requires msg == HALT ==> w.server.HaltToSend?
    ensures Inv(Send(w, msg, next))
  {
    SentIsRecognized();
    ObeyAllSnoc(Effective(w), w.channel, msg);
    Regroup(w.taken, w.channel, msg);
  }

  lemma Regroup(a: seq<Message>, b: seq<Message>, msg: Message)
    ensures a + b + [msg] == a + (b + [msg])
  {
  }

  lemma ReceiveKeepsInv(w: World)
    requires Inv(w) && Enabled(w, Receive)
    ensures Inv(After(w, Receive))
  {
    var msg := w.channel[0];
    var r := After(w, Receive);
    assert w.channel == [msg] + w.channel[1..];
    assert w.taken + w.channel == w.taken + [msg] + w.channel[1..];
    assert w.sent[|w.taken|] == msg;
    assert ObeyAll(Effective(w), w.channel) == ObeyAll(Effective(r), r.channel);
    if HaltQueued(w) && r.channel == [] {
      assert |w.sent| == |w.taken| + 1;
    }
  }

  lemma EmitterKeepsInv(w: World)
    requires Inv(w) && Enabled(w, EmitterStep)
    ensures Inv(After(w, EmitterStep))
  {
    SentIsRecognized();
    if w.emitter.Reading? {
      ActsSnoc(w.acts, FifosRead);
    } else {
      var msg := w.emitter.msg;
      ActsSnoc(w.acts, Obeyed(msg));
      NothingObeyed(w.emitterFlag);
      if HaltReceived(msg) {
        assert msg == w.taken[|w.taken| - 1] == w.sent[|w.taken| - 1];
        assert msg == HALT;
        assert |w.taken| == |w.sent|;
      }
    }
  }

  lemma MoveKeepsInv(w: World, m: Move)
    requires Inv(w) && Enabled(w, m)
    ensures Inv(After(w, m))
  {
    match m {
      case ServerStep => ServerKeepsInv(w);
      case Receive => ReceiveKeepsInv(w);
      case EmitterStep => EmitterKeepsInv(w);
      case Miss => NothingObeyed(w.emitterFlag);
      case _ =>
    }
  }

  lemma {:induction false} RunKeepsInv(w: World, ms: seq<Move>)
    requires Inv(w) && IsRun(w, ms)
    ensures Inv(End(w, ms))
    decreases |ms|
  {
    if ms == [] {
    } else {
      MoveKeepsInv(w, ms[0]);
      RunKeepsInv(After(w, ms[0]), ms[1..]);
    }
  }

  // ---------- what every interleaving keeps ----------

  /**
   Simulation: whenever the server is between calls, replaying the pending messages on the emitter's flag
   gives the server's flag. With nothing pending or in hand the two flags are equal.
   */
  lemma FlagsAgree(ms: seq<Move>)
    requires IsRun(INITIAL, ms) && End(INITIAL, ms).server.Idle?
    ensures var w := End(INITIAL, ms);
            && ObeyAll(Effective(w), w.channel) == w.serverFlag
            && (w.channel == [] && !w.emitter.Got? ==> w.emitterFlag == w.serverFlag)
  {
    RunKeepsInv(INITIAL, ms);
  }

  /** The channel neither loses nor reorders messages, and halt is the last one sent. */
  lemma ChannelInOrder(ms: seq<Move>)
    requires IsRun(INITIAL, ms)
    ensures var w := End(INITIAL, ms);
            && w.sent == w.taken + w.channel
            && forall j | 0 <= j < |w.sent| && w.sent[j] == HALT :: j == |w.sent| - 1
  {
    RunKeepsInv(INITIAL, ms);
  }

  /** The FIFOs are read only when the last command acted on is a start: never after a stop or before a start. */
  lemma ReadsFollowStart(ms: seq<Move>)
    requires IsRun(INITIAL, ms)
    ensures ReadsAllowed(End(INITIAL, ms).acts)
  {
    RunKeepsInv(INITIAL, ms);
  }

  /** When the halt branch returns, the emitter has stopped, took every message, and both are done. */
  lemma HaltIsFinal(ms: seq<Move>)
    requires IsRun(INITIAL, ms) && End(INITIAL, ms).server.Returned?
    ensures var w := End(INITIAL, ms);
            && w.emitter.Exited? && w.channel == [] && w.taken == w.sent && !w.serverFlag
            && forall m :: !Enabled(w, m)
  {
    RunKeepsInv(INITIAL, ms);
    var w := End(INITIAL, ms);
    assert w.taken + [] == w.taken;
  }

  function Receives(ms: seq<Move>): nat {
    if ms == [] then 0 else (if ms[0].Receive? then 1 else 0) + Receives(ms[1..])
  }

  /** Once halt is queued each receive shrinks the channel, and nothing refills it. */
  lemma {:induction false} HaltBoundsReceives(w: World, ms: seq<Move>)
    requires Inv(w) && HaltQueued(w) && IsRun(w, ms)
    ensures HaltQueued(End(w, ms))
    ensures |End(w, ms).channel| + Receives(ms) == |w.channel|
    decreases |ms|
  {
    if ms == [] {
    } else {
      MoveKeepsInv(w, ms[0]);
      HaltBoundsReceives(After(w, ms[0]), ms[1..]);
    }
  }

  /** The emitter's next move on its way out. */
  function NextOut(w: World): Move {
    if w.emitter.Top? then Receive else EmitterStep
  }

  function Distance(w: World): nat {
    3 * |w.channel| + match w.emitter case Exited => 0 case Top => 1 case Got(_) => 3 case Reading => 2
  }

  /** No deadlock: until it exits the emitter can always move, and its own moves lead out within this bound. */
  lemma {:induction false} EmitterCanExit(w: World) returns (ms: seq<Move>)
    requires Inv(w) && HaltQueued(w)
    ensures IsRun(w, ms) && End(w, ms).emitter.Exited? && |ms| <= Distance(w)
    decreases Distance(w)
  {
    if w.emitter.Exited? {
      ms := [];
    } else {
      var m := NextOut(w);
      var v := After(w, m);
      MoveKeepsInv(w, m);
      var rest := EmitterCanExit(v);
      ms := [m] + rest;
      assert ms[1..] == rest;
    }
  }

  // ---------- the emitter does read ----------

  /** Act j is a message other than halt after which the emitter runs. */
  predicate CallsForReading(acts: seq<Act>, j: int) {
    0 <= j < |acts| && acts[j].Obeyed? && !HaltReceived(acts[j].msg) && LastIsStart(acts[..j + 1])
  }

  /** The FIFOs were read right after act j, or are being read now. */
  predicate ReadAfter(acts: seq<Act>, reading: bool, j: int) {
    if j + 1 < |acts| then 0 <= j && acts[j + 1].FifosRead? else reading
  }

  ghost predicate Reads(w: World) {
    forall j | CallsForReading(w.acts, j) :: ReadAfter(w.acts, w.emitter.Reading?, j)
  }

  lemma CallsPrefix(acts: seq<Act>, a: Act, j: int)
    requires j < |acts|
    ensures CallsForReading(acts + [a], j) <==> CallsForReading(acts, j)
  {
    if 0 <= j {
      assert (acts + [a])[..j + 1] == acts[..j + 1];
    }
  }

  lemma EmitterKeepsReads(w: World)
    requires Inv(w) && Reads(w) && Enabled(w, EmitterStep)
    ensures Reads(After(w, EmitterStep))
  {
    var r := After(w, EmitterStep);
    var a := r.acts[|w.acts|];
    assert r.acts == w.acts + [a];
    forall j | CallsForReading(r.acts, j)
      ensures ReadAfter(r.acts, r.emitter.Reading?, j)
    {
      if j < |w.acts| {
        CallsPrefix(w.acts, a, j);
        assert ReadAfter(w.acts, w.emitter.Reading?, j);
      } else {
        assert r.acts[..j + 1] == r.acts;
        ActsSnoc(w.acts, a);
      }
    }
  }

  lemma MoveKeepsReads(w: World, m: Move)
    requires Inv(w) && Reads(w) && Enabled(w, m)
    ensures Reads(After(w, m))
  {
    var r := After(w, m);
    if m.EmitterStep? {
      EmitterKeepsReads(w);
    } else {
      assert r.acts == w.acts && (r.emitter == w.emitter || !w.emitter.Reading?);
    }
  }

  lemma {:induction false} RunKeepsReads(w: World, ms: seq<Move>)
    requires Inv(w) && Reads(w) && IsRun(w, ms)
    ensures Reads(End(w, ms))
    decreases |ms|
  {
    if ms == [] {
    } else {
      MoveKeepsInv(w, ms[0]);
      MoveKeepsReads(w, ms[0]);
      RunKeepsReads(After(w, ms[0]), ms[1..]);
    }
  }

  /**
   Whenever the emitter acts on a message other than halt, or on none, and the last command was a start, its next
   act is to read the FIFOs: it has done so already, or is at it.
   */
  lemma StartIsFollowedByReads(ms: seq<Move>, j: nat)
    requires IsRun(INITIAL, ms)
    requires var acts := End(INITIAL, ms).acts;
             j < |acts| && acts[j].Obeyed? && !HaltReceived(acts[j].msg) && LastIsStart(acts[..j + 1])
    ensures var w := End(INITIAL, ms);
            (j + 1 < |w.acts| && w.acts[j + 1].FifosRead?) || (j + 1 == |w.acts| && w.emitter == Reading)
  {
    RunKeepsReads(INITIAL, ms);
    assert CallsForReading(End(INITIAL, ms).acts, j);
  }

  /** The step on a message has the outcomes of DataEmitter.Iterate: exit, new flag, and whether FIFOs are read. */
  lemma StepIsIteration(w: World)
    requires w.emitter.Got?
    ensures var r, msg := After(w, EmitterStep), w.emitter.msg;
            && (r.emitter == Exited <==> HaltReceived(msg)) && r.emitterFlag == Obey(w.emitterFlag, msg)
            && (r.emitter == Reading <==> !HaltReceived(msg) && Obey(w.emitterFlag, msg))
            && (r.emitter == Top <==> !HaltReceived(msg) && !Obey(w.emitterFlag, msg))
  {
  }

  // ---------- what the server sends ----------

  /** No start is sent but after a stop, or first. */
  predicate StartsApart(sent: seq<Message>) {
    forall j | 0 < j < |sent| && sent[j] == START :: sent[j - 1] == STOP
  }

  predicate LastSentIsStart(sent: seq<Message>) {
    sent != [] && sent[|sent| - 1] == START
  }

  /** Until halt is sent, the flag the server has or is about to have is that of its last message. */
  predicate SendsInOrder(w: World) {
    && StartsApart(w.sent)
    && (!HaltQueued(w) ==> Target(w) == LastSentIsStart(w.sent))
    && (w.server == StartToSend ==> !w.serverFlag)
  }

  lemma StartsApartSnoc(sent: seq<Message>, msg: Message)
    requires StartsApart(sent) && (msg == START ==> sent == [] || sent[|sent| - 1] == STOP)
    ensures StartsApart(sent + [msg]) && LastSentIsStart(sent + [msg]) == (msg == START)
  {
  }

  lemma ServerKeepsOrder(w: World)
    requires Inv(w) && SendsInOrder(w) && Enabled(w, ServerStep)
    ensures SendsInOrder(After(w, ServerStep))
  {
    SentIsRecognized();
    match w.server {
      case StopToSend(r) => StartsApartSnoc(w.sent, STOP);
      case StartToSend =>
        assert w.sent != [] ==> w.sent[|w.sent| - 1] in {START, STOP, HALT};
        StartsApartSnoc(w.sent, START);
      case HaltToSend => StartsApartSnoc(w.sent, HALT);
      case _ =>
    }
  }

  lemma MoveKeepsOrder(w: World, m: Move)
    requires Inv(w) && SendsInOrder(w) && Enabled(w, m)
    ensures SendsInOrder(After(w, m))
  {
    if m.ServerStep? {
      ServerKeepsOrder(w);
    }
  }

  lemma {:induction false} RunKeepsOrder(w: World, ms: seq<Move>)
    requires Inv(w) && SendsInOrder(w) && IsRun(w, ms)
    ensures SendsInOrder(End(w, ms))
    decreases |ms|
  {
    if ms == [] {
    } else {
      MoveKeepsInv(w, ms[0]);
      MoveKeepsOrder(w, ms[0]);
      RunKeepsOrder(After(w, ms[0]), ms[1..]);
    }
  }

  /** An emitter that is running is stopped before it is started again. */
  lemma StopBeforeRestart(ms: seq<Move>, j: nat)
    requires IsRun(INITIAL, ms) && 0 < j < |End(INITIAL, ms).sent| && End(INITIAL, ms).sent[j] == START
    ensures End(INITIAL, ms).sent[j - 1] == STOP
  {
    RunKeepsOrder(INITIAL, ms);
  }
}
