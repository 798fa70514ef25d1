/** LayerServer: the requests that steer the emitter, and the emitter thread they steer. */
module LayerServers {
  import opened Commands
  import opened DataEmitters

  const EXIT_REQ_RECV_CODE: int := 1785

  /** The reply to "emit CMD", and the code process_req returns for it. */
  function EmitReply(cmd: seq<char>, running: bool): (string, int) {
    if StartsWith(cmd, "status") then (if running then "running" else "stopped", 0)
    else if StartsWith(cmd, "start") then (if running then "ERROR: emitter already running" else "ok", 0)
    else if StartsWith(cmd, "stop") then (if running then "ok" else "ERROR: emitter not running", 0)
    else ("ERROR: unsupported emit command.", 1)
  }

  /** The messages "emit CMD" puts on the channel. */
  function EmitMessages(cmd: seq<char>, running: bool): seq<Message> {
    if StartsWith(cmd, "status") then []
    else if StartsWith(cmd, "start") then if running then [] else [START]
    else if StartsWith(cmd, "stop") then if running then [STOP] else []
    else []
  }

  /** The server's flag after "emit CMD". */
  function EmitFlag(cmd: seq<char>, running: bool): bool {
    if StartsWith(cmd, "status") then running
    else if StartsWith(cmd, "start") then true
    else if StartsWith(cmd, "stop") then false
    else running
  }

  /**
   A request queues a message exactly when it changes the flag; then, and only then, the reply is "ok", and the
   message makes the emitter's flag follow.
   */
  lemma QueuesIffChanges(cmd: seq<char>, running: bool)
    ensures EmitMessages(cmd, running) != [] <==> EmitFlag(cmd, running) != running
    ensures EmitReply(cmd, running).0 == "ok" <==> EmitFlag(cmd, running) != running
    ensures ObeyAll(running, EmitMessages(cmd, running)) == EmitFlag(cmd, running)
    ensures Alternating(EmitMessages(cmd, running), running)
  {
    SentIsRecognized();
    assert "ok"[0] == 'o' && "running"[0] == 'r' && "stopped"[0] == 's';
    assert "ERROR: emitter already running"[0] == "ERROR: emitter not running"[0] == 'E';
    assert "ERROR: unsupported emit command."[0] == 'E';
  }

  /** At most one of the three words is at the start of a command. */
  lemma OneWordOnly(cmd: seq<char>)
    ensures StartsWith(cmd, "status") ==> !StartsWith(cmd, "start") && !StartsWith(cmd, "stop")
    ensures StartsWith(cmd, "start") ==> !StartsWith(cmd, "stop")
  {
    if StartsWith(cmd, "status") {
      assert cmd[..6][2] == 'a' && cmd[..6][4] == 'u';
      assert |cmd| >= 5 && cmd[..5][4] == 'u' && cmd[..4][2] == 'a';
    } else if StartsWith(cmd, "start") {
      assert cmd[..5][2] == 'a' && cmd[..4][2] == 'a';
    }
  }

  /** Starts and stops by turns, the first of them changing the flag. */
  predicate Alternating(msgs: seq<Message>, running: bool)
    decreases |msgs|
  {
    msgs != [] ==> msgs[0] == (if running then STOP else START) && Alternating(msgs[1..], !running)
  }

  function RequestMessages(cmds: seq<seq<char>>, running: bool): seq<Message>
    decreases |cmds|
  {
    if cmds == [] then []
    else EmitMessages(cmds[0], running) + RequestMessages(cmds[1..], EmitFlag(cmds[0], running))
  }

  function RequestFlag(cmds: seq<seq<char>>, running: bool): bool
    decreases |cmds|
  {
    if cmds == [] then running else RequestFlag(cmds[1..], EmitFlag(cmds[0], running))
  }

  /** Whatever is requested, starts and stops go out by turns, and obeying them gives the server's flag. */
  lemma {:induction false} RequestsAlternate(cmds: seq<seq<char>>, running: bool)
    ensures Alternating(RequestMessages(cmds, running), running)
    ensures ObeyAll(running, RequestMessages(cmds, running)) == RequestFlag(cmds, running)
    decreases |cmds|
  {
    if cmds == [] {
    } else {
      var first, flag := EmitMessages(cmds[0], running), EmitFlag(cmds[0], running);
      var rest := RequestMessages(cmds[1..], flag);
      QueuesIffChanges(cmds[0], running);
      RequestsAlternate(cmds[1..], flag);
      if first == [] {
        assert first + rest == rest;
      } else {
        assert (first + rest)[0] == first[0] && (first + rest)[1..] == rest;
      }
    }
  }

  /** One iteration of the emitter: its clock readings, and whether a non-blocking receive finds nothing. */
  datatype Turn = Turn(ticks: seq<Tick>, miss: bool)

  /** How many of these turns receive. */
  function Receives(turns: seq<Turn>): nat {
    if turns == [] then 0 else (if turns[0].miss then 0 else 1) + Receives(turns[1..])
  }

  lemma ReceivesStep(turns: seq<Turn>, j: nat)
    requires j < |turns|
    ensures Receives(turns[j..]) == (if turns[j].miss then 0 else 1) + Receives(turns[j + 1..])
  {
    assert turns[j..][1..] == turns[j + 1..];
  }

  class LayerServer {
    const emitter: DataEmitter
    var dataEmitterRunning: bool
    var channel: seq<Message>        // sent and not yet taken by the emitter
    var replies: seq<string>

    /** Only start and stop are pending, and obeying them gives the emitter the server's flag. */
    ghost predicate Valid()
      reads this, emitter
    {
      && (forall j | 0 <= j < |channel| :: channel[j] == START || channel[j] == STOP)
      && ObeyAll(emitter.running, channel) == dataEmitterRunning
    }

    constructor (emitter: DataEmitter)
      requires !emitter.running
      ensures Valid() && this.emitter == emitter && channel == [] && !dataEmitterRunning && replies == []
    {
      this.emitter := emitter;
      dataEmitterRunning, channel, replies := false, [], [];
    }

    method StopPacketEmitter() returns (ret: int)
      requires Valid()
      modifies this`dataEmitterRunning, this`channel
      ensures Valid() && ret == 0 && !dataEmitterRunning && channel == old(channel) + [STOP]
    {
      SentIsRecognized();
      ObeyAllSnoc(emitter.running, channel, STOP);
      channel := channel + [STOP];
      dataEmitterRunning := false;
      ret := 0;
    }

    /** An emitter that is already running is stopped first. */
    method StartPacketEmitter() returns (ret: int)
      requires Valid()
      modifies this`dataEmitterRunning, this`channel
      ensures Valid() && ret == 0 && dataEmitterRunning
      ensures channel == old(channel) + if old(dataEmitterRunning) then [STOP, START] else [START]
    {
      if dataEmitterRunning {
        var stopped := StopPacketEmitter();
        if stopped != 0 {
          return 1;
        }
      }
      SentIsRecognized();
      ObeyAllSnoc(emitter.running, channel, START);
      channel := channel + [START];
      dataEmitterRunning := true;
      ret := 0;
    }

    /** "emit status", "emit start" and "emit stop", the latter two only when they change something. */
    method ProcessEmitMsg(cmd: seq<char>) returns (ret: int)
      requires Valid()
      modifies this
      ensures Valid()
      ensures var (reply, code) := EmitReply(cmd, old(dataEmitterRunning));
              replies == old(replies) + [reply] && ret == code
      ensures StartsWith(cmd, "status") ==>
                replies == old(replies) + [if old(dataEmitterRunning) then "running" else "stopped"]
                && ret == 0 && channel == old(channel)
      ensures StartsWith(cmd, "start") ==>
                if old(dataEmitterRunning)
                then replies == old(replies) + ["ERROR: emitter already running"] && ret == 0 && channel == old(channel)
                else replies == old(replies) + ["ok"] && ret == 0 && channel == old(channel) + [START]
      ensures StartsWith(cmd, "stop") ==>
                if old(dataEmitterRunning)
                then replies == old(replies) + ["ok"] && ret == 0 && channel == old(channel) + [STOP]
                else replies == old(replies) + ["ERROR: emitter not running"] && ret == 0 && channel == old(channel)
      ensures !StartsWith(cmd, "status") && !StartsWith(cmd, "start") && !StartsWith(cmd, "stop") ==>
                replies == old(replies) + ["ERROR: unsupported emit command."] && ret == 1 && channel == old(channel)
      ensures channel == old(channel) + EmitMessages(cmd, old(dataEmitterRunning))
      ensures dataEmitterRunning == EmitFlag(cmd, old(dataEmitterRunning))
    {
      OneWordOnly(cmd);
      var reply;
      if StartsWith(cmd, "status") {
        reply, ret := if dataEmitterRunning then "running" else "stopped", 0;
      } else if StartsWith(cmd, "start") {
        if dataEmitterRunning {
          reply, ret := "ERROR: emitter already running", 0;
        } else {
          var r := StartPacketEmitter();
          reply, ret := "ok", 0;
        }
      } else if StartsWith(cmd, "stop") {
        if !dataEmitterRunning {
          reply, ret := "ERROR: emitter not running", 0;
        } else {
          var r := StopPacketEmitter();
          reply, ret := "ok", 0;
        }
      } else {
        reply, ret := "ERROR: unsupported emit command.", 1;
      }
      replies := replies + [reply];
    }

    /** The emitter is the thread's own: the server writes to nothing it uses. */
    ghost predicate ThreadValid()
      reads this, emitter, emitter.vatas, emitter.devices, Objects(emitter.packets)
    {
      emitter.Valid() && this !in emitter.devices && this !in emitter.objects && emitter != this as object
    }

    /** The emitter, when running, does not wait, and may miss a message that is on its way. */
    predicate Takes(miss: bool)
      reads this, emitter
    {
      channel != [] && !(miss && emitter.running)
    }

    /** One iteration of the emitter thread, with the oldest message if it takes one. */
    method EmitterTurn(ts: seq<Tick>, miss: bool) returns (exit: bool)
      requires ThreadValid() && |ts| == emitter.n
      requires channel != [] || emitter.running   // otherwise the thread waits
      modifies this`channel, emitter.devices, emitter.objects
      ensures ThreadValid() && dataEmitterRunning == old(dataEmitterRunning) && replies == old(replies)
      ensures forall o | o in emitter.objects :: o in old(emitter.objects) || fresh(o)
      ensures channel == if old(Takes(miss)) then old(channel)[1..] else old(channel)
      ensures exit <==> old(Takes(miss)) && HaltReceived(old(channel)[0])
      ensures ObeyAll(emitter.running, channel) == ObeyAll(old(emitter.running), old(channel))
      ensures old(Valid()) ==> Valid()
      ensures exit || !emitter.running ==> emitter.log == old(emitter.log) && emitter.sent == old(emitter.sent)
                                           && emitter.QueuesAre(old(emitter.Queues()))
      ensures !exit && emitter.running ==> emitter.Served(old(emitter.log), old(emitter.Queues()), ts, emitter.n)
    {
      var msg: Message := [];
      var rest := channel;
      if channel != [] && !(miss && emitter.running) {
        msg := channel[0];
        rest := channel[1..];
      }
      ghost var qs := emitter.Queues();
      exit := emitter.Iterate(msg, ts, qs);
      channel := rest;
    }

    /**
     The halt branch of process_req: halt is queued, the thread is joined, that is, makes turns until it exits,
     and the exit code is returned. Nothing is left on the channel. The turns may miss messages as often as
     they like, but in the end receive as many as are pending.
     */
    method KillPacketEmitter(turns: seq<Turn>) returns (ret: int)
      requires Valid() && ThreadValid()
      requires Receives(turns) > |channel| && forall j | 0 <= j < |turns| :: |turns[j].ticks| == emitter.n
      modifies this`channel, this`dataEmitterRunning, emitter.devices, emitter.objects
      ensures ThreadValid() && ret == 1785
      ensures channel == [] && !dataEmitterRunning
      ensures emitter.running == old(dataEmitterRunning)
    {
      SendHalt();
      var j := 0;
      var exit := false;
      assert turns[0..] == turns;
      while !exit
        invariant ThreadValid() && dataEmitterRunning == old(dataEmitterRunning)
        invariant forall o | o in emitter.objects :: o in old(emitter.objects) || fresh(o)
        invariant j <= |turns| && Receives(turns[j..]) >= |channel|
        invariant if exit then channel == [] else HaltLast(channel)
        invariant ObeyAll(emitter.running, channel) == dataEmitterRunning
        decreases !exit, |turns| - j
      {
        HaltFirst(channel);
        ReceivesStep(turns, j);
        exit := EmitterTurn(turns[j].ticks, turns[j].miss);
        j := j + 1;
      }
      ClearFlag();
      ret := EXIT_REQ_RECV_CODE;
    }

    method SendHalt()
      requires Valid() && ThreadValid()
      modifies this`channel
      ensures ThreadValid() && channel == old(channel) + [HALT] && HaltLast(channel)
      ensures ObeyAll(emitter.running, channel) == dataEmitterRunning
    {
      SentIsRecognized();
      ObeyAllSnoc(emitter.running, channel, HALT);
      channel := channel + [HALT];
    }

    method ClearFlag()
      requires ThreadValid()
      modifies this`dataEmitterRunning
      ensures ThreadValid() && !dataEmitterRunning
    {
      dataEmitterRunning := false;
    }
  }

  /** Starts and stops, then one halt. */
  predicate HaltLast(msgs: seq<Message>) {
    && msgs != [] && msgs[|msgs| - 1] == HALT
    && forall j | 0 <= j < |msgs| - 1 :: msgs[j] == START || msgs[j] == STOP
  }

  /** The first of them is taken as a halt only when it is the last. */
  lemma HaltFirst(msgs: seq<Message>)
    requires HaltLast(msgs)
    ensures if HaltReceived(msgs[0]) then |msgs| == 1 else HaltLast(msgs[1..])
  {
    SentIsRecognized();
    if |msgs| > 1 {
      assert !HaltReceived(msgs[0]);
    }
  }
}
