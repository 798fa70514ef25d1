/** The messages on the channel from the server thread to the emitter thread. */
module Commands {
  type Message = seq<char>

  const START: Message := "start"
  const STOP: Message := "stop\0"   // stop_packet_emitter sends five bytes
  const HALT: Message := "halt"

  predicate StartsWith(msg: Message, word: seq<char>) {
    |msg| >= |word| && msg[..|word|] == word
  }

  predicate HaltReceived(msg: Message) {
    StartsWith(msg, "halt")
  }

  predicate StopReceived(msg: Message) {
    StartsWith(msg, "stop")
  }

  predicate StartReceived(msg: Message) {
    StartsWith(msg, "start")
  }

  /** The emitter's flag after it looks at a message, for messages other than halt. */
  function Obey(running: bool, msg: Message): bool {
    if HaltReceived(msg) then running
    else if StopReceived(msg) then false
    else if StartReceived(msg) then true
    else running
  }

  /** ... and after a queue of messages in order. */
  function ObeyAll(running: bool, msgs: seq<Message>): bool
    decreases |msgs|
  {
    if msgs == [] then running else ObeyAll(Obey(running, msgs[0]), msgs[1..])
  }

  lemma {:induction false} ObeyAllSnoc(running: bool, msgs: seq<Message>, msg: Message)
    ensures ObeyAll(running, msgs + [msg]) == Obey(ObeyAll(running, msgs), msg)
    decreases |msgs|
  {
    if msgs == [] {
      assert ([] + [msg])[1..] == [];
    } else {
      assert (msgs + [msg])[1..] == msgs[1..] + [msg];
      ObeyAllSnoc(Obey(running, msgs[0]), msgs[1..], msg);
    }
  }

  /** At most one of the three tests holds, so their order in the loop does not matter. */
  lemma TestsExclusive(msg: Message)
    ensures !(HaltReceived(msg) && StopReceived(msg))
    ensures !(HaltReceived(msg) && StartReceived(msg))
    ensures !(StopReceived(msg) && StartReceived(msg))
  {
    if |msg| >= 4 {
      assert HaltReceived(msg) ==> msg[..4][0] == 'h';
      assert StopReceived(msg) ==> msg[..4][0] == 's' && msg[..4][2] == 'o';
      if |msg| >= 5 {
        assert StartReceived(msg) ==> msg[..5][0] == 's' && msg[..5][2] == 'a';
      }
    }
  }

  /** The three tests, character by character. */
  lemma TestsByCharacter(msg: Message)
    ensures HaltReceived(msg) <==> |msg| >= 4 && msg[0] == 'h' && msg[1] == 'a' && msg[2] == 'l' && msg[3] == 't'
    ensures StopReceived(msg) <==> |msg| >= 4 && msg[0] == 's' && msg[1] == 't' && msg[2] == 'o' && msg[3] == 'p'
    ensures StartReceived(msg) <==>
              |msg| >= 5 && msg[0] == 's' && msg[1] == 't' && msg[2] == 'a' && msg[3] == 'r' && msg[4] == 't'
  {
    if |msg| >= 4 {
      assert msg[..4] == [msg[0], msg[1], msg[2], msg[3]];
    }
    if |msg| >= 5 {
      assert msg[..5] == [msg[0], msg[1], msg[2], msg[3], msg[4]];
    }
  }

  /** What the server sends is what the emitter recognizes. */
  lemma SentIsRecognized()
    ensures HaltReceived(HALT) && !HaltReceived(STOP) && !HaltReceived(START)
    ensures forall r :: Obey(r, START) && !Obey(r, STOP)
  {
    TestsExclusive(START);
    TestsExclusive(STOP);
    assert STOP[..4] == "stop";
  }
}
