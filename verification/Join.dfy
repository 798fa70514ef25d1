/**
 What the aligner is for: with distinct ids in each FIFO and nothing evicted, the messages are the
 join of the FIFOs on the event id, whatever order the records arrive in. And what eviction can do.
 */
module Join {
  import opened Machine
  import opened Wire
  import opened Packets
  import opened Aligner

  // ---------- the specification: consumed FIFO prefixes only ----------

  /** The last record with id k among these. */
  function Latest(recs: seq<Rec>, k: int): Slot {
    if recs == [] then Missing
    else if HasId(recs[|recs| - 1].words, k) then Filled(recs[|recs| - 1].words, recs[|recs| - 1].nfifo)
    else Latest(recs[..|recs| - 1], k)
  }

  /** Event k put together from each ASIC's consumed records. */
  function Joined(n: nat, log: seq<Read>, k: int): (slots: seq<Slot>)
    ensures |slots| == n
  {
    seq(n, i requires 0 <= i < n => Latest(Consumed(log, i), k))
  }

  predicate InAll(n: nat, log: seq<Read>, k: int) {
    forall i: nat | i < n :: Seen(Taken(log, i), k)
  }

  predicate InSome(n: nat, log: seq<Read>, k: int) {
    exists i: nat :: i < n && Seen(Taken(log, i), k)
  }

  /** Something is evicted when room is made for this record. */
  ghost predicate Evicts(m: map<int, Packet>, e: Read)
    requires |e.words| > 0
  {
    Key(e) !in m && |m| > MAX_PACKET_MAP_SIZE && StaleKeys(m, e.sweepAt) != {}
  }

  ghost predicate NoEviction(n: nat, log: seq<Read>)
    requires n <= MAX_VATA && ValidLog(n, log)
  {
    log != [] ==>
      var before := log[..|log| - 1];
      NoEviction(n, before) && !Evicts(Run(n, before).resident, log[|log| - 1])
  }

  // ---------- the join ----------

  lemma {:induction false} LatestIffSeen(recs: seq<Rec>, k: int)
    ensures Latest(recs, k).Filled? <==> Seen(WordsOf(recs), k)
  {
    if recs == [] {
    } else {
      var before := recs[..|recs| - 1];
      LatestIffSeen(before, k);
      assert forall j | 0 <= j < |before| :: IdAt(WordsOf(before), j, k) == IdAt(WordsOf(recs), j, k);
      assert IdAt(WordsOf(recs), |before|, k) <==> HasId(recs[|before|].words, k);
    }
  }

  lemma JoinedFilled(n: nat, log: seq<Read>, k: int, i: nat)
    requires i < n
    ensures Joined(n, log, k)[i].Filled? <==> Seen(Taken(log, i), k)
  {
    LatestIffSeen(Consumed(log, i), k);
  }

  lemma JoinedDone(n: nat, log: seq<Read>, k: int)
    ensures (forall i | 0 <= i < n :: Joined(n, log, k)[i].Filled?) <==> InAll(n, log, k)
  {
    forall i: nat | i < n
      ensures Joined(n, log, k)[i].Filled? <==> Seen(Taken(log, i), k)
    {
      JoinedFilled(n, log, k, i);
    }
  }

  /** One more record changes one slot of one event. */
  lemma JoinedSnoc(n: nat, log: seq<Read>, e: Read, k: int)
    requires ValidRead(n, e)
    ensures Joined(n, log + [e], k) ==
              if k == Key(e) then Joined(n, log, k)[e.asic := Filled(e.words, e.nfifo)] else Joined(n, log, k)
  {
    forall i: nat | i < n
      ensures Latest(Consumed(log + [e], i), k) ==
                if k == Key(e) && i == e.asic then Filled(e.words, e.nfifo) else Latest(Consumed(log, i), k)
    {
      ConsumedSnoc(log, e, i);
      if i == e.asic {
        var recs, r := Consumed(log, i), Rec(e.words, e.nfifo);
        assert (recs + [r])[..|recs|] == recs;
        assert HasId(r.words, k) <==> k == Key(e);
      }
    }
  }

  lemma SeenAfter(n: nat, log: seq<Read>, e: Read, i: nat, k: int)
    requires ValidRead(n, e) && i < n
    ensures Seen(Taken(log + [e], i), k) <==> Seen(Taken(log, i), k) || (i == e.asic && k == Key(e))
  {
    JoinedFilled(n, log + [e], k, i);
    JoinedFilled(n, log, k, i);
    JoinedSnoc(n, log, e, k);
  }

  ghost predicate IsResidentJoin(n: nat, log: seq<Read>, m: map<int, Packet>) {
    && (forall k :: k in m <==> InSome(n, log, k) && !InAll(n, log, k))
    && (forall k | k in m :: m[k].slots == Joined(n, log, k))
  }

  ghost predicate IsSentJoin(n: nat, log: seq<Read>, ps: seq<Packet>) {
    && (forall j | 0 <= j < |ps| :: InAll(n, log, ps[j].eventId) && ps[j].slots == Joined(n, log, ps[j].eventId))
    && (forall k :: InAll(n, log, k) ==> IsSent(ps, k))
    && (forall i, j | 0 <= i < j < |ps| :: ps[i].eventId != ps[j].eventId)
  }

  ghost predicate IsJoin(n: nat, log: seq<Read>, s: State) {
    IsResidentJoin(n, log, s.resident) && IsSentJoin(n, log, s.emitted)
  }

  predicate IsSent(ps: seq<Packet>, k: int) {
    exists j :: 0 <= j < |ps| && ps[j].eventId == k
  }

  /** A record of another event changes nothing for event k. */
  lemma OtherEvent(n: nat, log: seq<Read>, e: Read, k: int)
    requires ValidRead(n, e) && k != Key(e)
    ensures Joined(n, log + [e], k) == Joined(n, log, k)
    ensures InAll(n, log + [e], k) <==> InAll(n, log, k)
    ensures InSome(n, log + [e], k) <==> InSome(n, log, k)
  {
    JoinedSnoc(n, log, e, k);
    forall i: nat | i < n
      ensures Seen(Taken(log + [e], i), k) <==> Seen(Taken(log, i), k)
    {
      SeenAfter(n, log, e, i, k);
    }
  }

  lemma NoRecordYet(n: nat, log: seq<Read>, k: int)
    requires !InSome(n, log, k)
    ensures Joined(n, log, k) == seq(n, i => Missing)
  {
    forall i: nat | i < n
      ensures Joined(n, log, k)[i] == Missing
    {
      JoinedFilled(n, log, k, i);
    }
  }

  /** The packet a record completes or extends holds the join of everything read so far. */
  lemma OfferedIsJoined(n: nat, log: seq<Read>, s: State, e: Read)
    requires Inv(n, s) && IsJoin(n, log, s) && ValidRead(n, e)
    requires !Seen(Taken(log, e.asic), Key(e))
    ensures Offer(Admit(n, s, e).resident[Key(e)], e).slots == Joined(n, log + [e], Key(e))
    ensures InSome(n, log + [e], Key(e)) && !InAll(n, log, Key(e))
  {
    var k := Key(e);
    AdmitKeeps(n, s, e);
    JoinedSnoc(n, log, e, k);
    SeenAfter(n, log, e, e.asic, k);
    if k !in s.resident {
      assert !InAll(n, log, k);
      NoRecordYet(n, log, k);
    }
  }

  lemma AdmitWithoutEviction(n: nat, s: State, e: Read)
    requires Sized(n, s) && ValidRead(n, e) && !Evicts(s.resident, e)
    ensures Admit(n, s, e) ==
              if Key(e) in s.resident then s else State(s.resident[Key(e) := NewPacket(n, e.bornAt)], s.emitted)
  {
    if Key(e) !in s.resident && |s.resident| > MAX_PACKET_MAP_SIZE {
      NoSweep(n, s, e.sweepAt);
    }
  }

  lemma NoSweep(n: nat, s: State, now: u64)
    requires Sized(n, s) && StaleKeys(s.resident, now) == {}
    ensures Sweep(n, s, now) == s
  {
    assert s.resident - {} == s.resident && s.emitted + [] == s.emitted;
  }

  lemma PutTwice<K, V>(m: map<K, V>, k: K, v: V, w: V)
    ensures m[k := v][k := w] == m[k := w] && (k !in m ==> m[k := v] - {k} == m - {k})
  {
  }

  /** Without eviction a record touches its own event only. */
  lemma AfterWithoutEviction(n: nat, s: State, e: Read, p: Packet)
    requires Inv(n, s) && ValidRead(n, e) && !Evicts(s.resident, e)
    requires p == Offer(Admit(n, s, e).resident[Key(e)], e)
    ensures After(n, s, e) ==
              if IsDone(p) then State(s.resident - {Key(e)}, s.emitted + [WithFlags(p)])
              else State(s.resident[Key(e) := p], s.emitted)
  {
    AdmitWithoutEviction(n, s, e);
    PutTwice(s.resident, Key(e), NewPacket(n, e.bornAt), p);
  }

  lemma ResidentStep(n: nat, log: seq<Read>, m: map<int, Packet>, e: Read, p: Packet)
    requires ValidRead(n, e) && IsResidentJoin(n, log, m)
    requires p.slots == Joined(n, log + [e], Key(e)) && InSome(n, log + [e], Key(e))
    ensures IsResidentJoin(n, log + [e], if IsDone(p) then m - {Key(e)} else m[Key(e) := p])
  {
    JoinedDone(n, log + [e], Key(e));
    forall k | k != Key(e)
      ensures Joined(n, log + [e], k) == Joined(n, log, k)
      ensures InAll(n, log + [e], k) <==> InAll(n, log, k)
      ensures InSome(n, log + [e], k) <==> InSome(n, log, k)
    {
      OtherEvent(n, log, e, k);
    }
  }

  /** Messages sent before are not affected by a record of an event that was not complete. */
  lemma SentKept(n: nat, log: seq<Read>, ps: seq<Packet>, e: Read, j: nat)
    requires ValidRead(n, e) && IsSentJoin(n, log, ps) && !InAll(n, log, Key(e)) && j < |ps|
    ensures ps[j].eventId != Key(e)
    ensures InAll(n, log + [e], ps[j].eventId) && ps[j].slots == Joined(n, log + [e], ps[j].eventId)
  {
    OtherEvent(n, log, e, ps[j].eventId);
  }

  lemma OthersSent(n: nat, log: seq<Read>, ps: seq<Packet>, e: Read, k: int)
    requires ValidRead(n, e) && IsSentJoin(n, log, ps) && k != Key(e) && InAll(n, log + [e], k)
    ensures IsSent(ps, k)
  {
    OtherEvent(n, log, e, k);
  }

  lemma SentStep(n: nat, log: seq<Read>, ps: seq<Packet>, e: Read, p: Packet)
    requires ValidRead(n, e) && IsSentJoin(n, log, ps) && |p.slots| == n <= 16 && p.eventId == Key(e)
    requires p.slots == Joined(n, log + [e], Key(e)) && !InAll(n, log, Key(e))
    ensures IsSentJoin(n, log + [e], if IsDone(p) then ps + [WithFlags(p)] else ps)
  {
    JoinedDone(n, log + [e], Key(e));
    assert IsDone(p) <==> InAll(n, log + [e], Key(e));
    forall j | 0 <= j < |ps|
      ensures ps[j].eventId != Key(e)
      ensures InAll(n, log + [e], ps[j].eventId) && ps[j].slots == Joined(n, log + [e], ps[j].eventId)
    {
      SentKept(n, log, ps, e, j);
    }
    forall k | k != Key(e) && InAll(n, log + [e], k)
      ensures IsSent(ps, k)
    {
      OthersSent(n, log, ps, e, k);
    }
    if IsDone(p) {
      OneMoreSent(n, log + [e], ps, WithFlags(p));
    }
  }

  lemma OneMoreSent(n: nat, log: seq<Read>, ps: seq<Packet>, p: Packet)
    requires forall j | 0 <= j < |ps| :: InAll(n, log, ps[j].eventId) && ps[j].slots == Joined(n, log, ps[j].eventId)
    requires forall j | 0 <= j < |ps| :: ps[j].eventId != p.eventId
    requires forall i, j | 0 <= i < j < |ps| :: ps[i].eventId != ps[j].eventId
    requires forall k | k != p.eventId && InAll(n, log, k) :: IsSent(ps, k)
    requires InAll(n, log, p.eventId) && p.slots == Joined(n, log, p.eventId)
    ensures IsSentJoin(n, log, ps + [p])
  {
    SentAfter(ps, p);
  }

  lemma SentAfter(ps: seq<Packet>, p: Packet)
    ensures forall k :: IsSent(ps + [p], k) <==> IsSent(ps, k) || k == p.eventId
  {
    var qs := ps + [p];
    assert qs[|ps|] == p;
    assert forall j | 0 <= j < |ps| :: qs[j] == ps[j];
  }

  lemma AfterIsJoin(n: nat, log: seq<Read>, s: State, e: Read)
    requires Inv(n, s) && IsJoin(n, log, s) && ValidRead(n, e)
    requires !Seen(Taken(log, e.asic), Key(e)) && !Evicts(s.resident, e)
    ensures IsJoin(n, log + [e], After(n, s, e))
  {
    var p := Offer(Admit(n, s, e).resident[Key(e)], e);
    OfferKeeps(n, s, e);
    OfferedIsJoined(n, log, s, e);
    AfterWithoutEviction(n, s, e, p);
    ResidentStep(n, log, s.resident, e, p);
    SentStep(n, log, s.emitted, e, p);
  }

  /**
   Join refinement. Resident are the ids some but not all FIFOs have delivered; sent, once each, are
   the ids all have delivered; and slot i of either holds ASIC i's record of that id.
   */
  lemma {:induction false} RunIsJoin(n: nat, log: seq<Read>)
    requires 1 <= n <= MAX_VATA && ValidLog(n, log) && Distinct(n, log) && NoEviction(n, log)
    ensures IsJoin(n, log, Run(n, log))
  {
    if log == [] {
      assert forall k :: !Seen(Taken(log, 0), k);
    } else {
      var before, e := log[..|log| - 1], log[|log| - 1];
      assert log == before + [e];
      DistinctSnoc(n, log);
      RunIsJoin(n, before);
      RunKeepsInv(n, before);
      AfterIsJoin(n, before, Run(n, before), e);
    }
  }

  /** Event k was sent with these slots. */
  predicate Sends(ps: seq<Packet>, k: int, slots: seq<Slot>) {
    exists j :: 0 <= j < |ps| && ps[j].eventId == k && ps[j].slots == slots
  }

  lemma SendsIffInAll(n: nat, log: seq<Read>, ps: seq<Packet>, k: int, slots: seq<Slot>)
    requires IsSentJoin(n, log, ps)
    ensures Sends(ps, k, slots) <==> InAll(n, log, k) && slots == Joined(n, log, k)
  {
    if InAll(n, log, k) {
      assert IsSent(ps, k);
    }
  }

  /** The words in each slot, without the FIFO counts. */
  function WordsIn(slots: seq<Slot>): (ws: seq<Option<seq<u32>>>)
    ensures |ws| == |slots|
  {
    seq(|slots|, i requires 0 <= i < |slots| => SlotWords(slots[i]))
  }

  function SlotWords(s: Slot): Option<seq<u32>> {
    if s.Filled? then Some(s.words) else None
  }

  /** Event k was sent with these words. */
  predicate SendsWords(ps: seq<Packet>, k: int, ws: seq<Option<seq<u32>>>) {
    exists j :: 0 <= j < |ps| && ps[j].eventId == k && WordsIn(ps[j].slots) == ws
  }

  lemma SendsWordsIffInAll(n: nat, log: seq<Read>, ps: seq<Packet>, k: int, ws: seq<Option<seq<u32>>>)
    requires IsSentJoin(n, log, ps)
    ensures SendsWords(ps, k, ws) <==> InAll(n, log, k) && ws == WordsIn(Joined(n, log, k))
  {
    if InAll(n, log, k) {
      assert IsSent(ps, k);
    }
  }

  /** The same records came from every FIFO, however the FIFO counts read along with them differ. */
  ghost predicate SameTaken(n: nat, a: seq<Read>, b: seq<Read>) {
    forall i: nat | i < n :: Taken(a, i) == Taken(b, i)
  }

  lemma DistinctByWords(n: nat, a: seq<Read>, b: seq<Read>)
    requires SameTaken(n, a, b) && Distinct(n, a)
    ensures Distinct(n, b)
  {
    forall i: nat | i < n
      ensures DistinctIds(Taken(b, i))
    {
      assert DistinctIds(Taken(a, i));
    }
  }

  lemma {:induction false} LatestWords(a: seq<Rec>, b: seq<Rec>, k: int)
    requires WordsOf(a) == WordsOf(b)
    ensures SlotWords(Latest(a, k)) == SlotWords(Latest(b, k))
  {
    assert |a| == |WordsOf(a)| == |b|;
    if a == [] {
    } else {
      var last := |a| - 1;
      assert a[last].words == WordsOf(a)[last] == b[last].words;
      assert WordsOf(a[..last]) == WordsOf(a)[..last] == WordsOf(b[..last]);
      LatestWords(a[..last], b[..last], k);
    }
  }

  lemma SameJoin(n: nat, a: seq<Read>, b: seq<Read>, k: int)
    requires SameTaken(n, a, b)
    ensures InAll(n, a, k) == InAll(n, b, k) && InSome(n, a, k) == InSome(n, b, k)
    ensures WordsIn(Joined(n, a, k)) == WordsIn(Joined(n, b, k))
  {
    forall i: nat | i < n
      ensures SlotWords(Joined(n, a, k)[i]) == SlotWords(Joined(n, b, k)[i])
    {
      assert Taken(a, i) == Taken(b, i);
      LatestWords(Consumed(a, i), Consumed(b, i), k);
    }
  }

  /**
   Two interleavings that take the same records from each FIFO leave the same residents and send the same
   events, with the same words in every slot.
   */
  lemma OrderDoesNotMatter(n: nat, a: seq<Read>, b: seq<Read>, k: int, ws: seq<Option<seq<u32>>>)
    requires 1 <= n <= MAX_VATA && ValidLog(n, a) && ValidLog(n, b) && SameTaken(n, a, b)
    requires Distinct(n, a) && NoEviction(n, a) && NoEviction(n, b)
    ensures var s, t := Run(n, a), Run(n, b);
            && (k in s.resident <==> k in t.resident)
            && (k in s.resident ==> WordsIn(s.resident[k].slots) == WordsIn(t.resident[k].slots))
            && (SendsWords(s.emitted, k, ws) <==> SendsWords(t.emitted, k, ws))
  {
    RunIsJoin(n, a);
    DistinctByWords(n, a, b);
    RunIsJoin(n, b);
    SameJoin(n, a, b, k);
    SendsWordsIffInAll(n, a, Run(n, a).emitted, k, ws);
    SendsWordsIffInAll(n, b, Run(n, b).emitted, k, ws);
  }

  /** Where the FIFO counts agree as well, so do the whole slots. */
  lemma SameCountsSameSlots(n: nat, a: seq<Read>, b: seq<Read>, k: int, slots: seq<Slot>)
    requires 1 <= n <= MAX_VATA && ValidLog(n, a) && ValidLog(n, b)
    requires forall i: nat | i < n :: Consumed(a, i) == Consumed(b, i)
    requires Distinct(n, a) && NoEviction(n, a) && NoEviction(n, b)
    ensures var s, t := Run(n, a), Run(n, b);
            && (k in s.resident <==> k in t.resident)
            && (k in s.resident ==> s.resident[k].slots == t.resident[k].slots)
            && (Sends(s.emitted, k, slots) <==> Sends(t.emitted, k, slots))
  {
    forall i: nat | i < n
      ensures Taken(a, i) == Taken(b, i)
    {
      assert Consumed(a, i) == Consumed(b, i);
    }
    RunIsJoin(n, a);
    DistinctByWords(n, a, b);
    RunIsJoin(n, b);
    SameJoin(n, a, b, k);
    assert Joined(n, a, k) == Joined(n, b, k);
    SendsIffInAll(n, a, Run(n, a).emitted, k, slots);
    SendsIffInAll(n, b, Run(n, b).emitted, k, slots);
  }

  // ---------- eviction, from the log alone ----------

  /** Some record of event k was read. */
  predicate WasRead(log: seq<Read>, k: int) {
    exists a :: 0 <= a < |log| && HasId(log[a].words, k)
  }

  /** Record a is the first of its event. */
  predicate IsFirst(log: seq<Read>, a: int) {
    0 <= a < |log| && |log[a].words| > 0 && forall x | 0 <= x < a :: !HasId(log[x].words, Key(log[a]))
  }

  /** The events read and not yet complete. */
  ghost function Pending(n: nat, log: seq<Read>): set<int>
    requires ValidLog(n, log)
  {
    set a | 0 <= a < |log| && !InAll(n, log, Key(log[a])) :: Key(log[a])
  }

  /**
   A record of a new event, read when more than five events, MAX_PACKET_MAP_SIZE, are pending and the first record of
   one of them is stale.
   */
  ghost predicate CrowdedOut(n: nat, before: seq<Read>, e: Read)
    requires ValidLog(n, before) && |e.words| > 0
  {
    && !WasRead(before, Key(e)) && |Pending(n, before)| > 5
    && exists a :: IsFirst(before, a) && !InAll(n, before, Key(before[a])) && Stale(e.sweepAt, before[a].bornAt)
  }

  ghost predicate CrowdsAt(n: nat, log: seq<Read>, b: int)
    requires ValidLog(n, log)
  {
    0 <= b < |log| && CrowdedOut(n, log[..b], log[b])
  }

  ghost predicate Punctual(n: nat, log: seq<Read>)
    requires ValidLog(n, log)
  {
    forall b :: !CrowdsAt(n, log, b)
  }

  lemma WasReadSnoc(log: seq<Read>, e: Read, k: int)
    ensures WasRead(log + [e], k) <==> WasRead(log, k) || HasId(e.words, k)
  {
    var all := log + [e];
    assert all[|log|] == e && forall a | 0 <= a < |log| :: all[a] == log[a];
  }

  lemma {:induction false} InSomeIffRead(n: nat, log: seq<Read>, k: int)
    requires ValidLog(n, log)
    ensures InSome(n, log, k) <==> WasRead(log, k)
  {
    if log == [] {
    } else {
      var before, e := log[..|log| - 1], log[|log| - 1];
      assert log == before + [e];
      InSomeIffRead(n, before, k);
      WasReadSnoc(before, e, k);
      if k == Key(e) {
        SeenAfter(n, before, e, e.asic, k);
      } else {
        OtherEvent(n, before, e, k);
      }
    }
  }

  lemma ResidentIsPending(n: nat, log: seq<Read>, m: map<int, Packet>)
    requires ValidLog(n, log) && IsResidentJoin(n, log, m)
    ensures m.Keys == Pending(n, log)
  {
    forall k
      ensures k in m <==> k in Pending(n, log)
    {
      InSomeIffRead(n, log, k);
      if WasRead(log, k) {
        var a :| 0 <= a < |log| && HasId(log[a].words, k);
        assert Key(log[a]) == k;
      }
    }
  }

  /** A packet that stays resident keeps its creation time; a new one has the clock reading of its record. */
  lemma TimeAfter(n: nat, s: State, e: Read, k: int)
    requires Sized(n, s) && ValidRead(n, e) && k in After(n, s, e).resident
    ensures After(n, s, e).resident[k].time == if k in s.resident then s.resident[k].time else e.bornAt
    ensures k !in s.resident ==> k == Key(e)
  {
  }

  /** A record whose event is not resident is the first of it. */
  lemma FirstIfNotResident(n: nat, before: seq<Read>, e: Read)
    requires 1 <= n <= MAX_VATA && ValidLog(n, before) && Distinct(n, before) && NoEviction(n, before)
    requires ValidRead(n, e) && !Seen(Taken(before, e.asic), Key(e)) && Key(e) !in Run(n, before).resident
    ensures IsFirst(before + [e], |before|)
  {
    RunIsJoin(n, before);
    InSomeIffRead(n, before, Key(e));
    assert !WasRead(before, Key(e));
    assert forall x | 0 <= x < |before| :: (before + [e])[x] == before[x];
  }

  lemma FirstStays(log: seq<Read>, e: Read, a: int)
    requires IsFirst(log, a)
    ensures IsFirst(log + [e], a) && (log + [e])[a] == log[a]
  {
  }

  /** A resident packet was created when the first record of its event was read. */
  lemma {:induction false} BornAtFirst(n: nat, log: seq<Read>, k: int) returns (a: nat)
    requires 1 <= n <= MAX_VATA && ValidLog(n, log) && Distinct(n, log) && NoEviction(n, log)
    requires k in Run(n, log).resident
    ensures IsFirst(log, a) && Key(log[a]) == k && Run(n, log).resident[k].time == log[a].bornAt
  {
    var before, e := log[..|log| - 1], log[|log| - 1];
    assert log == before + [e];
    DistinctSnoc(n, log);
    TimeAfter(n, Run(n, before), e, k);
    if k in Run(n, before).resident {
      a := BornAtFirst(n, before, k);
      FirstStays(before, e, a);
    } else {
      a := |before|;
      FirstIfNotResident(n, before, e);
    }
  }

  /** At most one record of an event is its first. */
  lemma FirstIsUnique(log: seq<Read>, a: int, b: int)
    requires IsFirst(log, a) && IsFirst(log, b) && Key(log[a]) == Key(log[b])
    ensures a == b
  {
  }

  lemma EvictsIff(n: nat, before: seq<Read>, e: Read)
    requires 1 <= n <= MAX_VATA && ValidLog(n, before) && Distinct(n, before) && NoEviction(n, before)
    requires ValidRead(n, e) && !Seen(Taken(before, e.asic), Key(e))
    ensures Evicts(Run(n, before).resident, e) <==> CrowdedOut(n, before, e)
  {
    var m := Run(n, before).resident;
    RunIsJoin(n, before);
    ResidentIsPending(n, before, m);
    InSomeIffRead(n, before, Key(e));
    assert |m| == |m.Keys|;
    StaleIsFirst(n, before, e);
  }

  lemma StaleIsFirst(n: nat, before: seq<Read>, e: Read)
    requires 1 <= n <= MAX_VATA && ValidLog(n, before) && Distinct(n, before) && NoEviction(n, before)
    ensures StaleKeys(Run(n, before).resident, e.sweepAt) != {} <==>
              exists a :: IsFirst(before, a) && !InAll(n, before, Key(before[a])) && Stale(e.sweepAt, before[a].bornAt)
  {
    var m := Run(n, before).resident;
    RunIsJoin(n, before);
    ResidentIsPending(n, before, m);
    if StaleKeys(m, e.sweepAt) != {} {
      var k :| k in StaleKeys(m, e.sweepAt);
      var a := BornAtFirst(n, before, k);
    }
    if a :| IsFirst(before, a) && !InAll(n, before, Key(before[a])) && Stale(e.sweepAt, before[a].bornAt) {
      var k := Key(before[a]);
      assert k in m;
      var b := BornAtFirst(n, before, k);
      FirstIsUnique(before, a, b);
      assert k in StaleKeys(m, e.sweepAt);
    }
  }

  /** With distinct ids, nothing is evicted exactly when no record of a new event crowds another out. */
  lemma {:induction false} NoEvictionIff(n: nat, log: seq<Read>)
    requires 1 <= n <= MAX_VATA && ValidLog(n, log) && Distinct(n, log)
    ensures NoEviction(n, log) <==> Punctual(n, log)
  {
    if log == [] {
    } else {
      var before, e := log[..|log| - 1], log[|log| - 1];
      DistinctSnoc(n, log);
      NoEvictionIff(n, before);
      PunctualSnoc(n, log);
      if NoEviction(n, before) {
        EvictsIff(n, before, e);
      }
    }
  }

  lemma PunctualSnoc(n: nat, log: seq<Read>)
    requires ValidLog(n, log) && log != []
    ensures var before := log[..|log| - 1];
            Punctual(n, log) <==> Punctual(n, before) && !CrowdedOut(n, before, log[|log| - 1])
  {
    var last := |log| - 1;
    forall b | b != last
      ensures CrowdsAt(n, log, b) <==> CrowdsAt(n, log[..last], b)
    {
      if 0 <= b < last {
        assert log[..last][..b] == log[..b];
      }
    }
    assert CrowdsAt(n, log, last) <==> CrowdedOut(n, log[..last], log[last]);
  }

  /** So it is enough that no event is still incomplete one timeout after its first record was read. */
  lemma PromptNeverEvicts(n: nat, log: seq<Read>)
    requires 1 <= n <= MAX_VATA && ValidLog(n, log) && Distinct(n, log)
    requires forall a, b | 0 <= a < b < |log| && IsFirst(log, a) && !InAll(n, log[..b], Key(log[a])) ::
               !Stale(log[b].sweepAt, log[a].bornAt)
    ensures NoEviction(n, log)
  {
    NoEvictionIff(n, log);
    forall b
      ensures !CrowdsAt(n, log, b)
    {
      if 0 <= b < |log| {
        FirstInPrefix(log, b);
      }
    }
  }

  lemma FirstInPrefix(log: seq<Read>, b: nat)
    requires b <= |log|
    ensures forall a :: IsFirst(log[..b], a) <==> a < b && IsFirst(log, a)
    ensures forall a | 0 <= a < b :: log[..b][a] == log[a]
  {
  }

  // ---------- clocks ----------

  /** Every resident packet was created by a read of its event ... */
  lemma {:induction false} BornInLog(n: nat, log: seq<Read>, k: int) returns (a: nat)
    requires n <= MAX_VATA && ValidLog(n, log) && k in Run(n, log).resident
    ensures a < |log| && Key(log[a]) == k && Run(n, log).resident[k].time == log[a].bornAt
  {
    var before, e := log[..|log| - 1], log[|log| - 1];
    TimeAfter(n, Run(n, before), e, k);
    if k in Run(n, before).resident {
      a := BornInLog(n, before, k);
    } else {
      a := |log| - 1;
    }
  }

  /** What a sweep sends has the event and the time of a packet that was resident. */
  lemma SweptTime(n: nat, s: State, now: u64, p: Packet)
    requires Inv(n, s) && p in Sweep(n, s, now).emitted[|s.emitted|..]
    ensures p.eventId in s.resident && p.time == s.resident[p.eventId].time
  {
    SweepPartitions(n, s, now);
    var out := Sweep(n, s, now).emitted[|s.emitted|..];
    var j :| 0 <= j < |out| && out[j] == p;
  }

  lemma AdmitTime(n: nat, s: State, e: Read, j: nat)
    requires Inv(n, s) && ValidRead(n, e) && |s.emitted| <= j < |Admit(n, s, e).emitted|
    ensures var p := Admit(n, s, e).emitted[j]; p.eventId in s.resident && p.time == s.resident[p.eventId].time
  {
    var a := Admit(n, s, e);
    assert a.emitted == Sweep(n, s, e.sweepAt).emitted;
    assert a.emitted[|s.emitted|..][j - |s.emitted|] == a.emitted[j];
    SweptTime(n, s, e.sweepAt, a.emitted[j]);
  }

  /** A message has the event and the time of a packet resident before the read that sends it, or of that read. */
  lemma SentTime(n: nat, s: State, e: Read, j: nat)
    requires Inv(n, s) && ValidRead(n, e) && |s.emitted| <= j < |After(n, s, e).emitted|
    ensures var p := After(n, s, e).emitted[j];
            if p.eventId in s.resident then p.time == s.resident[p.eventId].time
            else p.eventId == Key(e) && p.time == e.bornAt
  {
    if j < |Admit(n, s, e).emitted| {
      AdmitTime(n, s, e, j);
    } else {
      OfferKeeps(n, s, e);
      AdmitKeeps(n, s, e);
    }
  }

  lemma EmittedGrows(n: nat, s: State, e: Read)
    requires Sized(n, s) && ValidRead(n, e)
    ensures s.emitted <= After(n, s, e).emitted
  {
  }

  /** ... and so was every packet sent: its time is the clock reading of a read of its event. */
  lemma {:induction false} SentBornInLog(n: nat, log: seq<Read>, j: nat) returns (a: nat)
    requires n <= MAX_VATA && ValidLog(n, log) && j < |Run(n, log).emitted|
    ensures var p := Run(n, log).emitted[j]; a < |log| && Key(log[a]) == p.eventId && p.time == log[a].bornAt
  {
    var before, e := log[..|log| - 1], log[|log| - 1];
    var s := Run(n, before);
    EmittedGrows(n, s, e);
    RunKeepsInv(n, before);
    if j < |s.emitted| {
      a := SentBornInLog(n, before, j);
    } else {
      SentTime(n, s, e, j);
      var k := Run(n, log).emitted[j].eventId;
      if k in s.resident {
        a := BornInLog(n, before, k);
      } else {
        a := |before|;
      }
    }
  }

  /** The clock never runs backwards. */
  predicate Monotone(log: seq<Read>) {
    && (forall a | 0 <= a < |log| :: log[a].sweepAt <= log[a].bornAt)
    && (forall a, b | 0 <= a < b < |log| :: log[a].bornAt <= log[b].sweepAt)
  }

  /** The clock at the last read that found its id not in the map, or 0. */
  ghost function LastInsertion(n: nat, log: seq<Read>): u64
    requires n <= MAX_VATA && ValidLog(n, log)
  {
    if log == [] then 0
    else
      var before, e := log[..|log| - 1], log[|log| - 1];
      if Key(e) in Run(n, before).resident then LastInsertion(n, before) else e.sweepAt
  }

  /**
   The map is not bounded by MAX_PACKET_MAP_SIZE. What a monotone clock gives: more than one packet
   over that size only if all were created within one timeout before the last insertion.
   */
  lemma {:induction false} MapOccupancy(n: nat, log: seq<Read>)
    requires n <= MAX_VATA && ValidLog(n, log) && Monotone(log)
    ensures var m := Run(n, log).resident;
            |m| <= 6 || forall k | k in m :: m[k].time + 1_000_000_000 >= LastInsertion(n, log)
  {
    if log == [] {
    } else {
      var before, e := log[..|log| - 1], log[|log| - 1];
      var s := Run(n, before);
      MapOccupancy(n, before);
      RunKeepsInv(n, before);
      forall k | k in s.resident
        ensures s.resident[k].time <= e.sweepAt
      {
        var a := BornInLog(n, before, k);
      }
      OccupancyStep(n, s, e, LastInsertion(n, before));
    }
  }

  lemma OccupancyStep(n: nat, s: State, e: Read, last: u64)
    requires Inv(n, s) && ValidRead(n, e) && e.sweepAt <= e.bornAt
    requires forall k | k in s.resident :: s.resident[k].time <= e.sweepAt
    requires |s.resident| <= MAX_PACKET_MAP_SIZE + 1
             || forall k | k in s.resident :: s.resident[k].time + TIMEOUT >= last
    ensures var m := After(n, s, e).resident;
            |m| <= MAX_PACKET_MAP_SIZE + 1
            || forall k | k in m :: m[k].time + TIMEOUT >= if Key(e) in s.resident then last else e.sweepAt
  {
    AdmitOccupancy(n, s, e);
    DeliverOccupancy(n, Admit(n, s, e), e);
  }

  lemma AdmitOccupancy(n: nat, s: State, e: Read)
    requires Inv(n, s) && ValidRead(n, e) && e.sweepAt <= e.bornAt
    requires forall k | k in s.resident :: s.resident[k].time <= e.sweepAt
    ensures var m := Admit(n, s, e).resident;
            if Key(e) in s.resident then m == s.resident
            else |m| <= MAX_PACKET_MAP_SIZE + 1 || forall k | k in m :: m[k].time + TIMEOUT >= e.sweepAt
  {
    if Key(e) !in s.resident {
      if |s.resident| > MAX_PACKET_MAP_SIZE {
        SweepPartitions(n, s, e.sweepAt);
        var r := Sweep(n, s, e.sweepAt).resident;
        forall k | k in r
          ensures r[k].time + TIMEOUT >= e.sweepAt
        {
          StaleForward(e.sweepAt, r[k].time);
        }
      } else {
        assert Admit(n, s, e).resident.Keys == s.resident.Keys + {Key(e)};
      }
    }
  }

  lemma DeliverOccupancy(n: nat, a: State, e: Read)
    requires Sized(n, a) && ValidRead(n, e) && Key(e) in a.resident
    ensures var m := Deliver(n, a, e).resident;
            && |m| <= |a.resident|
            && forall k | k in m :: k in a.resident && m[k].time == a.resident[k].time
  {
    var m := Deliver(n, a, e).resident;
    assert m.Keys <= a.resident.Keys;
    Smaller(m.Keys, a.resident.Keys);
  }

  lemma Smaller(a: set<int>, b: set<int>)
    requires a <= b
    ensures |a| <= |b|
  {
    assert b == a + (b - a);
  }
}
