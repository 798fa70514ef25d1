/**
 The event aligner as a function of the records it has read: the packet map, the packets sent, and
 one transition per record, as DataEmitter::read_fifo makes it.
 */
module Aligner {
  import opened Keys
  import opened Machine
  import opened Wire
  import opened Packets

  const MAX_PACKET_MAP_SIZE: nat := 5
  const TIMEOUT: u64 := 1_000_000_000   // PACKET_REMOVE_TIMEOUT_MS in nanoseconds

  /** One record read from a FIFO, and the clock readings the step may take. */
  datatype Read = Read(asic: nat, words: seq<u32>, nfifo: u16, sweepAt: u64, bornAt: u64)

  datatype State = State(resident: map<int, Packet>, emitted: seq<Packet>)

  const EMPTY := State(map[], [])

  predicate ValidRead(n: nat, e: Read) {
    e.asic < n && |e.words| == N_ASIC_PACKET
  }

  predicate ValidLog(n: nat, log: seq<Read>) {
    forall j | 0 <= j < |log| :: ValidRead(n, log[j])
  }

  function Key(e: Read): int
    requires |e.words| > 0
  {
    ToLong(e.words[0])
  }

  ghost predicate Sized(n: nat, s: State) {
    n <= MAX_VATA && forall k | k in s.resident :: |s.resident[k].slots| == n
  }

  // ---------- the eviction sweep ----------

  /** `(current_time - packet_time) > timeout` in unsigned 64-bit arithmetic. */
  predicate Stale(now: u64, time: u64) {
    (now - time) % 0x1_0000_0000_0000_0000 > TIMEOUT
  }

  ghost function StaleKeys(m: map<int, Packet>, now: u64): set<int> {
    set k | k in m && Stale(now, m[k].time)
  }

  /** What a sweep over these keys sends, in ascending key order. */
  ghost function Sent(m: map<int, Packet>, keys: set<int>): (out: seq<Packet>)
    requires keys <= m.Keys && forall k | k in keys :: |m[k].slots| <= 16
    ensures |out| == |keys|
    decreases |keys|
  {
    if keys == {} then []
    else
      var k := Least(keys);
      [WithFlags(m[k])] + Sent(m, keys - {k})
  }

  ghost function Sweep(n: nat, s: State, now: u64): State
    requires Sized(n, s)
  {
    var keys := StaleKeys(s.resident, now);
    State(s.resident - keys, s.emitted + Sent(s.resident, keys))
  }

  // ---------- one record ----------

  ghost function MakeRoom(n: nat, s: State, now: u64): State
    requires Sized(n, s)
  {
    if |s.resident| > MAX_PACKET_MAP_SIZE then Sweep(n, s, now) else s
  }

  /** The map after the lookup, with a new packet when the event id is new. */
  ghost function Admit(n: nat, s: State, e: Read): (r: State)
    requires Sized(n, s) && ValidRead(n, e)
    ensures Sized(n, r) && Key(e) in r.resident
  {
    if Key(e) in s.resident then s
    else
      var r := MakeRoom(n, s, e.sweepAt);
      r.(resident := r.resident[Key(e) := NewPacket(n, e.bornAt)])
  }

  ghost function Offer(p: Packet, e: Read): Packet
    requires e.asic < |p.slots| && |e.words| > 0
  {
    if Accepts(p, e.words) then WithData(p, e.asic, e.words, e.nfifo) else p
  }

  /** The record goes into its packet, which is sent and dropped when that completes it. */
  ghost function Deliver(n: nat, s: State, e: Read): (r: State)
    requires Sized(n, s) && ValidRead(n, e) && Key(e) in s.resident
    ensures Sized(n, r)
  {
    var p := Offer(s.resident[Key(e)], e);
    if IsDone(p) then State(s.resident - {Key(e)}, s.emitted + [WithFlags(p)])
    else s.(resident := s.resident[Key(e) := p])
  }

  ghost function After(n: nat, s: State, e: Read): (r: State)
    requires Sized(n, s) && ValidRead(n, e)
    ensures Sized(n, r)
  {
    Deliver(n, Admit(n, s, e), e)
  }

  /** The state after all records of the log, in any order the FIFOs delivered them. */
  ghost function Run(n: nat, log: seq<Read>): (s: State)
    requires n <= MAX_VATA && ValidLog(n, log)
    ensures Sized(n, s)
  {
    if log == [] then EMPTY
    else After(n, Run(n, log[..|log| - 1]), log[|log| - 1])
  }

  lemma RunSnoc(n: nat, log: seq<Read>, e: Read)
    requires n <= MAX_VATA && ValidLog(n, log) && ValidRead(n, e)
    ensures ValidLog(n, log + [e]) && Run(n, log + [e]) == After(n, Run(n, log), e)
  {
    assert (log + [e])[..|log|] == log;
  }

  // ---------- what every run keeps ----------

  /** A packet of event k: flagged or not, its slots hold whole records of k and no others. */
  predicate HoldsEvent(n: nat, k: int, p: Packet) {
    && |p.slots| == n
    && p.eventId == k
    && (exists i | 0 <= i < n :: p.slots[i].Filled?)
    && forall i | 0 <= i < n && p.slots[i].Filled? ::
         |p.slots[i].words| == N_ASIC_PACKET && ToLong(p.slots[i].words[0]) == k
  }

  ghost predicate ResidentInv(n: nat, m: map<int, Packet>) {
    forall k | k in m :: HoldsEvent(n, k, m[k]) && m[k].flags == 0 && !IsDone(m[k])
  }

  ghost predicate EmittedInv(n: nat, ps: seq<Packet>) {
    forall j | 0 <= j < |ps| :: HoldsEvent(n, ps[j].eventId, ps[j]) && FlagsExact(ps[j])
  }

  ghost predicate Inv(n: nat, s: State) {
    n <= MAX_VATA && ResidentInv(n, s.resident) && EmittedInv(n, s.emitted)
  }

  ghost predicate Keyed(m: map<int, Packet>) {
    forall k | k in m :: m[k].eventId == k && |m[k].slots| <= 16
  }

  /** A sweep sends only the chosen packets ... */
  lemma {:induction false} SentIsChosen(m: map<int, Packet>, keys: set<int>, j: nat)
    requires Keyed(m) && keys <= m.Keys && j < |keys|
    ensures var p := Sent(m, keys)[j]; p.eventId in keys && p == WithFlags(m[p.eventId])
    decreases |keys|
  {
    var k := Least(keys);
    if j == 0 {
    } else {
      SentIsChosen(m, keys - {k}, j - 1);
    }
  }

  /** ... all of them ... */
  lemma {:induction false} SentIsComplete(m: map<int, Packet>, keys: set<int>, k: int) returns (j: nat)
    requires Keyed(m) && keys <= m.Keys && k in keys
    ensures j < |keys| && Sent(m, keys)[j] == WithFlags(m[k])
    decreases |keys|
  {
    if k == Least(keys) {
      j := 0;
    } else {
      j := SentIsComplete(m, keys - {Least(keys)}, k);
      j := j + 1;
    }
  }

  /** ... and in strictly ascending order of event id. */
  lemma {:induction false} SentIsAscending(m: map<int, Packet>, keys: set<int>, i: nat, j: nat)
    requires Keyed(m) && keys <= m.Keys && i < j < |keys|
    ensures Sent(m, keys)[i].eventId < Sent(m, keys)[j].eventId
    decreases |keys|
  {
    var k := Least(keys);
    if i > 0 {
      SentIsAscending(m, keys - {k}, i - 1, j - 1);
    } else {
      SentIsChosen(m, keys - {k}, j - 1);
    }
  }

  lemma SentKeepsEvents(n: nat, m: map<int, Packet>, keys: set<int>)
    requires n <= MAX_VATA && ResidentInv(n, m) && keys <= m.Keys
    ensures EmittedInv(n, Sent(m, keys))
  {
    forall j | 0 <= j < |keys|
      ensures var p := Sent(m, keys)[j]; HoldsEvent(n, p.eventId, p) && FlagsExact(p)
    {
      SentIsChosen(m, keys, j);
      FlagsOfUnflagged(m[Sent(m, keys)[j].eventId]);
    }
  }

  /** Exactly the flagged packets of these keys, each once, in ascending order. */
  ghost predicate SendsExactly(m: map<int, Packet>, keys: set<int>, out: seq<Packet>)
    requires keys <= m.Keys && forall k | k in keys :: |m[k].slots| <= 16
  {
    && (forall k | k in keys :: WithFlags(m[k]) in out)
    && (forall j | 0 <= j < |out| :: out[j].eventId in keys && out[j] == WithFlags(m[out[j].eventId]))
    && (forall i, j | 0 <= i < j < |out| :: out[i].eventId < out[j].eventId)
  }

  lemma SentIsExactly(m: map<int, Packet>, keys: set<int>)
    requires Keyed(m) && keys <= m.Keys
    ensures SendsExactly(m, keys, Sent(m, keys))
  {
    var out := Sent(m, keys);
    forall j | 0 <= j < |out|
      ensures out[j].eventId in keys && out[j] == WithFlags(m[out[j].eventId])
    {
      SentIsChosen(m, keys, j);
    }
    forall i, j | 0 <= i < j < |out|
      ensures out[i].eventId < out[j].eventId
    {
      SentIsAscending(m, keys, i, j);
    }
    forall k | k in keys
      ensures WithFlags(m[k]) in out
    {
      var j := SentIsComplete(m, keys, k);
    }
  }

  /**
   Sweeping partitions the map by age: the stale packets are sent and removed, exactly they, each once and in
   ascending order; the others stay as they were.
   */
  lemma SweepPartitions(n: nat, s: State, now: u64)
    requires Inv(n, s)
    ensures var r, stale := Sweep(n, s, now), StaleKeys(s.resident, now);
            && Inv(n, r)
            && s.emitted <= r.emitted && SendsExactly(s.resident, stale, r.emitted[|s.emitted|..])
            && (forall k :: k in stale <==> k in s.resident && Stale(now, s.resident[k].time))
            && r.resident.Keys == s.resident.Keys - stale
            && (forall k | k in r.resident :: r.resident[k] == s.resident[k])
  {
    var r, m, keys := Sweep(n, s, now), s.resident, StaleKeys(s.resident, now);
    assert r.emitted[|s.emitted|..] == Sent(m, keys);
    SentKeepsEvents(n, m, keys);
    SentIsExactly(m, keys);
  }

  /** For a clock reading not before the packet's, stale means more than one timeout old. */
  lemma StaleForward(now: u64, time: u64)
    ensures Stale(now, time) <==>
              now - time > 1_000_000_000 || time - 0x1_0000_0000_0000_0000 + 1_000_000_000 < now < time
  {
    if now < time {
      assert (now - time) % 0x1_0000_0000_0000_0000 == now - time + 0x1_0000_0000_0000_0000;
    }
  }

  lemma AdmitKeeps(n: nat, s: State, e: Read)
    requires Inv(n, s) && ValidRead(n, e)
    ensures var r := Admit(n, s, e);
            && EmittedInv(n, r.emitted)
            && ResidentInv(n, r.resident - {Key(e)})
            && Accepts(r.resident[Key(e)], e.words)
            && (Key(e) in s.resident ==> r == s)
            && (Key(e) !in s.resident ==> r.resident[Key(e)] == NewPacket(n, e.bornAt))
  {
    if Key(e) !in s.resident {
      SweepPartitions(n, s, e.sweepAt);
    }
  }

  lemma OfferKeeps(n: nat, s: State, e: Read)
    requires Inv(n, s) && ValidRead(n, e)
    ensures var p := Offer(Admit(n, s, e).resident[Key(e)], e);
            HoldsEvent(n, Key(e), p) && p.flags == 0
  {
    AdmitKeeps(n, s, e);
    var p := Offer(Admit(n, s, e).resident[Key(e)], e);
    assert p.slots[e.asic].Filled?;
  }

  /** The invariant is kept by every record, and set_vata_data never refuses one. */
  lemma AfterKeepsInv(n: nat, s: State, e: Read)
    requires Inv(n, s) && ValidRead(n, e)
    ensures Inv(n, After(n, s, e))
    ensures Accepts(Admit(n, s, e).resident[Key(e)], e.words)
  {
    AdmitKeeps(n, s, e);
    OfferKeeps(n, s, e);
    DeliverKeeps(n, Admit(n, s, e), e);
  }

  lemma DeliverKeeps(n: nat, a: State, e: Read)
    requires n <= MAX_VATA && ValidRead(n, e) && Sized(n, a) && Key(e) in a.resident
    requires EmittedInv(n, a.emitted) && ResidentInv(n, a.resident - {Key(e)})
    requires var p := Offer(a.resident[Key(e)], e); HoldsEvent(n, Key(e), p) && p.flags == 0
    ensures Inv(n, Deliver(n, a, e))
  {
    var p, r := Offer(a.resident[Key(e)], e), Deliver(n, a, e);
    FlagsOfUnflagged(p);
    forall k | k in r.resident && k != Key(e)
      ensures HoldsEvent(n, k, r.resident[k]) && r.resident[k].flags == 0 && !IsDone(r.resident[k])
    {
      assert k in a.resident - {Key(e)};
      assert (a.resident - {Key(e)})[k] == r.resident[k];
    }
    assert forall i | 0 <= i < n && p.slots[i].Filled? :: WithFlags(p).slots[i] == p.slots[i];
  }

  /** Every reachable state: what is resident is incomplete and unflagged, what was sent is exactly flagged. */
  lemma {:induction false} RunKeepsInv(n: nat, log: seq<Read>)
    requires n <= MAX_VATA && ValidLog(n, log)
    ensures Inv(n, Run(n, log))
  {
    if log == [] {
    } else {
      RunKeepsInv(n, log[..|log| - 1]);
      AfterKeepsInv(n, Run(n, log[..|log| - 1]), log[|log| - 1]);
    }
  }

  // ---------- what a log consumed ----------

  datatype Rec = Rec(words: seq<u32>, nfifo: u16)

  /** The records of one ASIC's FIFO that the log has read, in FIFO order. */
  function Consumed(log: seq<Read>, i: nat): seq<Rec> {
    if log == [] then []
    else
      var e := log[|log| - 1];
      var before := Consumed(log[..|log| - 1], i);
      if e.asic == i then before + [Rec(e.words, e.nfifo)] else before
  }

  function WordsOf(recs: seq<Rec>): (ws: seq<seq<u32>>)
    ensures |ws| == |recs|
  {
    seq(|recs|, j requires 0 <= j < |recs| => recs[j].words)
  }

  /** The words of the records read from ASIC i, without the FIFO counts. */
  function Taken(log: seq<Read>, i: nat): seq<seq<u32>> {
    WordsOf(Consumed(log, i))
  }

  predicate HasId(words: seq<u32>, k: int) {
    |words| > 0 && ToLong(words[0]) == k
  }

  predicate IdAt(frames: seq<seq<u32>>, j: int, k: int) {
    0 <= j < |frames| && HasId(frames[j], k)
  }

  /** No event id occurs twice in these frames. */
  ghost predicate DistinctIds(frames: seq<seq<u32>>) {
    forall a, b, k: int | 0 <= a < b :: !(IdAt(frames, a, k) && IdAt(frames, b, k))
  }

  ghost predicate Distinct(n: nat, log: seq<Read>) {
    forall i: nat | i < n :: DistinctIds(Taken(log, i))
  }

  predicate Seen(frames: seq<seq<u32>>, k: int) {
    exists j :: 0 <= j < |frames| && IdAt(frames, j, k)
  }

  lemma ConsumedSnoc(log: seq<Read>, e: Read, i: nat)
    ensures Consumed(log + [e], i) ==
              if e.asic == i then Consumed(log, i) + [Rec(e.words, e.nfifo)] else Consumed(log, i)
  {
    assert (log + [e])[..|log|] == log;
  }

  lemma TakenSnoc(log: seq<Read>, e: Read, i: nat)
    ensures Taken(log + [e], i) == if e.asic == i then Taken(log, i) + [e.words] else Taken(log, i)
  {
    ConsumedSnoc(log, e, i);
  }

  /** Splitting off the last record of a log with distinct ids: its id is new to its ASIC. */
  lemma DistinctSnoc(n: nat, log: seq<Read>)
    requires ValidLog(n, log) && log != [] && Distinct(n, log)
    ensures var before, e := log[..|log| - 1], log[|log| - 1];
            Distinct(n, before) && !Seen(Taken(before, e.asic), Key(e))
  {
    var before, e := log[..|log| - 1], log[|log| - 1];
    assert log == before + [e];
    forall i: nat | i < n
      ensures DistinctIds(Taken(before, i))
      ensures i == e.asic ==> !Seen(Taken(before, i), Key(e))
    {
      var frames, older := Taken(log, i), Taken(before, i);
      TakenSnoc(before, e, i);
      assert DistinctIds(frames);
      assert forall a, k: int :: IdAt(older, a, k) ==> IdAt(frames, a, k);
      assert i == e.asic ==> IdAt(frames, |older|, Key(e));
    }
  }
}
