/** Where the aligner's guarantees end: repeated ids, and the size of the map. */
module Limits {
  import opened Machine
  import opened Wire
  import opened Packets
  import opened Aligner
  import opened Conservation
  import opened Join

  // ---------- nread ----------

  /** The slots with data among the first m. */
  function FilledSlots(slots: seq<Slot>, m: nat): nat
    requires m <= |slots|
  {
    if m == 0 then 0 else FilledSlots(slots, m - 1) + if slots[m - 1].Filled? then 1 else 0
  }

  lemma {:induction false} FilledUpdate(slots: seq<Slot>, m: nat, i: nat, s: Slot)
    requires m <= |slots| && i < |slots| && s.Filled?
    ensures FilledSlots(slots[i := s], m) == FilledSlots(slots, m) + if i < m && slots[i].Missing? then 1 else 0
  {
    if m == 0 {
    } else {
      FilledUpdate(slots, m - 1, i, s);
    }
  }

  lemma {:induction false} NoneFilled(n: nat, m: nat)
    requires m <= n
    ensures FilledSlots(seq(n, i => Missing), m) == 0
  {
    if m == 0 {
    } else {
      NoneFilled(n, m - 1);
    }
  }

  /** How often a record of event k replaced one still resident in the packet now resident. */
  ghost function Repeats(n: nat, log: seq<Read>, k: int): nat
    requires n <= MAX_VATA && ValidLog(n, log)
  {
    if log == [] then 0
    else
      var before, e := log[..|log| - 1], log[|log| - 1];
      var m := Admit(n, Run(n, before), e).resident;
      if k != Key(e) then Repeats(n, before, k)
      else if k !in Run(n, before).resident then 0
      else Repeats(n, before, k) + if m[k].slots[e.asic].Filled? then 1 else 0
  }

  /** nread counts the filled slots, and every replaced record once more. */
  lemma {:induction false} NreadCounts(n: nat, log: seq<Read>, k: int)
    requires n <= MAX_VATA && ValidLog(n, log) && k in Run(n, log).resident
    ensures var p := Run(n, log).resident[k]; p.nread == FilledSlots(p.slots, n) + Repeats(n, log, k)
  {
    var before, e := log[..|log| - 1], log[|log| - 1];
    var s := Run(n, before);
    RunKeepsInv(n, before);
    AdmitKeeps(n, s, e);
    if k in s.resident {
      NreadCounts(n, before, k);
    } else {
      NoneFilled(n, n);
    }
    if k == Key(e) {
      FilledUpdate(Admit(n, s, e).resident[k].slots, n, e.asic, Filled(e.words, e.nfifo));
    }
  }

  lemma {:induction false} DistinctNeverRepeats(n: nat, log: seq<Read>, k: int)
    requires n <= MAX_VATA && ValidLog(n, log) && Distinct(n, log)
    ensures Repeats(n, log, k) == 0
  {
    if log == [] {
    } else {
      DistinctSnoc(n, log);
      DistinctNeverRepeats(n, log[..|log| - 1], k);
      RunSourced(n, log[..|log| - 1]);
    }
  }

  /** With distinct ids nread is exactly the number of ASICs that have contributed. */
  lemma DistinctNread(n: nat, log: seq<Read>, k: int)
    requires n <= MAX_VATA && ValidLog(n, log) && Distinct(n, log) && k in Run(n, log).resident
    ensures var p := Run(n, log).resident[k]; p.nread == FilledSlots(p.slots, n)
  {
    NreadCounts(n, log, k);
    DistinctNeverRepeats(n, log, k);
  }

  // ---------- when the map outgrows its limit ----------

  /**
   The map is full, the event is new, nothing in the map is stale, and one record does not complete an event.
   */
  ghost predicate FillsUp(n: nat, s: State, e: Read)
    requires |e.words| > 0
  {
    && n > 1 && |s.resident| == 6
    && Key(e) !in s.resident && StaleKeys(s.resident, e.sweepAt) == {}
  }

  /** A sweep that finds something makes the map smaller. */
  lemma SweepShrinks(n: nat, s: State, now: u64)
    requires Sized(n, s) && StaleKeys(s.resident, now) != {}
    ensures |Sweep(n, s, now).resident| < |s.resident|
  {
    var keys := StaleKeys(s.resident, now);
    assert s.resident.Keys == (s.resident - keys).Keys + keys;
  }

  lemma RoomSize(n: nat, s: State, now: u64)
    requires Sized(n, s) && |s.resident| <= MAX_PACKET_MAP_SIZE + 1
    ensures var room := MakeRoom(n, s, now).resident;
            && room.Keys <= s.resident.Keys && |room| <= MAX_PACKET_MAP_SIZE + 1
            && (|room| == MAX_PACKET_MAP_SIZE + 1 <==>
                  |s.resident| == MAX_PACKET_MAP_SIZE + 1 && StaleKeys(s.resident, now) == {})
  {
    if |s.resident| > MAX_PACKET_MAP_SIZE {
      if StaleKeys(s.resident, now) == {} {
        assert s.resident - {} == s.resident;
      } else {
        SweepShrinks(n, s, now);
      }
    }
  }

  lemma SizeWith<K, V>(m: map<K, V>, k: K, v: V)
    requires k !in m
    ensures |m[k := v]| == |m| + 1
  {
    assert m[k := v].Keys == m.Keys + {k};
  }

  lemma AdmitSize(n: nat, s: State, e: Read)
    requires Inv(n, s) && ValidRead(n, e) && |s.resident| <= MAX_PACKET_MAP_SIZE + 1
    ensures |Admit(n, s, e).resident| > MAX_PACKET_MAP_SIZE + 1 <==>
              |s.resident| == MAX_PACKET_MAP_SIZE + 1 && Key(e) !in s.resident && StaleKeys(s.resident, e.sweepAt) == {}
  {
    if Key(e) !in s.resident {
      RoomSize(n, s, e.sweepAt);
      SizeWith(MakeRoom(n, s, e.sweepAt).resident, Key(e), NewPacket(n, e.bornAt));
    }
  }

  /** With one ASIC every record completes its event; with more, one record alone never does. */
  lemma OneAsic(s: State)
    requires Inv(1, s)
    ensures s.resident == map[]
  {
    forall k, p: Packet | HoldsEvent(1, k, p)
      ensures IsDone(p)
    {
    }
    assert forall k :: k !in s.resident;
  }

  lemma NewEventStays(n: nat, s: State, e: Read)
    requires n > 1 && Inv(n, s) && ValidRead(n, e) && Key(e) !in s.resident
    ensures After(n, s, e).resident.Keys == Admit(n, s, e).resident.Keys
  {
    AdmitKeeps(n, s, e);
    var p := Offer(Admit(n, s, e).resident[Key(e)], e);
    var other := if e.asic == 0 then 1 else 0;
    assert p.slots[other].Missing?;
  }

  /** The step that takes the map over its limit. */
  lemma OverflowStep(n: nat, s: State, e: Read)
    requires 1 <= n && Inv(n, s) && ValidRead(n, e) && |s.resident| <= 6
    ensures |After(n, s, e).resident| > 6 <==> FillsUp(n, s, e)
  {
    AdmitSize(n, s, e);
    DeliverOccupancy(n, Admit(n, s, e), e);
    if n == 1 {
      OneAsic(s);
    } else if Key(e) !in s.resident {
      NewEventStays(n, s, e);
      assert |After(n, s, e).resident.Keys| == |Admit(n, s, e).resident.Keys|;
    }
  }

  /** After j records the map holds more than six packets, MAX_PACKET_MAP_SIZE and one. */
  ghost predicate OverAt(n: nat, log: seq<Read>, j: int)
    requires n <= MAX_VATA && ValidLog(n, log)
  {
    0 <= j <= |log| && |Run(n, log[..j]).resident| > 6
  }

  ghost predicate FillsUpAt(n: nat, log: seq<Read>, j: int)
    requires n <= MAX_VATA && ValidLog(n, log)
  {
    0 <= j < |log| && FillsUp(n, Run(n, log[..j]), log[j])
  }

  lemma NotOverAtFirst(n: nat, log: seq<Read>)
    requires n <= MAX_VATA && ValidLog(n, log)
    ensures !OverAt(n, log, 0)
  {
    assert log[..0] == [];
  }

  lemma PrefixStep(n: nat, log: seq<Read>, i: nat)
    requires 1 <= n <= MAX_VATA && ValidLog(n, log) && i < |log| && !OverAt(n, log, i)
    ensures OverAt(n, log, i + 1) <==> FillsUpAt(n, log, i)
  {
    var before, e := log[..i], log[i];
    assert log[..i + 1] == before + [e];
    RunKeepsInv(n, before);
    RunSnoc(n, before, e);
    OverflowStep(n, Run(n, before), e);
  }

  lemma {:induction false} FirstChange(p: int -> bool, j: nat) returns (i: nat)
    requires !p(0) && p(j)
    ensures i < j && !p(i) && p(i + 1)
  {
    if p(j - 1) {
      i := FirstChange(p, j - 1);
    } else {
      i := j - 1;
    }
  }

  lemma OverWasFilled(n: nat, log: seq<Read>, j: nat) returns (i: nat)
    requires 1 <= n <= MAX_VATA && ValidLog(n, log) && OverAt(n, log, j)
    ensures FillsUpAt(n, log, i)
  {
    NotOverAtFirst(n, log);
    i := FirstChange(x => OverAt(n, log, x), j);
    PrefixStep(n, log, i);
  }

  /**
   The map holds more than six packets at some time exactly when some record of a new
   event finds that many, none of them stale.
   */
  lemma OverflowIff(n: nat, log: seq<Read>)
    requires 1 <= n <= MAX_VATA && ValidLog(n, log)
    ensures (exists j :: OverAt(n, log, j)) <==> (exists j :: FillsUpAt(n, log, j))
  {
    if j :| OverAt(n, log, j) {
      var i := OverWasFilled(n, log, j);
    }
    if i :| FillsUpAt(n, log, i) {
      PrefixStep(n, log, i);
      assert OverAt(n, log, i + 1);
    }
  }

  // ---------- when records are lost ----------

  /** Record j finds its event resident, with a record of its ASIC already in it. */
  ghost predicate ReplacesAt(n: nat, log: seq<Read>, j: int)
    requires n <= MAX_VATA && ValidLog(n, log)
  {
    0 <= j < |log| &&
    var m := Run(n, log[..j]).resident;
    Key(log[j]) in m && m[Key(log[j])].slots[log[j].asic].Filled?
  }

  lemma ReplacesAtPrefix(n: nat, log: seq<Read>, j: int)
    requires n <= MAX_VATA && ValidLog(n, log) && log != []
    ensures j < |log| - 1 ==> (ReplacesAt(n, log, j) <==> ReplacesAt(n, log[..|log| - 1], j))
  {
    if 0 <= j < |log| - 1 {
      assert log[..|log| - 1][..j] == log[..j];
    }
  }

  lemma {:induction false} NothingOverwritten(r: Record, n: nat, log: seq<Read>)
    requires n <= MAX_VATA && ValidLog(n, log) && forall j :: !ReplacesAt(n, log, j)
    ensures Overwritten(r, n, log) == 0
  {
    if log == [] {
    } else {
      var before := log[..|log| - 1];
      forall j
        ensures !ReplacesAt(n, before, j)
      {
        ReplacesAtPrefix(n, log, j);
      }
      NothingOverwritten(r, n, before);
      assert !ReplacesAt(n, log, |log| - 1);
    }
  }

  /** The record that is replaced counts as overwritten from then on. */
  lemma {:induction false} SomethingOverwritten(n: nat, log: seq<Read>, j: int) returns (r: Record)
    requires n <= MAX_VATA && ValidLog(n, log) && ReplacesAt(n, log, j)
    ensures Overwritten(r, n, log) > 0
  {
    var before, e := log[..|log| - 1], log[|log| - 1];
    if j == |log| - 1 {
      var slot := Run(n, before).resident[Key(e)].slots[e.asic];
      r := Record(e.asic, slot.words, slot.nfifo);
    } else {
      ReplacesAtPrefix(n, log, j);
      r := SomethingOverwritten(n, before, j);
    }
  }

  /**
   Every record read is held by exactly one packet or message, however often it was read, exactly when no record
   finds its event resident with its own slot already filled.
   */
  lemma AllConservedIff(n: nat, log: seq<Read>)
    requires n <= MAX_VATA && ValidLog(n, log)
    ensures (forall r :: InLog(r, log) == Held(r, Run(n, log))) <==> !exists j :: ReplacesAt(n, log, j)
  {
    forall r
      ensures InLog(r, log) == Held(r, Run(n, log)) + Overwritten(r, n, log)
    {
      RecordsConserved(r, n, log);
    }
    if j :| ReplacesAt(n, log, j) {
      var r := SomethingOverwritten(n, log, j);
      assert InLog(r, log) != Held(r, Run(n, log));
    } else {
      forall r
        ensures InLog(r, log) == Held(r, Run(n, log))
      {
        NothingOverwritten(r, n, log);
      }
    }
  }

  // ---------- witnesses ----------

  /** A record of a new event, with nothing stale in the map and a second ASIC to wait for. */
  lemma NewEvent(s: State, e: Read)
    requires Inv(2, s) && ValidRead(2, e) && e.asic == 0 && Key(e) !in s.resident
    requires StaleKeys(s.resident, e.sweepAt) == {}
    ensures var r := After(2, s, e);
            && r.emitted == s.emitted && r.resident == s.resident[Key(e) := r.resident[Key(e)]]
            && r.resident[Key(e)].slots[0] == Filled(e.words, e.nfifo) && r.resident[Key(e)].time == e.bornAt
  {
    var p := Offer(Admit(2, s, e).resident[Key(e)], e);
    AdmitKeeps(2, s, e);
    assert p == WithData(NewPacket(2, e.bornAt), 0, e.words, e.nfifo);
    assert p.slots[1].Missing?;
    AfterWithoutEviction(2, s, e, p);
  }

  /** A record that is replaced while resident is in no packet and no message any more. */
  lemma ReplacedIsLost(n: nat, log: seq<Read>, e: Read, r: Record)
    requires n <= MAX_VATA && ValidLog(n, log) && ValidRead(n, e)
    requires InLog(r, log + [e]) == 1 && Replaced(r, Run(n, log).resident, e) == 1
    ensures Held(r, Run(n, log + [e])) == 0
  {
    RunSnoc(n, log, e);
    RecordsConserved(r, n, log + [e]);
    assert (log + [e])[..|log|] == log;
  }

  /** It happens from the start on: of two different records of one event from ASIC 0 the first is lost. */
  lemma RepeatedIdLosesARecord(first: Read, second: Read)
    requires ValidRead(2, first) && ValidRead(2, second) && first.asic == second.asic == 0
    requires Key(first) == Key(second) && first.words != second.words
    ensures ValidLog(2, [first] + [second])
    ensures var log, r := [first] + [second], Record(0, first.words, first.nfifo);
            InLog(r, log) == 1 && Held(r, Run(2, log)) == 0
  {
    var none: seq<Read> := [];
    var r := Record(0, first.words, first.nfifo);
    assert none + [first] == [first];
    assert [first][..0] == none && ([first] + [second])[..1] == [first];
    NewEvent(Run(2, none), first);
    RunSnoc(2, none, first);
    InLogSnoc(r, none, first);
    InLogSnoc(r, [first], second);
    ReplacedIsLost(2, [first], second, r);
  }

  lemma InLogSnoc(r: Record, log: seq<Read>, e: Read)
    ensures InLog(r, log + [e]) == InLog(r, log) + InRead(r, e)
  {
    assert (log + [e])[..|log|] == log;
  }

  function BurstRead(id: nat): (e: Read)
    requires id < 0x8000_0000
    ensures ValidRead(2, e) && Key(e) == id && e.asic == 0 && e.sweepAt == e.bornAt == 0
  {
    Read(0, [id] + seq(N_ASIC_PACKET - 1, i => 0), 0, 0, 0)
  }

  /** m records of different events from ASIC 0, all at once. */
  function Burst(m: nat): (log: seq<Read>)
    requires m <= 0x8000_0000
    ensures |log| == m && ValidLog(2, log)
    ensures forall j | 0 <= j < m :: log[j].sweepAt == log[j].bornAt == 0
  {
    if m == 0 then [] else Burst(m - 1) + [BurstRead(m - 1)]
  }

  ghost predicate BurstMap(r: map<int, Packet>, m: nat) {
    && |r| == m
    && (forall k :: k in r <==> 0 <= k < m)
    && (forall k | k in r :: r[k].time == 0)
  }

  /** The map has no bound: a burst of different events within one timeout all stay. */
  lemma {:induction false} MapUnbounded(m: nat)
    requires m <= 0x8000_0000
    ensures BurstMap(Run(2, Burst(m)).resident, m) && Monotone(Burst(m))
  {
    if m == 0 {
    } else {
      MapUnbounded(m - 1);
      var e, s := BurstRead(m - 1), Run(2, Burst(m - 1));
      RunSnoc(2, Burst(m - 1), e);
      RunKeepsInv(2, Burst(m - 1));
      NothingStale(s.resident, m - 1);
      NewEvent(s, e);
      OneMore(s.resident, m, After(2, s, e).resident[m - 1]);
    }
  }

  lemma NothingStale(r: map<int, Packet>, m: nat)
    requires BurstMap(r, m)
    ensures StaleKeys(r, 0) == {}
  {
    StaleForward(0, 0);
    assert forall k | k in r :: !Stale(0, r[k].time);
  }

  lemma OneMore(r: map<int, Packet>, m: nat, p: Packet)
    requires m > 0 && BurstMap(r, m - 1) && p.time == 0
    ensures BurstMap(r[m - 1 := p], m)
  {
    assert r[m - 1 := p].Keys == r.Keys + {m - 1};
  }
}
