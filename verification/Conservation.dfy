/** Every record read is held by exactly one resident packet or one message, whatever is evicted. */
module Conservation {
  import opened Keys
  import opened Machine
  import opened Wire
  import opened Packets
  import opened Aligner

  datatype Record = Record(asic: nat, words: seq<u32>, nfifo: u16)

  // The number of times record r is held by a slot, a packet, some messages, the map; and read by a log.

  function InSlot(r: Record, i: nat, s: Slot): nat {
    if s.Filled? && r == Record(i, s.words, s.nfifo) then 1 else 0
  }

  function InSlots(r: Record, slots: seq<Slot>, m: nat): nat
    requires m <= |slots|
  {
    if m == 0 then 0 else InSlots(r, slots, m - 1) + InSlot(r, m - 1, slots[m - 1])
  }

  function InPacket(r: Record, p: Packet): nat {
    InSlots(r, p.slots, |p.slots|)
  }

  function InMessages(r: Record, ps: seq<Packet>): nat {
    if ps == [] then 0 else InMessages(r, ps[..|ps| - 1]) + InPacket(r, ps[|ps| - 1])
  }

  ghost function InMap(r: Record, m: map<int, Packet>): nat
    decreases |m|
  {
    if m == map[] then 0
    else
      var k := Least(m.Keys);
      InPacket(r, m[k]) + InMap(r, m - {k})
  }

  function InLog(r: Record, log: seq<Read>): nat {
    if log == [] then 0
    else InLog(r, log[..|log| - 1]) + InRead(r, log[|log| - 1])
  }

  function InRead(r: Record, e: Read): nat {
    if r == Record(e.asic, e.words, e.nfifo) then 1 else 0
  }

  ghost function Held(r: Record, s: State): nat {
    InMap(r, s.resident) + InMessages(r, s.emitted)
  }

  /** Whether r is the record that this read replaces in a packet still resident. */
  function Replaced(r: Record, m: map<int, Packet>, e: Read): nat
    requires |e.words| > 0 && forall k | k in m :: e.asic < |m[k].slots|
  {
    if Key(e) in m then InSlot(r, e.asic, m[Key(e)].slots[e.asic]) else 0
  }

  /** How often r was replaced during a run. */
  ghost function Overwritten(r: Record, n: nat, log: seq<Read>): nat
    requires n <= MAX_VATA && ValidLog(n, log)
  {
    if log == [] then 0
    else
      var before := log[..|log| - 1];
      Overwritten(r, n, before) + Replaced(r, Run(n, before).resident, log[|log| - 1])
  }

  // ---------- slots, maps and messages ----------

  lemma {:induction false} InSlotsUpdate(r: Record, slots: seq<Slot>, m: nat, i: nat, s: Slot)
    requires m <= |slots| && i < |slots|
    ensures InSlots(r, slots[i := s], m)
         == InSlots(r, slots, m) + (if i < m then InSlot(r, i, s) - InSlot(r, i, slots[i]) else 0)
  {
    if m == 0 {
    } else {
      InSlotsUpdate(r, slots, m - 1, i, s);
    }
  }

  lemma {:induction false} InSlotsEmpty(r: Record, slots: seq<Slot>, m: nat)
    requires m <= |slots| && forall i | 0 <= i < m :: slots[i].Missing?
    ensures InSlots(r, slots, m) == 0
  {
    if m == 0 {
    } else {
      InSlotsEmpty(r, slots, m - 1);
    }
  }

  lemma {:induction false} InSlotsHas(r: Record, slots: seq<Slot>, m: nat, i: nat)
    requires i < m <= |slots|
    ensures InSlot(r, i, slots[i]) <= InSlots(r, slots, m)
  {
    if i == m - 1 {
    } else {
      InSlotsHas(r, slots, m - 1, i);
    }
  }

  lemma {:induction false} InMapRemove(r: Record, m: map<int, Packet>, k: int)
    requires k in m
    ensures InMap(r, m) == InPacket(r, m[k]) + InMap(r, m - {k})
    decreases |m|
  {
    var l := Least(m.Keys);
    if l == k {
    } else {
      InMapRemove(r, m - {l}, k);
      assert l in m - {k};
      assert m - {l} - {k} == m - {k} - {l};
    }
  }

  lemma InMapPut(r: Record, m: map<int, Packet>, k: int, p: Packet)
    ensures InMap(r, m[k := p]) == InPacket(r, p) + InMap(r, m - {k})
  {
    InMapRemove(r, m[k := p], k);
    assert m[k := p] - {k} == m - {k};
  }

  lemma InMessagesSnoc(r: Record, ps: seq<Packet>, p: Packet)
    ensures InMessages(r, ps + [p]) == InMessages(r, ps) + InPacket(r, p)
  {
    assert (ps + [p])[..|ps|] == ps;
  }

  /** Sending some packets of a map moves their records and loses none. */
  lemma {:induction false} SentMoves(r: Record, m: map<int, Packet>, keys: set<int>, ps: seq<Packet>)
    requires keys <= m.Keys && forall k | k in keys :: |m[k].slots| <= 16
    ensures InMap(r, m - keys) + InMessages(r, ps + Sent(m, keys)) == InMap(r, m) + InMessages(r, ps)
    decreases |keys|
  {
    if keys == {} {
      assert m - keys == m && ps + Sent(m, keys) == ps;
    } else {
      var k := Least(keys);
      var p := WithFlags(m[k]);
      SentOfSmaller(m, keys - {k}, k);
      SentMoves(r, m - {k}, keys - {k}, ps + [p]);
      RemoveInSteps(m, keys, k);
      Assoc(ps, [p], Sent(m, keys - {k}));
      InMessagesSnoc(r, ps, p);
      InMapRemove(r, m, k);
    }
  }

  lemma RemoveInSteps(m: map<int, Packet>, keys: set<int>, k: int)
    requires k in keys
    ensures m - {k} - (keys - {k}) == m - keys
  {
  }

  lemma {:induction false} SentOfSmaller(m: map<int, Packet>, keys: set<int>, k: int)
    requires keys <= m.Keys && k !in keys && forall k | k in keys :: |m[k].slots| <= 16
    ensures Sent(m - {k}, keys) == Sent(m, keys)
    decreases |keys|
  {
    if keys == {} {
    } else {
      SentOfSmaller(m, keys - {Least(keys)}, k);
    }
  }

  // ---------- conservation ----------

  lemma AdmitConserves(r: Record, n: nat, s: State, e: Read)
    requires Sized(n, s) && ValidRead(n, e)
    ensures Held(r, Admit(n, s, e)) == Held(r, s)
  {
    if Key(e) !in s.resident {
      var room, k := MakeRoom(n, s, e.sweepAt), Key(e);
      SentMoves(r, s.resident, StaleKeys(s.resident, e.sweepAt), s.emitted);
      InMapPut(r, room.resident, k, NewPacket(n, e.bornAt));
      assert room.resident - {k} == room.resident;
      InSlotsEmpty(r, NewPacket(n, e.bornAt).slots, n);
    }
  }

  lemma DeliverConserves(r: Record, n: nat, s: State, e: Read)
    requires Sized(n, s) && ValidRead(n, e) && Key(e) in s.resident && Accepts(s.resident[Key(e)], e.words)
    ensures Held(r, Deliver(n, s, e)) + InSlot(r, e.asic, s.resident[Key(e)].slots[e.asic])
         == Held(r, s) + InRead(r, e)
  {
    var k := Key(e);
    var p := Offer(s.resident[k], e);
    InSlotsUpdate(r, s.resident[k].slots, n, e.asic, Filled(e.words, e.nfifo));
    InMapRemove(r, s.resident, k);
    InMapPut(r, s.resident, k, p);
    InMessagesSnoc(r, s.emitted, WithFlags(p));
  }

  /**
   Conservation: each record is read as often as it is held by resident packets and messages together,
   plus as often as it was overwritten by a later record of the same ASIC and event while resident.
   */
  lemma {:induction false} RecordsConserved(r: Record, n: nat, log: seq<Read>)
    requires n <= MAX_VATA && ValidLog(n, log)
    ensures InLog(r, log) == Held(r, Run(n, log)) + Overwritten(r, n, log)
  {
    if log == [] {
    } else {
      var before, e := log[..|log| - 1], log[|log| - 1];
      var s := Run(n, before);
      RecordsConserved(r, n, before);
      RunKeepsInv(n, before);
      AdmitKeeps(n, s, e);
      AdmitConserves(r, n, s, e);
      DeliverConserves(r, n, Admit(n, s, e), e);
      InSlotsEmpty(r, NewPacket(n, e.bornAt).slots, n);
    }
  }

  // ---------- distinct ids ----------

  /** Every filled slot of a resident packet comes from that ASIC's consumed records. */
  ghost predicate Sourced(n: nat, log: seq<Read>, m: map<int, Packet>) {
    forall k, i: nat | k in m && i < n && i < |m[k].slots| && m[k].slots[i].Filled? ::
      Seen(Taken(log, i), k)
  }

  lemma SeenSnoc(log: seq<Read>, e: Read, i: nat, k: int)
    requires Seen(Taken(log, i), k) || (e.asic == i && |e.words| > 0 && Key(e) == k)
    ensures Seen(Taken(log + [e], i), k)
  {
    TakenSnoc(log, e, i);
    var frames := Taken(log, i);
    if Seen(frames, k) {
      var j :| 0 <= j < |frames| && IdAt(frames, j, k);
      assert IdAt(Taken(log + [e], i), j, k);
    } else {
      assert IdAt(Taken(log + [e], i), |frames|, k);
    }
  }

  lemma {:induction false} RunSourced(n: nat, log: seq<Read>)
    requires n <= MAX_VATA && ValidLog(n, log)
    ensures Sourced(n, log, Run(n, log).resident)
  {
    if log == [] {
    } else {
      var before, e := log[..|log| - 1], log[|log| - 1];
      assert log == before + [e];
      RunSourced(n, before);
      var m, m' := Run(n, before).resident, Run(n, log).resident;
      forall k, i: nat | k in m' && i < n && i < |m'[k].slots| && m'[k].slots[i].Filled?
        ensures Seen(Taken(log, i), k)
      {
        if k == Key(e) && i == e.asic {
        } else {
          assert k in m && m[k].slots[i].Filled?;
        }
        SeenSnoc(before, e, i, k);
      }
    }
  }

  /** With distinct ids in each FIFO no read ever replaces a record. */
  lemma {:induction false} DistinctNeverOverwrites(r: Record, n: nat, log: seq<Read>)
    requires n <= MAX_VATA && ValidLog(n, log) && Distinct(n, log)
    ensures Overwritten(r, n, log) == 0
  {
    if log == [] {
    } else {
      DistinctSnoc(n, log);
      DistinctNeverOverwrites(r, n, log[..|log| - 1]);
      RunSourced(n, log[..|log| - 1]);
    }
  }

  /** With distinct ids, then, the records read are exactly those resident and those sent. */
  lemma DistinctConserved(r: Record, n: nat, log: seq<Read>)
    requires n <= MAX_VATA && ValidLog(n, log) && Distinct(n, log)
    ensures InLog(r, log) == Held(r, Run(n, log))
  {
    RecordsConserved(r, n, log);
    DistinctNeverOverwrites(r, n, log);
  }

  lemma {:induction false} InLogIsConsumed(log: seq<Read>, r: Record) returns (j: nat)
    requires InLog(r, log) > 0
    ensures j < |Consumed(log, r.asic)| && Consumed(log, r.asic)[j] == Rec(r.words, r.nfifo)
  {
    var before, e := log[..|log| - 1], log[|log| - 1];
    if r == Record(e.asic, e.words, e.nfifo) {
      j := |Consumed(before, r.asic)|;
    } else {
      j := InLogIsConsumed(before, r);
    }
  }

  lemma {:induction false} DistinctOnce(n: nat, log: seq<Read>, r: Record)
    requires ValidLog(n, log) && Distinct(n, log)
    ensures InLog(r, log) <= 1
  {
    if log == [] {
    } else {
      var before, e := log[..|log| - 1], log[|log| - 1];
      DistinctSnoc(n, log);
      DistinctOnce(n, before, r);
      if InLog(r, before) > 0 {
        var j := InLogIsConsumed(before, r);
        assert r.asic == e.asic && r.words == e.words ==> IdAt(Taken(before, e.asic), j, Key(e));
      }
    }
  }

  lemma {:induction false} InOneMessage(r: Record, ps: seq<Packet>, a: nat)
    requires a < |ps|
    ensures InMessages(r, ps) >= InPacket(r, ps[a])
  {
    if a == |ps| - 1 {
    } else {
      InOneMessage(r, ps[..|ps| - 1], a);
    }
  }

  lemma {:induction false} InTwoMessages(r: Record, ps: seq<Packet>, a: nat, b: nat)
    requires a < b < |ps|
    ensures InMessages(r, ps) >= InPacket(r, ps[a]) + InPacket(r, ps[b])
  {
    if b == |ps| - 1 {
      InOneMessage(r, ps[..b], a);
    } else {
      InTwoMessages(r, ps[..|ps| - 1], a, b);
    }
  }

  /** The record in slot i of a packet. */
  function At(p: Packet, i: nat): Record
    requires i < |p.slots| && p.slots[i].Filled?
  {
    Record(i, p.slots[i].words, p.slots[i].nfifo)
  }

  lemma SameIdSameRecord(n: nat, log: seq<Read>, a: Record, b: Record)
    requires ValidLog(n, log) && Distinct(n, log) && InLog(a, log) > 0 && InLog(b, log) > 0
    requires a.asic == b.asic < n && |a.words| > 0 && |b.words| > 0 && ToLong(a.words[0]) == ToLong(b.words[0])
    ensures a == b
  {
    var i := InLogIsConsumed(log, a);
    var j := InLogIsConsumed(log, b);
    var frames := Taken(log, a.asic);
    assert IdAt(frames, i, ToLong(a.words[0])) && IdAt(frames, j, ToLong(a.words[0]));
    assert DistinctIds(frames);
  }

  /**
   With distinct ids no event's record from one ASIC is sent twice, even when a timeout splits the
   event into several messages ...
   */
  lemma NoRecordSentTwice(n: nat, log: seq<Read>, a: nat, b: nat, i: nat)
    requires n <= MAX_VATA && ValidLog(n, log) && Distinct(n, log)
    requires var ps := Run(n, log).emitted;
             a < b < |ps| && ps[a].eventId == ps[b].eventId && i < |ps[a].slots| && i < |ps[b].slots|
    ensures var ps := Run(n, log).emitted; ps[a].slots[i].Missing? || ps[b].slots[i].Missing?
  {
    var ps := Run(n, log).emitted;
    RunKeepsInv(n, log);
    if ps[a].slots[i].Filled? && ps[b].slots[i].Filled? {
      var ra, rb := At(ps[a], i), At(ps[b], i);
      InSlotsHas(ra, ps[a].slots, n, i);
      InSlotsHas(rb, ps[b].slots, n, i);
      InOneMessage(ra, ps, a);
      InOneMessage(rb, ps, b);
      DistinctConserved(ra, n, log);
      DistinctConserved(rb, n, log);
      SameIdSameRecord(n, log, ra, rb);
      InTwoMessages(ra, ps, a, b);
      DistinctOnce(n, log, ra);
    }
  }

  /** ... nor is a record that was sent still resident. */
  lemma NoRecordSentAndResident(n: nat, log: seq<Read>, a: nat, i: nat)
    requires n <= MAX_VATA && ValidLog(n, log) && Distinct(n, log)
    requires var s := Run(n, log); a < |s.emitted| && s.emitted[a].eventId in s.resident
    requires var s := Run(n, log); i < |s.emitted[a].slots| && i < |s.resident[s.emitted[a].eventId].slots|
    ensures var s := Run(n, log);
            s.emitted[a].slots[i].Missing? || s.resident[s.emitted[a].eventId].slots[i].Missing?
  {
    var s := Run(n, log);
    var p, q := s.emitted[a], s.resident[s.emitted[a].eventId];
    RunKeepsInv(n, log);
    if p.slots[i].Filled? && q.slots[i].Filled? {
      var rp, rq := At(p, i), At(q, i);
      InSlotsHas(rp, p.slots, n, i);
      InSlotsHas(rq, q.slots, n, i);
      InOneMessage(rp, s.emitted, a);
      InMapRemove(rp, s.resident, p.eventId);
      InMapRemove(rq, s.resident, p.eventId);
      DistinctConserved(rp, n, log);
      DistinctConserved(rq, n, log);
      SameIdSameRecord(n, log, rp, rq);
      DistinctOnce(n, log, rp);
    }
  }
}
