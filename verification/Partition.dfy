/** However timeouts split an event, the packets of the event together hold its join. */
module Partition {
  import opened Machine
  import opened Wire
  import opened Packets
  import opened Aligner
  import opened Conservation
  import opened Join

  predicate HasSlot(p: Packet, i: nat, slot: Slot) {
    i < |p.slots| && p.slots[i] == slot
  }

  /** Message j is of event k and has this in slot i. */
  predicate SendsSlot(ps: seq<Packet>, j: int, k: int, i: nat, slot: Slot) {
    0 <= j < |ps| && ps[j].eventId == k && HasSlot(ps[j], i, slot)
  }

  ghost predicate SentSlot(ps: seq<Packet>, k: int, i: nat, slot: Slot) {
    exists j :: SendsSlot(ps, j, k, i, slot)
  }

  ghost predicate SentTwice(ps: seq<Packet>, k: int, i: nat, slot: Slot) {
    exists a, b :: 0 <= a < b < |ps| && SendsSlot(ps, a, k, i, slot) && SendsSlot(ps, b, k, i, slot)
  }

  /** Some packet of event k, sent or resident, has this in slot i. */
  ghost predicate Keeps(s: State, k: int, i: nat, slot: Slot) {
    SentSlot(s.emitted, k, i, slot) || (k in s.resident && HasSlot(s.resident[k], i, slot))
  }

  lemma SentMore(ps: seq<Packet>, qs: seq<Packet>, k: int, i: nat, slot: Slot)
    requires ps <= qs && SentSlot(ps, k, i, slot)
    ensures SentSlot(qs, k, i, slot)
  {
    var j :| SendsSlot(ps, j, k, i, slot);
    assert SendsSlot(qs, j, k, i, slot);
  }

  lemma SentLater(ps: seq<Packet>, qs: seq<Packet>, k: int, i: nat, slot: Slot)
    requires ps <= qs && SentSlot(qs[|ps|..], k, i, slot)
    ensures SentSlot(qs, k, i, slot)
  {
    var j :| SendsSlot(qs[|ps|..], j, k, i, slot);
    assert SendsSlot(qs, |ps| + j, k, i, slot);
  }

  lemma FlaggedSlot(out: seq<Packet>, p: Packet, i: nat, slot: Slot)
    requires |p.slots| <= 16 && WithFlags(p) in out && HasSlot(p, i, slot)
    ensures SentSlot(out, p.eventId, i, slot)
  {
    var j :| 0 <= j < |out| && out[j] == WithFlags(p);
    assert SendsSlot(out, j, p.eventId, i, slot);
  }

  /** A sweep only moves slots from resident packets to messages. */
  lemma SweepKeeps(n: nat, s: State, now: u64, k: int, i: nat, slot: Slot)
    requires Inv(n, s) && Keeps(s, k, i, slot)
    ensures Keeps(Sweep(n, s, now), k, i, slot)
  {
    var r := Sweep(n, s, now);
    SweepPartitions(n, s, now);
    if SentSlot(s.emitted, k, i, slot) {
      SentMore(s.emitted, r.emitted, k, i, slot);
    } else if k !in r.resident {
      FlaggedSlot(r.emitted[|s.emitted|..], s.resident[k], i, slot);
      SentLater(s.emitted, r.emitted, k, i, slot);
    }
  }

  lemma AdmitKeepsSlot(n: nat, s: State, e: Read, k: int, i: nat, slot: Slot)
    requires Inv(n, s) && ValidRead(n, e) && Keeps(s, k, i, slot)
    ensures Keeps(Admit(n, s, e), k, i, slot)
  {
    if Key(e) !in s.resident && |s.resident| > MAX_PACKET_MAP_SIZE {
      SweepKeeps(n, s, e.sweepAt, k, i, slot);
    }
  }

  /** The packet a record goes into is resident or sent afterwards. */
  lemma DeliverKeepsPacket(n: nat, a: State, e: Read, i: nat, slot: Slot)
    requires Sized(n, a) && ValidRead(n, e) && Key(e) in a.resident
    requires var p := Offer(a.resident[Key(e)], e); p.eventId == Key(e) && HasSlot(p, i, slot)
    ensures Keeps(Deliver(n, a, e), Key(e), i, slot)
  {
    var p, r := Offer(a.resident[Key(e)], e), Deliver(n, a, e);
    if IsDone(p) {
      assert SendsSlot(r.emitted, |a.emitted|, Key(e), i, slot);
    }
  }

  lemma DeliverKeepsOthers(n: nat, a: State, e: Read, k: int, i: nat, slot: Slot)
    requires Sized(n, a) && ValidRead(n, e) && Key(e) in a.resident && Keeps(a, k, i, slot)
    requires Offer(a.resident[Key(e)], e).eventId == Key(e) && (k == Key(e) ==> i != e.asic)
    ensures Keeps(Deliver(n, a, e), k, i, slot)
  {
    if SentSlot(a.emitted, k, i, slot) {
      SentMore(a.emitted, Deliver(n, a, e).emitted, k, i, slot);
    } else if k == Key(e) {
      DeliverKeepsPacket(n, a, e, i, slot);
    }
  }

  /**
   For every log, with any ids and any eviction: the last record of an ASIC for an event is in the slot of that
   ASIC of some packet of the event, sent or resident.
   */
  lemma {:induction false} JoinIsKept(n: nat, log: seq<Read>, k: int, i: nat)
    requires n <= MAX_VATA && ValidLog(n, log) && i < n && Joined(n, log, k)[i].Filled?
    ensures Keeps(Run(n, log), k, i, Joined(n, log, k)[i])
  {
    if log == [] {
    } else {
      var before, e := log[..|log| - 1], log[|log| - 1];
      var s, slot := Run(n, before), Joined(n, log, k)[i];
      assert log == before + [e];
      RunKeepsInv(n, before);
      AdmitKeeps(n, s, e);
      OfferKeeps(n, s, e);
      JoinedSnoc(n, before, e, k);
      if k == Key(e) && i == e.asic {
        DeliverKeepsPacket(n, Admit(n, s, e), e, i, slot);
      } else {
        JoinIsKept(n, before, k, i);
        AdmitKeepsSlot(n, s, e, k, i, slot);
        DeliverKeepsOthers(n, Admit(n, s, e), e, k, i, slot);
      }
    }
  }

  /** A record just read is, with its FIFO count, in the packet of its event that waits, or the one just sent. */
  lemma JustRead(n: nat, log: seq<Read>, e: Read)
    requires n <= MAX_VATA && ValidLog(n, log) && ValidRead(n, e)
    ensures ValidLog(n, log + [e])
    ensures var s := Run(n, log + [e]);
            var p := if Key(e) in s.resident then s.resident[Key(e)]
                     else if s.emitted != [] then s.emitted[|s.emitted| - 1] else NewPacket(n, 0);
            && p.eventId == Key(e) && |p.slots| == n && p.slots[e.asic].Filled?
            && p.slots[e.asic].words == e.words && p.slots[e.asic].nfifo == e.nfifo
  {
    RunSnoc(n, log, e);
    RunKeepsInv(n, log);
    OfferKeeps(n, Run(n, log), e);
    AdmitKeeps(n, Run(n, log), e);
  }

  // ---------- distinct ids: a partition ----------

  lemma {:induction false} LatestIsOne(recs: seq<Rec>, k: int) returns (j: nat)
    requires Latest(recs, k).Filled?
    ensures j < |recs| && IdAt(WordsOf(recs), j, k) && Latest(recs, k) == Filled(recs[j].words, recs[j].nfifo)
  {
    var last := |recs| - 1;
    if HasId(recs[last].words, k) {
      j := last;
    } else {
      j := LatestIsOne(recs[..last], k);
      assert WordsOf(recs[..last])[j] == WordsOf(recs)[j];
    }
  }

  /** A record that was read is what the join has for its event and ASIC. */
  lemma ReadIsJoined(n: nat, log: seq<Read>, k: int, r: Record)
    requires ValidLog(n, log) && Distinct(n, log) && InLog(r, log) > 0 && r.asic < n && HasId(r.words, k)
    ensures Joined(n, log, k)[r.asic] == Filled(r.words, r.nfifo)
  {
    var recs := Consumed(log, r.asic);
    var j := InLogIsConsumed(log, r);
    assert IdAt(WordsOf(recs), j, k);
    LatestIffSeen(recs, k);
    var l := LatestIsOne(recs, k);
    assert DistinctIds(Taken(log, r.asic));
  }

  /** A slot filled in some packet of event k is that slot of the join. */
  lemma KeptIsJoined(n: nat, log: seq<Read>, k: int, i: nat, slot: Slot)
    requires n <= MAX_VATA && ValidLog(n, log) && Distinct(n, log)
    requires i < n && slot.Filled? && Keeps(Run(n, log), k, i, slot)
    ensures slot == Joined(n, log, k)[i]
  {
    var s, r := Run(n, log), Record(i, slot.words, slot.nfifo);
    RunKeepsInv(n, log);
    if SentSlot(s.emitted, k, i, slot) {
      var j :| SendsSlot(s.emitted, j, k, i, slot);
      InSlotsHas(r, s.emitted[j].slots, n, i);
      InOneMessage(r, s.emitted, j);
    } else {
      InSlotsHas(r, s.resident[k].slots, n, i);
      InMapRemove(r, s.resident, k);
    }
    DistinctConserved(r, n, log);
    ReadIsJoined(n, log, k, r);
  }

  /**
   With distinct ids the packets of an event partition its join: a slot is filled in some packet of the event
   exactly when the join fills it, always with what the join has there; and in one packet only.
   */
  lemma PacketsPartitionJoin(n: nat, log: seq<Read>, k: int, i: nat, slot: Slot)
    requires n <= MAX_VATA && ValidLog(n, log) && Distinct(n, log) && i < n && slot.Filled?
    ensures Keeps(Run(n, log), k, i, slot) <==> slot == Joined(n, log, k)[i]
    ensures !SentTwice(Run(n, log).emitted, k, i, slot)
    ensures SentSlot(Run(n, log).emitted, k, i, slot) ==>
              k !in Run(n, log).resident || !HasSlot(Run(n, log).resident[k], i, slot)
  {
    var s := Run(n, log);
    if Keeps(s, k, i, slot) {
      KeptIsJoined(n, log, k, i, slot);
    }
    if slot == Joined(n, log, k)[i] {
      JoinIsKept(n, log, k, i);
    }
    forall a, b | 0 <= a < b < |s.emitted|
      ensures !(SendsSlot(s.emitted, a, k, i, slot) && SendsSlot(s.emitted, b, k, i, slot))
    {
      if s.emitted[a].eventId == s.emitted[b].eventId && i < |s.emitted[a].slots| && i < |s.emitted[b].slots| {
        NoRecordSentTwice(n, log, a, b, i);
      }
    }
    if SentSlot(s.emitted, k, i, slot) && k in s.resident && i < |s.resident[k].slots| {
      var j :| SendsSlot(s.emitted, j, k, i, slot);
      NoRecordSentAndResident(n, log, j, i);
    }
  }
}
