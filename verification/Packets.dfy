/** The values a DataPacket takes, and what each of its methods does to them. */
module Packets {
  import opened Machine
  import opened Wire

  /**
   eventId, flags, packet_time and nread, with need_data, ndata, nfifo and asic_data folded into one
   slot per ASIC.
   */
  datatype Packet = Packet(eventId: int, flags: u16, time: u64, nread: nat, slots: seq<Slot>)

  /** The packet as it goes on the wire. */
  function Content(p: Packet): Frame {
    Frame(p.flags, p.time, p.slots)
  }

  function NewPacket(n: nat, now: u64): Packet {
    Packet(-1, 0, now, 0, seq(n, i => Missing))
  }

  /** An unset event id takes the id of the first record; after that the ids must agree. */
  predicate Accepts(p: Packet, words: seq<u32>)
    requires |words| > 0
  {
    p.eventId < 0 || p.eventId == ToLong(words[0])
  }

  function WithData(p: Packet, i: nat, words: seq<u32>, nfifo: u16): Packet
    requires i < |p.slots| && |words| > 0
  {
    p.(eventId := if p.eventId < 0 then ToLong(words[0]) else p.eventId,
       nread := p.nread + 1,
       slots := p.slots[i := Filled(words, nfifo)])
  }

  predicate IsDone(p: Packet) {
    forall i | 0 <= i < |p.slots| :: p.slots[i].Filled?
  }

  /** All slots hold data of the packet's event, as far as their ids are not negative. */
  predicate OfOneEvent(p: Packet) {
    forall i | 0 <= i < |p.slots| && p.slots[i].Filled? && |p.slots[i].words| > 0 ::
      var id := ToLong(p.slots[i].words[0]);
      if p.eventId < 0 then id < 0 else id == p.eventId || id < 0
  }

  /** A packet with an id takes only records of that id; one without takes any, and its id if it has one. */
  lemma AcceptsOneEvent(p: Packet, i: nat, words: seq<u32>, nfifo: u16)
    requires i < |p.slots| && |words| > 0
    ensures 0 <= p.eventId ==> (Accepts(p, words) <==> ToLong(words[0]) == p.eventId)
    ensures p.eventId < 0 ==> Accepts(p, words) && WithData(p, i, words, nfifo).eventId == ToLong(words[0])
    ensures OfOneEvent(p) && Accepts(p, words) ==> OfOneEvent(WithData(p, i, words, nfifo))
  {
  }

  /** The flag word after the first m rounds of set_asic_flags. */
  function FlagsUpTo(flags: u16, slots: seq<Slot>, m: nat): (r: u16)
    requires m <= |slots| <= 16
  {
    if m == 0 then flags
    else
      var f := FlagsUpTo(flags, slots, m - 1);
      OrBound(f, m - 1);
      if slots[m - 1].Missing? then Or(f, Pow2(m - 1)) else f
  }

  function WithFlags(p: Packet): Packet
    requires |p.slots| <= 16
  {
    p.(flags := FlagsUpTo(p.flags, p.slots, |p.slots|))
  }

  lemma OrBound(f: u16, k: nat)
    requires k < 16
    ensures Or(f, Pow2(k)) < 0x1_0000
  {
    Pow2Values();
    forall i: nat | 16 <= i
      ensures !Bit(Or(f, Pow2(k)), i)
    {
      BitsBelow(f, 16, i);
      BitPow2(k, i);
      BitOr(f, Pow2(k), i);
    }
    BelowFromBits(Or(f, Pow2(k)), 16);
  }

  /** set_asic_flags sets the bits of the ASICs without data and clears none. */
  lemma {:induction false} FlagBits(flags: u16, slots: seq<Slot>, m: nat, i: nat)
    requires m <= |slots| <= 16
    ensures Bit(FlagsUpTo(flags, slots, m), i) <==> Bit(flags, i) || (i < m && slots[i].Missing?)
  {
    if m == 0 {
    } else {
      var f := FlagsUpTo(flags, slots, m - 1);
      FlagBits(flags, slots, m - 1, i);
      BitOr(f, Pow2(m - 1), i);
      BitPow2(m - 1, i);
    }
  }

  /** Bit i of the flag word is set exactly when ASIC i contributed no data. */
  ghost predicate FlagsExact(p: Packet) {
    forall i: nat :: Bit(p.flags, i) <==> i < |p.slots| && p.slots[i].Missing?
  }

  lemma FlagsOfUnflagged(p: Packet)
    requires |p.slots| <= 16 && p.flags == 0
    ensures FlagsExact(WithFlags(p))
  {
    forall i: nat
      ensures Bit(WithFlags(p).flags, i) <==> i < |p.slots| && p.slots[i].Missing?
    {
      FlagBits(0, p.slots, |p.slots|, i);
      BitOfZero(i);
    }
  }

  /** In particular a packet with every slot filled is sent with flags 0. */
  lemma ExactFlagsOfDone(p: Packet)
    requires FlagsExact(p)
    ensures p.flags == 0 <==> IsDone(p)
  {
    if IsDone(p) {
      Pow2Values();
      forall i: nat | i < 16
        ensures Bit(p.flags, i) <==> Bit(0, i)
      {
        BitOfZero(i);
      }
      BitsDetermine(p.flags, 0, 16);
    } else {
      var i :| 0 <= i < |p.slots| && p.slots[i].Missing?;
      assert Bit(p.flags, i);
      BitOfZero(i);
    }
  }
}
