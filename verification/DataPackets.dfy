/** DataPacket: one event's data from all ASICs, filled in place, flagged and serialized. */
module DataPackets {
  import opened Machine
  import opened Wire
  import opened Packets
  import opened VataFifo

  class DataPacket {
    const n: nat                          // N_VATA
    const needData: array<bool>
    const nData: array<u16>
    const nFifo: array<u16>
    const asicData: seq<array<u32>>       // one 19-word buffer per ASIC
    var flags: u16
    var nread: nat
    var eventId: int                      // negative when not set
    var packetTime: u64
    ghost var value: Packet               // what all of the above stands for

    ghost function Arrays(): set<object> {
      {needData as object, nData, nFifo} + (set a | a in asicData)
    }

    ghost function Repr(): set<object> {
      {this} + Arrays()
    }

    /** need_data and ndata agree, and ndata counts whole words plus the FIFO count. */
    ghost predicate WellFormed()
      reads Arrays()
    {
      && n <= MAX_VATA
      && needData.Length == nData.Length == nFifo.Length == |asicData| == n
      && nData != nFifo
      && (forall i | 0 <= i < n :: asicData[i].Length == N_ASIC_PACKET)
      && (forall i, j | 0 <= i < j < n :: asicData[i] != asicData[j])
      && (forall i | 0 <= i < n :: needData[i] <==> nData[i] == 0)
      && (forall i | 0 <= i < n && !needData[i] :: nData[i] % 4 == 2 && nData[i] <= 78)
    }

    ghost function SlotAt(i: nat): Slot
      requires WellFormed() && i < n
      reads Arrays()
    {
      if needData[i] then Missing else Filled(asicData[i][..(nData[i] - 2) / 4], nFifo[i])
    }

    /** The arrays hold exactly these slots. */
    ghost predicate Holds(slots: seq<Slot>)
      reads Arrays()
    {
      && WellFormed()
      && |slots| == n && SlotsFit(slots)
      && forall i | 0 <= i < n :: SlotAt(i) == slots[i]
    }

    twostate lemma StillHolds(slots: seq<Slot>)
      requires old(Holds(slots)) && unchanged(Arrays())
      ensures Holds(slots)
    {
    }

    lemma HoldsUpdated(slots: seq<Slot>, i: nat, s: Slot)
      requires WellFormed() && |slots| == n && SlotsFit(slots) && i < n && SlotFits(s) && SlotAt(i) == s
      requires forall l | 0 <= l < n && l != i :: SlotAt(l) == slots[l]
      ensures Holds(slots[i := s])
    {
    }

    ghost predicate Valid()
      reads Repr()
    {
      && value == Packet(eventId, flags, packetTime, nread, value.slots)
      && Holds(value.slots)
    }

    twostate lemma StillValid()
      requires old(Valid()) && unchanged(Repr())
      ensures Valid() && value == old(value)
    {
    }

    constructor (n: nat, now: u64)
      requires n <= MAX_VATA
      ensures Valid() && this.n == n && fresh(Repr())
      ensures value == NewPacket(n, now)
    {
      var bufs: seq<array<u32>> := [];
      var need, nd, nf := new bool[n], new u16[n], new u16[n];
      var i := 0;
      while i < n
        invariant 0 <= i <= n && |bufs| == i
        invariant fresh(need) && fresh(nd) && fresh(nf) && nd != nf
        invariant forall j | 0 <= j < i :: fresh(bufs[j]) && bufs[j].Length == N_ASIC_PACKET
        invariant forall j, l | 0 <= j < l < i :: bufs[j] != bufs[l]
        invariant forall j | 0 <= j < i :: need[j] && nd[j] == 0 && nf[j] == 0
      {
        var buf := new u32[N_ASIC_PACKET];
        bufs := bufs + [buf];
        nd[i], nf[i], need[i] := 0, 0, true;
        i := i + 1;
      }
      this.n := n;
      needData, nData, nFifo, asicData := need, nd, nf, bufs;
      nread, flags, eventId, packetTime := 0, 0, -1, now;
      value := NewPacket(n, now);
    }

    /** ndata[i] is the number of bytes slot i puts on the wire. */
    lemma SlotSize(i: nat, slots: seq<Slot>)
      requires Holds(slots) && i < n
      ensures NData(slots[i]) == nData[i]
    {
      assert SlotAt(i) == slots[i];
      assert nData[i] % 4 == 2 ==> 4 * ((nData[i] - 2) / 4) + 2 == nData[i];
    }

    method CopyRecord(i: nat, data: array<u32>)
      requires WellFormed() && i < n && data.Length == N_ASIC_PACKET && data !in Repr()
      modifies asicData[i]
      ensures WellFormed() && asicData[i][..] == data[..]
      ensures forall l | 0 <= l < n && l != i :: SlotAt(l) == old(SlotAt(l))
    {
      var j := 0;
      while j < N_ASIC_PACKET
        invariant 0 <= j <= N_ASIC_PACKET
        invariant asicData[i][..j] == data[..j]
      {
        asicData[i][j] := data[j];
        j := j + 1;
      }
    }

    /** Records that the first m words of ASIC i's buffer are its data. */
    method MarkFilled(i: nat, m: nat, count: int)
      requires WellFormed() && i < n && m <= N_ASIC_PACKET && count >= 0
      modifies this`nread, nData, nFifo, needData
      ensures WellFormed() && nread == old(nread) + 1
      ensures SlotAt(i) == Filled(asicData[i][..m], count % 0x1_0000)
      ensures forall l | 0 <= l < n && l != i :: SlotAt(l) == old(SlotAt(l))
    {
      nData[i] := m * 4 + 2;
      nFifo[i] := count % 0x1_0000;
      nread := nread + 1;
      needData[i] := false;
    }

    method Store(i: nat, data: array<u32>, vata: VataCtrl)
      requires WellFormed() && i < n && vata.Valid() && data.Length == N_ASIC_PACKET
      requires data !in Repr() && vata !in Repr()
      modifies this`nread, nData, nFifo, needData, asicData[i]
      ensures WellFormed() && nread == old(nread) + 1
      ensures SlotAt(i) == Filled(data[..], Occupancy(vata.frames) % 0x1_0000)
      ensures forall l | 0 <= l < n && l != i :: SlotAt(l) == old(SlotAt(l))
    {
      CopyRecord(i, data);
      var count := vata.GetNFifo();
      MarkFilled(i, N_ASIC_PACKET, count);
      assert asicData[i][..N_ASIC_PACKET] == data[..];
    }

    /** Stores a record for ASIC i if its event id fits; returns whether it did. */
    method SetVataData(i: nat, data: array<u32>, vata: VataCtrl) returns (ok: bool)
      requires Valid() && i < n && vata.Valid() && data.Length == N_ASIC_PACKET
      requires data !in Repr() && vata !in Repr()
      modifies Repr()
      ensures Valid() && ok == Accepts(old(value), data[..])
      ensures value == if ok then WithData(old(value), i, data[..], Occupancy(vata.frames) % 0x1_0000)
                       else old(value)
    {
      var check := ToLong(data[0]);
      if eventId < 0 {
        eventId := check;
      } else if eventId != check {
        return false;
      }
      ghost var slots, count := value.slots, Occupancy(vata.frames) % 0x1_0000;
      value := WithData(value, i, data[..], count);
      Store(i, data, vata);
      HoldsUpdated(slots, i, Filled(data[..], count));
      ok := true;
    }

    method ReadIntoSlot(i: nat, vata: VataCtrl) returns (ok: bool)
      requires WellFormed() && i < n && vata.Valid() && vata !in Repr()
      modifies this`nread, nData, nFifo, needData, asicData[i], vata
      ensures WellFormed() && vata.Valid()
      ensures ok <==> old(vata.frames) != [] && |old(vata.frames)[0]| <= N_ASIC_PACKET
      ensures forall l | 0 <= l < n && l != i :: SlotAt(l) == old(SlotAt(l))
      ensures ok ==> vata.frames == old(vata.frames)[1..] && nread == old(nread) + 1
                     && SlotAt(i) == Filled(old(vata.frames)[0], Occupancy(vata.frames) % 0x1_0000)
      ensures !ok ==> vata.frames == old(vata.frames) && nread == old(nread) && SlotAt(i) == old(SlotAt(i))
    {
      var code, words := vata.ReadFifoRaw(asicData[i], N_ASIC_PACKET, 0);
      if code != 1 {
        ghost var bytes: int := nData[i];
        ghost var m: int := (bytes - 2) / 4;
        assert !needData[i] ==> asicData[i][..m] == asicData[i][..][..m] == old(asicData[i][..])[..m];
        return false;
      }
      var count := vata.GetNFifo();
      MarkFilled(i, words, count);
      ok := true;
    }

    /** Reads one frame of ASIC i's FIFO straight into its slot; the event id is not looked at. */
    method ReadVataData(i: nat, vata: VataCtrl) returns (ok: bool)
      requires Valid() && i < n && vata.Valid() && vata !in Repr()
      modifies Repr(), vata
      ensures Valid() && vata.Valid()
      ensures ok <==> old(vata.frames) != [] && |old(vata.frames)[0]| <= N_ASIC_PACKET
      ensures ok ==> vata.frames == old(vata.frames)[1..]
      ensures ok ==> value == old(value).(nread := old(nread) + 1,
                       slots := old(value).slots[i := Filled(old(vata.frames)[0], Occupancy(vata.frames) % 0x1_0000)])
      ensures !ok ==> vata.frames == old(vata.frames) && value == old(value)
    {
      ok := ReadIntoSlot(i, vata);
      HoldsUpdated(value.slots, i, SlotAt(i));
      if ok {
        value := value.(nread := nread, slots := value.slots[i := SlotAt(i)]);
      } else {
        assert value.slots[i := SlotAt(i)] == value.slots;
      }
    }

    method Done() returns (done: bool)
      requires Valid()
      ensures done == IsDone(value)
    {
      var i := 0;
      while i < n
        invariant 0 <= i <= n && forall j | 0 <= j < i :: !needData[j]
      {
        if needData[i] {
          assert value.slots[i] == Missing;
          return false;
        }
        i := i + 1;
      }
      done := true;
    }

    method SetAsicFlags()
      requires Valid()
      modifies this`flags, this`value
      ensures Valid() && value == WithFlags(old(value))
    {
      ghost var slots := value.slots;
      assert forall i | 0 <= i < n :: needData[i] <==> SlotAt(i).Missing?;
      var i := 0;
      while i < n
        invariant 0 <= i <= n && value == old(value)
        invariant flags == FlagsUpTo(old(flags), slots, i)
      {
        if needData[i] {
          OrBound(flags, i);
          flags := Or(flags, Pow2(i));
        }
        i := i + 1;
      }
      value := WithFlags(value);
    }

    /** The message size, summed in 16 bits; it never wraps. */
    method GetPacketSize() returns (size: u16)
      requires Valid()
      ensures size == Size(Content(value))
    {
      ghost var f := Content(value);
      size := (2 + HEADER_SIZE + 1 + n * 2) % 0x1_0000;
      var i := 0;
      while i < n
        invariant 0 <= i <= n
        invariant size == PartialSize(f, i)
      {
        SlotSize(i, f.slots);
        PartialSizeStep(f, i);
        size := (size + nData[i]) % 0x1_0000;
        i := i + 1;
      }
      SizeIs(f);
    }

    method WriteHead(size: u16, buf: array<u8>) returns (cur: nat)
      requires Valid() && 14 <= buf.Length
      modifies buf
      ensures cur == 14 && buf[..cur] == Head(size, Content(value))
      ensures forall l | cur <= l < buf.Length :: buf[l] == old(buf[l])
    {
      cur := CopyIn(buf, 0, Le(size, 2));
      cur := CopyIn(buf, cur, [HEADER_SIZE]);
      cur := CopyIn(buf, cur, Le(flags, 2));
      cur := CopyIn(buf, cur, Le(packetTime, 8));
      cur := CopyIn(buf, cur, Le(n, 1));
    }

    method WriteSizes(buf: array<u8>, cur0: nat, ghost slots: seq<Slot>) returns (cur: nat)
      requires Holds(slots) && buf !in Arrays() && cur0 + 2 * n <= buf.Length
      modifies buf
      ensures cur == cur0 + 2 * n
      ensures buf[..cur] == old(buf[..cur0]) + Sizes(slots)
      ensures forall l | cur <= l < buf.Length :: buf[l] == old(buf[l])
    {
      forall i | 0 <= i < n
        ensures nData[i] == NData(slots[i])
      {
        SlotSize(i, slots);
      }
      cur := cur0;
      var i := 0;
      while i < n
        invariant 0 <= i <= n && cur == cur0 + 2 * i
        invariant buf[..cur] + Sizes(slots[i..]) == old(buf[..cur0]) + Sizes(slots)
        invariant forall l | cur <= l < buf.Length :: buf[l] == old(buf[l])
      {
        SizesCons(slots, i);
        Assoc(buf[..cur], Le(nData[i], 2), Sizes(slots[i + 1..]));
        cur := CopyIn(buf, cur, Le(nData[i], 2));
        i := i + 1;
      }
      assert slots[n..] == [];
    }

    method WriteSlot(buf: array<u8>, cur0: nat, i: nat, ghost slots: seq<Slot>) returns (cur: nat)
      requires Holds(slots) && buf !in Arrays() && i < n
      requires cur0 + |Payload(slots[i])| <= buf.Length
      modifies buf
      ensures cur == cur0 + |Payload(slots[i])|
      ensures Holds(slots) && buf[..cur] == old(buf[..cur0]) + Payload(slots[i])
      ensures forall l | cur <= l < buf.Length :: buf[l] == old(buf[l])
    {
      SlotSize(i, slots);
      cur := cur0;
      if nData[i] > 0 {
        var words := Words(asicData[i][..(nData[i] - 2) / 4]);
        assert Payload(slots[i]) == Payload(SlotAt(i)) == words + Le(nFifo[i], 2);
        Assoc(buf[..cur], words, Le(nFifo[i], 2));
        cur := CopyIn(buf, cur, words);
        cur := CopyIn(buf, cur, Le(nFifo[i], 2));
      }
      StillHolds(slots);
    }

    method WritePayloads(buf: array<u8>, cur0: nat, ghost slots: seq<Slot>) returns (cur: nat)
      requires Holds(slots) && buf !in Arrays() && cur0 + |Payloads(slots)| <= buf.Length
      modifies buf
      ensures cur == cur0 + |Payloads(slots)|
      ensures buf[..cur] == old(buf[..cur0]) + Payloads(slots)
      ensures forall l | cur <= l < buf.Length :: buf[l] == old(buf[l])
    {
      cur := cur0;
      var i := 0;
      while i < n
        invariant 0 <= i <= n && cur + |Payloads(slots[i..])| == cur0 + |Payloads(slots)|
        invariant Holds(slots)
        invariant buf[..cur] + Payloads(slots[i..]) == old(buf[..cur0]) + Payloads(slots)
        invariant forall l | cur <= l < buf.Length :: buf[l] == old(buf[l])
      {
        PayloadsCons(slots, i);
        Assoc(buf[..cur], Payload(slots[i]), Payloads(slots[i + 1..]));
        cur := WriteSlot(buf, cur, i, slots);
        i := i + 1;
      }
      assert slots[n..] == [];
    }

    /** Writes the message: every byte of [0, size) once, in order, and none after. */
    method ToMsg(size: u16, buf: array<u8>)
      requires Valid() && buf !in Repr()
      requires size == Size(Content(value)) <= buf.Length
      modifies buf
      ensures buf[..size] == Encode(Content(value))
      ensures forall l | size <= l < buf.Length :: buf[l] == old(buf[l])
    {
      var cur := WriteHead(size, buf);
      StillHolds(value.slots);
      label before:
      cur := WriteSizes(buf, cur, value.slots);
      StillHolds@before(value.slots);
      cur := WritePayloads(buf, cur, value.slots);
    }
  }

  lemma SizesCons(slots: seq<Slot>, i: nat)
    requires i < |slots|
    ensures Sizes(slots[i..]) == Le(NData(slots[i]), 2) + Sizes(slots[i + 1..])
  {
    assert slots[i..][0] == slots[i] && slots[i..][1..] == slots[i + 1..];
  }

  /** The size get_packet_size has summed up after i ASICs. */
  function PartialSize(f: Frame, i: nat): nat
    requires i <= |f.slots|
  {
    14 + 2 * |f.slots| + DataBytes(f.slots, i)
  }

  lemma PartialSizeStep(f: Frame, i: nat)
    requires Fits(f) && i < |f.slots|
    ensures (PartialSize(f, i) + NData(f.slots[i])) % 0x1_0000 == PartialSize(f, i + 1)
  {
    DataBytesBound(f.slots, i + 1);
  }

  /** memcpy followed by moving the cursor. */
  method CopyIn(buf: array<u8>, cur: nat, bytes: seq<u8>) returns (next: nat)
    requires cur + |bytes| <= buf.Length
    modifies buf
    ensures next == cur + |bytes|
    ensures buf[..next] == old(buf[..cur]) + bytes
    ensures forall l | next <= l < buf.Length :: buf[l] == old(buf[l])
  {
    var j := 0;
    while j < |bytes|
      invariant 0 <= j <= |bytes|
      invariant buf[..cur + j] == old(buf[..cur]) + bytes[..j]
      invariant forall l | cur + j <= l < buf.Length :: buf[l] == old(buf[l])
    {
      buf[cur + j] := bytes[j];
      j := j + 1;
    }
    next := cur + |bytes|;
  }
}
