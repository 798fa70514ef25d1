/** DataEmitter: the packet map of heap objects behind the aligner, and the emitter's loop body. */
module DataEmitters {
  import opened Commands
  import opened Keys
  import opened Machine
  import opened Wire
  import opened Packets
  import opened VataFifo
  import opened DataPackets
  import opened Aligner

  // ---------- maps of packet objects ----------

  ghost function Objects(ps: map<int, DataPacket>): set<object> {
    set k, o | k in ps && o in ps[k].Repr() :: o
  }

  /** No packet shares an object with another one or with these devices. */
  ghost predicate Separate(ps: map<int, DataPacket>, devices: set<object>) {
    && Objects(ps) !! devices
    && (forall j, k | j in ps && k in ps && j != k :: ps[j].Repr() !! ps[k].Repr())
  }

  /** The packet objects hold these values. */
  ghost predicate AllHold(ps: map<int, DataPacket>, rs: map<int, Packet>, n: nat)
    reads Objects(ps)
  {
    && ps.Keys == rs.Keys
    && forall k | k in ps :: ps[k].Valid() && ps[k].n == n && ps[k].value == rs[k]
  }

  lemma HoldWithout(ps: map<int, DataPacket>, rs: map<int, Packet>, n: nat, k: int)
    requires AllHold(ps, rs, n)
    ensures AllHold(ps - {k}, rs - {k}, n)
  {
  }

  lemma HoldWith(ps: map<int, DataPacket>, rs: map<int, Packet>, n: nat, k: int, p: DataPacket)
    requires AllHold(ps - {k}, rs - {k}, n) && p.Valid() && p.n == n
    ensures AllHold(ps[k := p], rs[k := p.value], n)
  {
    var qs, ss := ps[k := p], rs[k := p.value];
    assert qs.Keys == (ps - {k}).Keys + {k} && ss.Keys == (rs - {k}).Keys + {k};
    forall j | j in qs
      ensures qs[j].Valid() && qs[j].n == n && qs[j].value == ss[j]
    {
      if j != k {
        assert j in ps - {k} && (ps - {k})[j] == qs[j] && (rs - {k})[j] == ss[j];
      }
    }
  }

  lemma SeparateWithout(ps: map<int, DataPacket>, devices: set<object>, k: int)
    requires Separate(ps, devices) && k in ps
    ensures Separate(ps - {k}, devices) && Objects(ps - {k}) !! ps[k].Repr()
    ensures ps[k].Repr() <= Objects(ps) && ps[k].Repr() !! devices
    ensures (ps - {k}).Values == ps.Values - {ps[k]}
  {
    forall j | j in ps && j != k
      ensures ps[j] != ps[k]
    {
      assert ps[j] in ps[j].Repr() && ps[k] in ps[k].Repr();
    }
    ValuesWithout(ps, k);
  }

  lemma ObjectsOfSubmap(ps: map<int, DataPacket>, qs: map<int, DataPacket>, k: int)
    requires qs == ps || qs == ps - {k}
    ensures Objects(qs) <= Objects(ps)
  {
  }

  lemma WithoutUpdated<K, V>(m: map<K, V>, k: K, v: V)
    ensures m[k := v] - {k} == m - {k}
  {
  }

  lemma ObjectsOfChanged(ps: map<int, DataPacket>, qs: map<int, DataPacket>, k: int)
    requires forall j | j in qs && j != k :: j in ps && qs[j] == ps[j]
    ensures forall o | o in Objects(qs) :: o in Objects(ps) || (k in qs && o in qs[k].Repr())
  {
  }

  lemma ObjectsWith(ps: map<int, DataPacket>, k: int, p: DataPacket)
    requires k !in ps
    ensures Objects(ps[k := p]) == Objects(ps) + p.Repr()
  {
    var qs := ps[k := p];
    forall o | o in Objects(ps)
      ensures o in Objects(qs)
    {
      var j :| j in ps && o in ps[j].Repr();
      assert j in qs && qs[j] == ps[j];
    }
    assert k in qs && qs[k] == p;
  }

  lemma SeparateWith(ps: map<int, DataPacket>, devices: set<object>, k: int, p: DataPacket)
    requires Separate(ps, devices) && k !in ps && Objects(ps) !! p.Repr() && p.Repr() !! devices
    ensures Separate(ps[k := p], devices)
    ensures ps[k := p].Values == ps.Values + {p}
    ensures Objects(ps[k := p]) <= Objects(ps) + p.Repr()
  {
    ValuesWith(ps, k, p);
    ObjectsWith(ps, k, p);
    forall j | j in ps
      ensures ps[j].Repr() !! p.Repr()
    {
      assert ps[j].Repr() <= Objects(ps);
    }
  }

  lemma ValuesWithout<K, V>(m: map<K, V>, k: K)
    requires k in m && forall j | j in m && j != k :: m[j] != m[k]
    ensures (m - {k}).Values == m.Values - {m[k]}
  {
    forall v | v in m.Values - {m[k]}
      ensures v in (m - {k}).Values
    {
      var j :| j in m && m[j] == v;
      assert j in m - {k} && (m - {k})[j] == v;
    }
  }

  lemma ValuesWith<K, V>(m: map<K, V>, k: K, v: V)
    requires k !in m
    ensures m[k := v].Values == m.Values + {v}
  {
    var m' := m[k := v];
    assert k in m' && m'[k] == v;
    forall w | w in m.Values
      ensures w in m'.Values
    {
      var j :| j in m && m[j] == w;
      assert j in m' && m'[j] == w;
    }
  }

  // ---------- the emitter ----------

  /** The clock at a sweep and at a packet's creation, should one ASIC's turn need them. */
  datatype Tick = Tick(sweepAt: u64, bornAt: u64)

  /** What one turn of ASIC i adds to the log. */
  function ReadOf(i: nat, frames: seq<seq<u32>>, t: Tick): seq<Read> {
    if FullRead(frames).None? then []
    else [Read(i, FullRead(frames).value, Occupancy(AfterFullRead(frames)) % 0x1_0000, t.sweepAt, t.bornAt)]
  }

  function Contents(ps: seq<Packet>): (fs: seq<Frame>)
    ensures |fs| == |ps|
  {
    seq(|ps|, j requires 0 <= j < |ps| => Content(ps[j]))
  }

  lemma EncodeAllSnoc(ps: seq<Packet>, p: Packet)
    ensures EncodeAll(Contents(ps + [p])) == EncodeAll(Contents(ps)) + [Encode(Content(p))]
  {
  }

  lemma EncodedAt(ps: seq<Packet>, j: nat)
    requires j < |ps|
    ensures EncodeAll(Contents(ps))[j] == Encode(Content(ps[j]))
  {
  }

  lemma ContentFits(n: nat, k: int, p: Packet)
    requires n <= MAX_VATA && HoldsEvent(n, k, p)
    ensures Fits(Content(p))
  {
    forall i | 0 <= i < |p.slots|
      ensures SlotFits(p.slots[i])
    {
    }
  }

  /**
   Every message of every run, decoded: the slots and the time of the packet that was sent, and a flag for
   exactly the ASICs whose slot is missing.
   */
  lemma MessageIs(n: nat, log: seq<Read>, j: nat)
    requires n <= MAX_VATA && ValidLog(n, log) && j < |Run(n, log).emitted|
    ensures var p, m := Run(n, log).emitted[j], EncodeAll(Contents(Run(n, log).emitted))[j];
            Decode(m).Some? &&
            var f := Decode(m).value;
            && f.slots == p.slots && f.time == p.time && |f.slots| == n
            && forall i: nat :: Bit(f.flags, i) <==> i < n && f.slots[i].Missing?
  {
    var p := Run(n, log).emitted[j];
    RunKeepsInv(n, log);
    EncodedAt(Run(n, log).emitted, j);
    ContentFits(n, p.eventId, p);
    DecodeOfEncode(Content(p));
    assert FlagsExact(p);
  }

  class DataEmitter {
    const n: nat                             // N_VATA
    const vatas: seq<VataCtrl>
    const dataBuffer: array<u32>
    ghost const devices: set<object>         // this, the buffer and the FIFOs
    var packets: map<int, DataPacket>
    var running: bool
    var sent: seq<seq<u8>>                   // what went out on emit_sock
    ghost var residents: map<int, Packet>    // the values of the packets in the map
    ghost var emitted: seq<Packet>           // the packets the sent messages encode
    ghost var live: set<DataPacket>          // allocated and not yet deleted
    ghost var log: seq<Read>                 // every record read so far
    ghost var objects: set<object>           // all packet objects this emitter has created

    ghost predicate DevicesValid()
      reads vatas
    {
      && 1 <= n <= MAX_VATA && |vatas| == n && dataBuffer.Length == N_ASIC_PACKET
      && this in devices && dataBuffer in devices && (forall i | 0 <= i < n :: vatas[i] in devices)
      && (forall i, j | 0 <= i < j < n :: vatas[i] != vatas[j])
      && (forall i | 0 <= i < n :: vatas[i].Valid())
    }

    /** Every packet ever allocated is in the map or deleted, and the messages encode what was emitted. */
    ghost predicate BooksValid()
      reads this
    {
      live == packets.Values && sent == EncodeAll(Contents(emitted))
    }

    ghost predicate Shape()
      reads this, vatas, devices, Objects(packets)
    {
      && DevicesValid() && BooksValid()
      && Separate(packets, devices) && AllHold(packets, residents, n)
    }

    ghost function Abs(): State
      reads this
    {
      State(residents, emitted)
    }

    /** The heap represents the aligner run on everything read from the FIFOs. */
    ghost predicate Valid()
      reads this, vatas, devices, Objects(packets)
    {
      Shape() && Objects(packets) <= objects && ValidLog(n, log) && Abs() == Run(n, log)
    }

    constructor (vatas: seq<VataCtrl>)
      requires 1 <= |vatas| <= MAX_VATA
      requires forall i, j | 0 <= i < j < |vatas| :: vatas[i] != vatas[j]
      requires forall i | 0 <= i < |vatas| :: vatas[i].Valid()
      ensures Valid() && this.vatas == vatas && !running && log == [] && sent == []
      ensures fresh(this) && fresh(dataBuffer) && objects == {}
      ensures devices == {this, dataBuffer} + set v | v in vatas
    {
      n, this.vatas := |vatas|, vatas;
      dataBuffer := new u32[N_ASIC_PACKET];
      packets, running, sent := map[], false, [];
      residents, emitted, live, log, objects := map[], [], {}, [], {};
      devices := {this, dataBuffer} + set v | v in vatas;
    }

    method SendData(p: DataPacket)
      requires p.Valid() && this !in p.Repr() && sent == EncodeAll(Contents(emitted))
      modifies this`sent, this`emitted, p`flags, p`value
      ensures p.Valid() && p.value == WithFlags(old(p.value))
      ensures emitted == old(emitted) + [p.value] && sent == EncodeAll(Contents(emitted))
    {
      p.SetAsicFlags();
      var response := Serialize(p);
      label written:
      EncodeAllSnoc(emitted, p.value);
      sent := sent + [response];
      emitted := emitted + [p.value];
      p.StillValid@written();
    }

    /** Writing to the packet of key k, or to none, leaves the others as they were. */
    twostate lemma OthersHold(k: int)
      requires packets == old(packets) && residents == old(residents)
      requires old(AllHold(packets - {k}, residents - {k}, n)) && unchanged(Objects(packets - {k}))
      ensures AllHold(packets - {k}, residents - {k}, n)
    {
    }

    twostate lemma AllStillHold()
      requires packets == old(packets) && residents == old(residents)
      requires old(AllHold(packets, residents, n)) && unchanged(Objects(packets))
      ensures AllHold(packets, residents, n)
    {
    }

    /** Installs a changed packet map, with the objects now allocated. */
    method Commit(ps: map<int, DataPacket>, ghost rs: map<int, Packet>, ghost alive: set<DataPacket>)
      requires DevicesValid() && Separate(ps, devices) && AllHold(ps, rs, n) && alive == ps.Values
      requires sent == EncodeAll(Contents(emitted))
      modifies this`packets, this`residents, this`live
      ensures Shape() && packets == ps && residents == rs
    {
      packets := ps;
      residents := rs;
      live := alive;
      assert AllHold(ps, rs, n);
    }

    /** The packet of key k shares no object with this emitter, its devices or the other packets. */
    lemma RestApart(k: int, p: DataPacket)
      requires Shape() && k in packets && packets[k] == p
      ensures p.Valid() && p.n == n && p.value == residents[k] && this !in p.Repr()
      ensures AllHold(packets - {k}, residents - {k}, n)
      ensures this !in Objects(packets - {k}) && Objects(packets - {k}) !! p.Repr()
      ensures p in p.Repr() && p !in Objects(packets - {k})
      ensures p.Repr() !! devices && forall i | 0 <= i < n :: vatas[i] != p as object && vatas[i] != this as object
    {
      SeparateWithout(packets, devices, k);
      HoldWithout(packets, residents, n, k);
      assert this in devices && p in p.Repr();
    }

    lemma DevicesApart(k: int)
      requires Shape() && k in packets
      ensures forall l | 0 <= l < n :: vatas[l] !in packets[k].Repr()
    {
      RestApart(k, packets[k]);
      assert forall l | 0 <= l < n :: vatas[l] in devices;
    }

    twostate lemma DevicesStillValid()
      requires old(DevicesValid()) && forall i | 0 <= i < n :: unchanged(vatas[i])
      ensures DevicesValid()
    {
    }

    /** Sends the packet of key k and leaves the others as they were. */
    method SendOne(k: int, p: DataPacket)
      requires Shape() && k in packets && packets[k] == p
      modifies this`sent, this`emitted, p`flags, p`value
      ensures DevicesValid() && AllHold(packets - {k}, residents - {k}, n)
      ensures emitted == old(emitted) + [WithFlags(residents[k])] && sent == EncodeAll(Contents(emitted))
    {
      RestApart(k, p);
      SendData(p);
      DevicesStillValid();
      OthersHold(k);
    }

    /** Sends and deletes the packet of key k. */
    method SendAndErase(k: int, p: DataPacket)
      requires Shape() && k in packets && packets[k] == p
      modifies this`sent, this`emitted, this`packets, this`residents, this`live, p`flags, p`value
      ensures Shape() && packets == old(packets) - {k}
      ensures Abs() == State(old(residents) - {k}, old(emitted) + [WithFlags(old(residents)[k])])
    {
      SeparateWithout(packets, devices, k);
      SendOne(k, p);
      Commit(packets - {k}, residents - {k}, live - {p});
    }

    /** One turn of the sweep's loop. */
    method Visit(k: int, now: u64)
      requires Shape() && k in packets
      modifies this`sent, this`emitted, this`packets, this`residents, this`live, packets[k]
      ensures Shape()
      ensures if Stale(now, old(residents)[k].time)
              then packets == old(packets) - {k}
                   && Abs() == State(old(residents) - {k}, old(emitted) + [WithFlags(old(residents)[k])])
              else packets == old(packets) && Abs() == old(Abs())
    {
      var packet := packets[k];
      assert packet.packetTime == packet.value.time == residents[k].time;
      if Stale(now, packet.packetTime) {
        SendAndErase(k, packet);
      }
    }

    /** Visits the keys in ascending order, each once. */
    method SendThenEraseOldPackets(now: u64)
      requires Shape() && Sized(n, Abs())
      modifies this`sent, this`emitted, this`packets, this`residents, this`live, Objects(packets)
      ensures Shape() && Abs() == Sweep(n, old(Abs()), now)
      ensures packets.Keys <= old(packets).Keys && forall k | k in packets :: packets[k] == old(packets)[k]
    {
      ghost var s0 := Abs();
      ghost var stale := StaleKeys(s0.resident, now);
      var rest := packets.Keys;
      SweepStart(s0, stale, rest);
      while rest != {}
        invariant Shape() && rest <= packets.Keys <= old(packets).Keys
        invariant forall k | k in packets :: packets[k] == old(packets)[k]
        invariant Sweeping(s0, stale, rest, Abs())
        decreases rest
      {
        LeastExists(rest);
        var k :| k in rest && forall x | x in rest :: k <= x;
        SweepStep(s0, stale, rest, Abs(), k);
        assert packets[k] in packets[k].Repr();
        Visit(k, now);
        rest := rest - {k};
      }
      SweepEnd(n, s0, now, Abs());
    }

    /** A new packet for an id that is not in the map. */
    method Insert(k: int, now: u64)
      requires Shape() && k !in packets
      modifies this`packets, this`residents, this`live
      ensures Shape() && k in packets && fresh(packets[k].Repr())
      ensures packets == old(packets)[k := packets[k]] && residents == old(residents)[k := NewPacket(n, now)]
    {
      ghost var ps, rs := packets, residents;
      var p := new DataPacket(n, now);
      AllStillHold();
      SeparateWith(ps, devices, k, p);
      assert ps - {k} == ps && rs - {k} == rs;
      HoldWith(ps, rs, n, k, p);
      Commit(packets[k := p], residents[k := p.value], live + {p});
    }

    /** The lookup of an event id, with the sweep and the insertion it may cause. */
    method FindOrInsert(k: int, t: Tick, ghost e: Read)
      requires Shape() && Sized(n, Abs()) && ValidRead(n, e) && Key(e) == k
      requires e.sweepAt == t.sweepAt && e.bornAt == t.bornAt
      modifies this`sent, this`emitted, this`packets, this`residents, this`live, Objects(packets)
      ensures Shape() && k in packets && Abs() == Admit(n, old(Abs()), e)
      ensures forall j | j in packets && j != k :: j in old(packets) && packets[j] == old(packets)[j]
      ensures if k in old(packets) then packets[k] == old(packets)[k] else fresh(packets[k].Repr())
      ensures packets[k].Repr() <= Objects(packets)
      ensures forall l | 0 <= l < n :: unchanged(vatas[l])
      ensures forall o | o in Objects(packets) :: o in old(Objects(packets)) || fresh(o)
    {
      assert forall l | 0 <= l < n :: vatas[l] in devices;
      if k !in packets {
        assert |packets.Keys| == |residents.Keys|;
        if |packets| > MAX_PACKET_MAP_SIZE {
          SendThenEraseOldPackets(t.sweepAt);
        }
        Insert(k, t.bornAt);
      }
      ObjectsOfChanged(old(packets), packets, k);
    }

    /** Writes the buffered record into the packet of key k, if that accepts it. */
    method OfferRecord(i: nat, k: int, packet: DataPacket, ghost e: Read)
      requires Shape() && Sized(n, Abs()) && k in packets && packets[k] == packet
      requires ValidRead(n, e) && Key(e) == k && e.asic == i
      requires e.words == dataBuffer[..] && e.nfifo == Occupancy(vatas[i].frames) % 0x1_0000
      modifies packet.Repr()
      ensures DevicesValid() && AllHold(packets - {k}, residents - {k}, n)
      ensures packet.Valid() && packet.n == n && packet.value == Offer(residents[k], e)
    {
      RestApart(k, packet);
      assert dataBuffer in devices && forall l | 0 <= l < n :: vatas[l] in devices;
      var ok := packet.SetVataData(i, dataBuffer, vatas[i]);
      DevicesStillValid();
      OthersHold(k);
    }

    /** Offers the buffered record to the packet of key k. */
    method Fill(i: nat, k: int, ghost e: Read)
      requires Shape() && Sized(n, Abs()) && k in packets && ValidRead(n, e) && Key(e) == k && e.asic == i
      requires e.words == dataBuffer[..] && e.nfifo == Occupancy(vatas[i].frames) % 0x1_0000
      modifies this`packets, this`residents, this`live, packets[k].Repr()
      ensures Shape() && packets == old(packets) && residents == old(residents)[k := Offer(old(residents)[k], e)]
    {
      var packet := packets[k];
      RestApart(k, packet);
      OfferRecord(i, k, packet, e);
      HoldWith(packets, residents, n, k, packet);
      assert packets[k := packet] == packets;
      Commit(packets, residents[k := packet.value], live);
    }

    /** ... and sends and deletes it when it is complete. */
    method SendIfDone(k: int)
      requires Shape() && k in packets
      modifies this`sent, this`emitted, this`packets, this`residents, this`live, packets[k]
      ensures Shape()
      ensures if IsDone(old(residents)[k])
              then packets == old(packets) - {k}
                   && Abs() == State(old(residents) - {k}, old(emitted) + [WithFlags(old(residents)[k])])
              else packets == old(packets) && Abs() == old(Abs())
    {
      var packet := packets[k];
      var done := packet.Done();
      AllStillHold();
      if done {
        SendAndErase(k, packet);
      }
    }

    method DeliverRecord(i: nat, k: int, ghost e: Read)
      requires Shape() && Sized(n, Abs()) && k in packets && ValidRead(n, e) && Key(e) == k && e.asic == i
      requires e.words == dataBuffer[..] && e.nfifo == Occupancy(vatas[i].frames) % 0x1_0000
      modifies this`sent, this`emitted, this`packets, this`residents, this`live, packets[k].Repr()
      ensures Shape() && Abs() == Deliver(n, old(Abs()), e)
      ensures packets == old(packets) || packets == old(packets) - {k}
      ensures Objects(packets) <= old(Objects(packets))
      ensures forall l | 0 <= l < n :: unchanged(vatas[l])
    {
      DevicesApart(k);
      ghost var m, p := residents, Offer(residents[k], e);
      Fill(i, k, e);
      SendIfDone(k);
      WithoutUpdated(m, k, p);
      ObjectsOfSubmap(old(packets), packets, k);
    }

    /** The record in the buffer goes through the aligner. */
    method Align(i: nat, t: Tick, ghost e: Read)
      requires Shape() && Sized(n, Abs()) && ValidRead(n, e) && e.asic == i
      requires e.sweepAt == t.sweepAt && e.bornAt == t.bornAt
      requires e.words == dataBuffer[..] && e.nfifo == Occupancy(vatas[i].frames) % 0x1_0000
      modifies this`sent, this`emitted, this`packets, this`residents, this`live, Objects(packets)
      ensures Shape() && Abs() == After(n, old(Abs()), e)
      ensures forall o | o in Objects(packets) :: o in old(Objects(packets)) || fresh(o)
      ensures forall l | 0 <= l < n :: vatas[l].frames == old(vatas[l].frames)
    {
      var k := ToLong(dataBuffer[0]);
      assert dataBuffer in devices;
      FindOrInsert(k, t, e);
      DeliverRecord(i, k, e);
    }

    method AlignNext(i: nat, t: Tick)
      requires Valid() && i < n
      modifies this`sent, this`emitted, this`packets, this`residents, this`live, this`log, this`objects
      modifies Objects(packets)
      ensures Valid() && forall o | o in objects :: o in old(objects) || fresh(o)
      ensures forall l | 0 <= l < n :: vatas[l].frames == old(vatas[l].frames)
      ensures log == old(log) +
                [Read(i, old(dataBuffer[..]), Occupancy(vatas[i].frames) % 0x1_0000, t.sweepAt, t.bornAt)]
    {
      ghost var e := Read(i, dataBuffer[..], Occupancy(vatas[i].frames) % 0x1_0000, t.sweepAt, t.bornAt);
      RunSnoc(n, log, e);
      Align(i, t, e);
      Append(e, objects + Objects(packets));
    }

    ghost method Append(e: Read, all: set<object>)
      requires Shape()
      modifies this`log, this`objects
      ensures Shape() && log == old(log) + [e] && objects == all
    {
      log := log + [e];
      objects := all;
      AllStillHold();
    }

    /** Reading a FIFO leaves the packets alone. */
    method ReadRecord(i: nat) returns (code: int)
      requires Shape() && i < n
      modifies vatas[i], dataBuffer
      ensures Shape()
      ensures forall l | 0 <= l < n && l != i :: vatas[l].frames == old(vatas[l].frames)
      ensures vatas[i].frames == AfterFullRead(old(vatas[i].frames))
      ensures code == 0 <==> FullRead(old(vatas[i].frames)).Some?
      ensures code == 0 ==> dataBuffer[..] == FullRead(old(vatas[i].frames)).value
    {
      assert dataBuffer in devices && vatas[i] in devices;
      code := vatas[i].ReadFifoFullPacket(dataBuffer);
      AllStillHold();
      assert dataBuffer[..N_ASIC_PACKET] == dataBuffer[..];
    }

    /** One ASIC's turn: at most one record is read, and it goes through the aligner. */
    method ReadFifo(i: nat, t: Tick)
      requires Valid() && i < n
      modifies devices, objects
      ensures Valid() && running == old(running)
      ensures forall o | o in objects :: o in old(objects) || fresh(o)
      ensures vatas[i].frames == AfterFullRead(old(vatas[i].frames))
      ensures forall l | 0 <= l < n && l != i :: vatas[l].frames == old(vatas[l].frames)
      ensures log == old(log) + ReadOf(i, old(vatas[i].frames), t)
    {
      assert vatas[i] in devices;
      ghost var turn := ReadOf(i, vatas[i].frames, t);
      var code := ReadRecord(i);
      if code != 0 {
        assert turn == [] && log + turn == log;
        return;
      }
      assert turn == [Read(i, dataBuffer[..], Occupancy(vatas[i].frames) % 0x1_0000, t.sweepAt, t.bornAt)];
      AlignNext(i, t);
    }

    ghost predicate QueuesAre(qs: seq<seq<seq<u32>>>)
      reads vatas
    {
      |qs| == |vatas| == n && forall i | 0 <= i < n :: vatas[i].frames == qs[i]
    }

    ghost function Queues(): (qs: seq<seq<seq<u32>>>)
      requires |vatas| == n
      reads vatas
      ensures QueuesAre(qs)
    {
      seq(n, i requires 0 <= i < n && |vatas| == n reads vatas => vatas[i].frames)
    }

    /** A pass over these queues has served the first i ASICs. */
    ghost predicate Served(before: seq<Read>, qs: seq<seq<seq<u32>>>, ts: seq<Tick>, i: nat)
      reads this, vatas
    {
      && i <= |qs| == |ts| == |vatas| == n
      && (forall l | 0 <= l < n :: vatas[l].frames == AfterTurn(qs, i, l))
      && log == before + PassLog(qs, ts, i)
    }

    /** The same, with what each ASIC's turn reads given. */
    ghost predicate ServedReads(before: seq<Read>, qs: seq<seq<seq<u32>>>, turns: seq<seq<Read>>, i: nat)
      reads this, vatas
    {
      && i <= |qs| == |turns| == |vatas| == n
      && (forall l | 0 <= l < n :: vatas[l].frames == AfterTurn(qs, i, l))
      && log == before + Gather(turns, i)
    }

    method Serve(i: nat, ts: seq<Tick>, ghost before: seq<Read>, ghost qs: seq<seq<seq<u32>>>,
                 ghost turns: seq<seq<Read>>)
      requires Valid() && i < n && AreReads(qs, ts, turns) && ServedReads(before, qs, turns, i)
      modifies devices, objects
      ensures Valid() && running == old(running) && ServedReads(before, qs, turns, i + 1)
      ensures forall o | o in objects :: o in old(objects) || fresh(o)
    {
      ReadFifo(i, ts[i]);
      assert ReadOf(i, qs[i], ts[i]) == turns[i];
      Assoc(before, Gather(turns, i), turns[i]);
    }

    /** One turn for each ASIC. */
    method ReadFifos(ts: seq<Tick>, ghost qs: seq<seq<seq<u32>>>)
      requires Valid() && |ts| == n && QueuesAre(qs)
      modifies devices, objects
      ensures Valid() && running == old(running) && Served(old(log), qs, ts, n)
      ensures forall o | o in objects :: o in old(objects) || fresh(o)
    {
      ghost var before := log;
      ghost var turns := ReadsOfPass(qs, ts);
      assert before + [] == before;
      for i := 0 to n
        invariant Valid() && running == old(running) && ServedReads(before, qs, turns, i)
        invariant forall o | o in objects :: o in old(objects) || fresh(o)
      {
        Serve(i, ts, before, qs, turns);
      }
      GatherIsPassLog(qs, ts, turns, n);
    }

    method AnyData(ghost qs: seq<seq<seq<u32>>>) returns (any: bool)
      requires DevicesValid() && QueuesAre(qs)
      ensures any <==> exists i :: 0 <= i < n && qs[i] != []
    {
      var i := 0;
      while i < n
        invariant 0 <= i <= n && forall l | 0 <= l < i :: qs[l] == []
      {
        EmptyIffNoWords(vatas[i].frames);
        var count := vatas[i].GetNFifo();
        if count > 0 {
          return true;
        }
        i := i + 1;
      }
      any := false;
    }

    /** The check for any data changes nothing: with all FIFOs empty a pass reads nothing. */
    method CheckFifos(ts: seq<Tick>, ghost qs: seq<seq<seq<u32>>>)
      requires Valid() && |ts| == n && QueuesAre(qs)
      modifies devices, objects
      ensures Valid() && running == old(running)
      ensures forall o | o in objects :: o in old(objects) || fresh(o)
      ensures Served(old(log), qs, ts, n)
    {
      var any := AnyData(qs);
      AllStillHold();
      if !any {
        PassOfEmpty(qs, ts, n);
        assert log + [] == log;
        return;
      }
      ReadFifos(ts, qs);
    }

    /**
     The body of the main loop for one message, empty if none was received. An iteration that ends with
     running false, or with the thread's exit, reads no FIFO and changes nothing else.
     */
    method Iterate(msg: Message, ts: seq<Tick>, ghost qs: seq<seq<seq<u32>>>) returns (exit: bool)
      requires Valid() && |ts| == n && QueuesAre(qs)
      modifies devices, objects
      ensures Valid() && forall o | o in objects :: o in old(objects) || fresh(o)
      ensures exit == HaltReceived(msg) && running == Obey(old(running), msg)
      ensures exit || !running ==> log == old(log) && Abs() == old(Abs()) && sent == old(sent)
                                   && QueuesAre(qs)
      ensures !exit && running ==> Served(old(log), qs, ts, n)
    {
      exit := HaltReceived(msg);
      if exit {
        return;
      } else if StopReceived(msg) {
        SetRunning(false);
      } else if StartReceived(msg) {
        SetRunning(true);
      }
      if running {
        CheckFifos(ts, qs);
      }
    }

    /** What a subscriber decodes from message j, and which packet it was. */
    lemma SentIs(j: nat)
      requires Valid() && j < |sent|
      ensures |sent| == |Run(n, log).emitted|
      ensures var p := Run(n, log).emitted[j];
              Decode(sent[j]).Some? &&
              var f := Decode(sent[j]).value;
              && f.slots == p.slots && f.time == p.time && |f.slots| == n
              && forall i: nat :: Bit(f.flags, i) <==> i < n && f.slots[i].Missing?
    {
      MessageIs(n, log, j);
    }

    method SetRunning(on: bool)
      requires Valid()
      modifies this`running
      ensures Valid() && running == on
    {
      running := on;
      AllStillHold();
    }
  }

  /** What a pass over these queues reads from the first m ASICs. */
  function PassLog(qs: seq<seq<seq<u32>>>, ts: seq<Tick>, m: nat): seq<Read>
    requires m <= |qs| == |ts|
  {
    if m == 0 then [] else PassLog(qs, ts, m - 1) + ReadOf(m - 1, qs[m - 1], ts[m - 1])
  }

  /** Queue l after the first m ASICs had one turn each. */
  function AfterTurn(qs: seq<seq<seq<u32>>>, m: nat, l: nat): seq<seq<u32>>
    requires l < |qs|
  {
    if l < m then AfterFullRead(qs[l]) else qs[l]
  }

  /** turns[i] is what the turn of ASIC i reads. */
  ghost predicate AreReads(qs: seq<seq<seq<u32>>>, ts: seq<Tick>, turns: seq<seq<Read>>) {
    && |turns| == |qs| == |ts|
    && forall i {:trigger ReadOf(i, qs[i], ts[i])} | 0 <= i < |qs| :: turns[i] == ReadOf(i, qs[i], ts[i])
  }

  lemma ReadsOfPass(qs: seq<seq<seq<u32>>>, ts: seq<Tick>) returns (turns: seq<seq<Read>>)
    requires |qs| == |ts|
    ensures AreReads(qs, ts, turns)
  {
    turns := seq(|qs|, i requires 0 <= i < |qs| => ReadOf(i, qs[i], ts[i]));
  }

  function Gather(turns: seq<seq<Read>>, m: nat): seq<Read>
    requires m <= |turns|
  {
    if m == 0 then [] else Gather(turns, m - 1) + turns[m - 1]
  }

  lemma {:induction false} GatherIsPassLog(qs: seq<seq<seq<u32>>>, ts: seq<Tick>, turns: seq<seq<Read>>, m: nat)
    requires AreReads(qs, ts, turns) && m <= |qs|
    ensures Gather(turns, m) == PassLog(qs, ts, m)
  {
    if m == 0 {
    } else {
      GatherIsPassLog(qs, ts, turns, m - 1);
      assert turns[m - 1] == ReadOf(m - 1, qs[m - 1], ts[m - 1]);
    }
  }

  lemma PassLogStep(before: seq<Read>, qs: seq<seq<seq<u32>>>, ts: seq<Tick>, i: nat)
    requires i < |qs| == |ts|
    ensures before + PassLog(qs, ts, i) + ReadOf(i, qs[i], ts[i]) == before + PassLog(qs, ts, i + 1)
  {
  }

  lemma {:induction false} PassOfEmpty(qs: seq<seq<seq<u32>>>, ts: seq<Tick>, m: nat)
    requires m <= |qs| == |ts| && forall i | 0 <= i < m :: qs[i] == []
    ensures PassLog(qs, ts, m) == []
  {
    if m == 0 {
    } else {
      PassOfEmpty(qs, ts, m - 1);
    }
  }

  /** The bytes of a packet's message, in a buffer of exactly its size. */
  method Serialize(p: DataPacket) returns (response: seq<u8>)
    requires p.Valid()
    ensures p.Valid() && response == Encode(Content(p.value))
  {
    var size := p.GetPacketSize();
    var buf := new u8[size];
    p.StillValid();
    p.ToMsg(size, buf);
    p.StillValid();
    response := buf[..];
    assert buf[..size] == buf[..];
  }

  // ---------- the sweep, on values ----------

  /** A sweep of s0 has reached s, with the keys in rest still to visit. */
  ghost predicate Sweeping(s0: State, stale: set<int>, rest: set<int>, s: State) {
    && stale <= s0.resident.Keys && (forall k | k in s0.resident :: |s0.resident[k].slots| <= 16)
    && s.resident == s0.resident - (stale - rest)
    && s.emitted + Sent(s0.resident, stale * rest) == s0.emitted + Sent(s0.resident, stale)
  }

  lemma SweepStart(s0: State, stale: set<int>, rest: set<int>)
    requires stale <= s0.resident.Keys && rest == s0.resident.Keys
    requires forall k | k in s0.resident :: |s0.resident[k].slots| <= 16
    ensures Sweeping(s0, stale, rest, s0)
  {
    assert stale * rest == stale && stale - rest == {};
    assert s0.resident - {} == s0.resident;
  }

  lemma SweepEnd(n: nat, s0: State, now: u64, s: State)
    requires Sized(n, s0) && Sweeping(s0, StaleKeys(s0.resident, now), {}, s)
    ensures s == Sweep(n, s0, now)
  {
    var stale := StaleKeys(s0.resident, now);
    assert stale * {} == {} && stale - {} == stale;
    assert s.emitted + [] == s.emitted;
  }

  lemma SweepStep(s0: State, stale: set<int>, rest: set<int>, s: State, k: int)
    requires Sweeping(s0, stale, rest, s) && rest <= s0.resident.Keys
    requires k in rest && forall x | x in rest :: k <= x
    ensures k in s.resident && s.resident[k] == s0.resident[k]
    ensures Sweeping(s0, stale, rest - {k},
                     if k in stale then State(s.resident - {k}, s.emitted + [WithFlags(s.resident[k])]) else s)
  {
    var m := s0.resident;
    VisitKey(stale, rest, k);
    if k in stale {
      SentLeast(m, stale * rest, k);
      Assoc(s.emitted, [WithFlags(m[k])], Sent(m, stale * rest - {k}));
      RemoveOneMore(m, stale - rest, k);
    }
  }

  lemma VisitKey(stale: set<int>, rest: set<int>, k: int)
    requires k in rest
    ensures stale * (rest - {k}) == stale * rest - {k}
    ensures k in stale ==> stale - (rest - {k}) == (stale - rest) + {k}
    ensures k !in stale ==> stale - (rest - {k}) == stale - rest && stale * rest - {k} == stale * rest
  {
  }

  lemma RemoveOneMore(m: map<int, Packet>, keys: set<int>, k: int)
    ensures m - (keys + {k}) == m - keys - {k}
  {
  }

  lemma SentLeast(m: map<int, Packet>, keys: set<int>, k: int)
    requires keys <= m.Keys && k in keys && forall x | x in keys :: k <= x
    requires forall k | k in keys :: |m[k].slots| <= 16
    ensures Sent(m, keys) == [WithFlags(m[k])] + Sent(m, keys - {k})
  {
    assert k == Least(keys);
  }
}
