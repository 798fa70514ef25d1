/** FIFOs filling and draining around the aligner: any interleaving of arrivals and turns. */
module Rounds {
  import opened Machine
  import opened Wire
  import opened VataFifo
  import opened Aligner
  import opened Join
  import opened DataEmitters

  datatype Event =
    | Arrive(asic: nat, frame: seq<u32>)   // hardware queues a frame
    | Turn(asic: nat, tick: Tick)          // the emitter serves one FIFO

  datatype System = System(queues: seq<seq<seq<u32>>>, log: seq<Read>)

  function Step(s: System, e: Event): System {
    if e.asic >= |s.queues| then s
    else match e
      case Arrive(i, frame) => s.(queues := s.queues[i := s.queues[i] + [frame]])
      case Turn(i, t) => System(s.queues[i := AfterFullRead(s.queues[i])], s.log + ReadOf(i, s.queues[i], t))
  }

  function Exec(n: nat, es: seq<Event>): (s: System)
    ensures |s.queues| == n && ValidLog(n, s.log)
  {
    if es == [] then System(seq(n, i => []), [])
    else Step(Exec(n, es[..|es| - 1]), es[|es| - 1])
  }

  /** The frames that ever arrived at one FIFO. */
  function Arrived(es: seq<Event>, i: nat): seq<seq<u32>> {
    if es == [] then []
    else
      var e := es[|es| - 1];
      Arrived(es[..|es| - 1], i) + if e.Arrive? && e.asic == i then [e.frame] else []
  }

  // ---------- framing ----------

  lemma TakenTurn(log: seq<Read>, i: nat, frames: seq<seq<u32>>, t: Tick, l: nat)
    ensures Taken(log + ReadOf(i, frames, t), l) ==
              Taken(log, l) + if l == i && FullRead(frames).Some? then [FullRead(frames).value] else []
  {
    if FullRead(frames).Some? {
      TakenSnoc(log, ReadOf(i, frames, t)[0], l);
    } else {
      assert log + [] == log;
    }
  }

  lemma {:induction false} FlattenAppend(a: seq<seq<u32>>, b: seq<seq<u32>>)
    ensures Flatten(a + b) == Flatten(a) + Flatten(b)
  {
    if a == [] {
      assert a + b == b;
    } else {
      FlattenAppend(a[1..], b);
      assert (a + b)[1..] == a[1..] + b;
      Assoc(a[0], Flatten(a[1..]), Flatten(b));
    }
  }

  lemma FrameArrives(all: seq<seq<u32>>, words: seq<seq<u32>>, queue: seq<seq<u32>>, frame: seq<u32>)
    requires Flatten(all) == Flatten(words) + Flatten(queue)
    ensures Flatten(all + [frame]) == Flatten(words) + Flatten(queue + [frame])
  {
    FlattenAppend(all, [frame]);
    FlattenAppend(queue, [frame]);
    Assoc(Flatten(words), Flatten(queue), Flatten([frame]));
  }

  /** Whatever the frame lengths, no word is lost, duplicated or reordered in any FIFO. */
  lemma {:induction false} StreamKept(n: nat, es: seq<Event>, i: nat)
    requires i < n
    ensures Flatten(Arrived(es, i)) == Flatten(Taken(Exec(n, es).log, i)) + Flatten(Exec(n, es).queues[i])
  {
    if es == [] {
    } else {
      var before, e := es[..|es| - 1], es[|es| - 1];
      var s := Exec(n, before);
      var words := Taken(s.log, i);
      StreamKept(n, before, i);
      match e {
        case Arrive(l, frame) =>
          if l == i {
            FrameArrives(Arrived(before, i), words, s.queues[i], frame);
          } else {
            assert Arrived(before, i) + [] == Arrived(before, i);
          }
        case Turn(l, t) =>
          assert Arrived(before, i) + [] == Arrived(before, i);
          if l < n {
            TurnKeepsStream(s, l, t, i);
          }
      }
    }
  }

  lemma TurnKeepsStream(s: System, l: nat, t: Tick, i: nat)
    requires l < |s.queues| && i < |s.queues|
    ensures Flatten(Taken(s.log, i)) + Flatten(s.queues[i]) ==
              var r := Step(s, Turn(l, t)); Flatten(Taken(r.log, i)) + Flatten(r.queues[i])
  {
    var words, q := Taken(s.log, i), s.queues[i];
    TakenTurn(s.log, l, s.queues[l], t, i);
    if l == i && FullRead(q).Some? {
      FullReadKeepsStream(q);
      FlattenAppend(words, [FullRead(q).value]);
      assert Flatten([FullRead(q).value]) == FullRead(q).value;
      Assoc(Flatten(words), FullRead(q).value, Flatten(AfterFullRead(q)));
    } else {
      assert words + [] == words;
    }
  }

  /**
   The FIFO count stored with a record: the words that had arrived at that FIFO and were not read, that record
   included among those read, modulo 2^16.
   */
  lemma CountIsBacklog(n: nat, es: seq<Event>, i: nat, t: Tick)
    requires i < n && FullRead(Exec(n, es).queues[i]).Some?
    ensures var log := Exec(n, es + [Turn(i, t)]).log;
            && |log| == |Exec(n, es).log| + 1 && log[|log| - 1].asic == i
            && log[|log| - 1].nfifo ==
               (|Flatten(Arrived(es, i))| - |Flatten(Taken(log, i))|) % 0x1_0000
  {
    var es' := es + [Turn(i, t)];
    assert es'[..|es|] == es;
    assert Arrived(es, i) + [] == Arrived(es, i);
    assert Exec(n, es').queues[i] == AfterFullRead(Exec(n, es).queues[i]);
    BacklogIs(n, es', i);
  }

  lemma BacklogIs(n: nat, es: seq<Event>, i: nat)
    requires i < n
    ensures |Flatten(Exec(n, es).queues[i])| == |Flatten(Arrived(es, i))| - |Flatten(Taken(Exec(n, es).log, i))|
  {
    StreamKept(n, es, i);
  }

  /** All frames of one FIFO are records of 19 words. */
  predicate WholeRecords(frames: seq<seq<u32>>) {
    forall j | 0 <= j < |frames| :: |frames[j]| == N_ASIC_PACKET
  }

  /** Then the reads stay aligned with the records: each one takes exactly the front record. */
  lemma {:induction false} RecordsKept(n: nat, es: seq<Event>, i: nat)
    requires i < n && WholeRecords(Arrived(es, i))
    ensures Arrived(es, i) == Taken(Exec(n, es).log, i) + Exec(n, es).queues[i]
  {
    if es == [] {
    } else {
      var before, e := es[..|es| - 1], es[|es| - 1];
      var s := Exec(n, before);
      assert forall j | 0 <= j < |Arrived(before, i)| :: Arrived(before, i)[j] == Arrived(es, i)[j];
      RecordsKept(n, before, i);
      if e.Turn? && e.asic < n {
        assert WholeRecords(s.queues[i]) by {
          WholeSuffix(Taken(s.log, i), s.queues[i]);
        }
        TurnKeepsRecords(s, e.asic, e.tick, i);
      }
    }
  }

  lemma WholeSuffix(a: seq<seq<u32>>, b: seq<seq<u32>>)
    requires WholeRecords(a + b)
    ensures WholeRecords(b)
  {
    assert forall j | 0 <= j < |b| :: b[j] == (a + b)[|a| + j];
  }

  lemma TurnKeepsRecords(s: System, l: nat, t: Tick, i: nat)
    requires l < |s.queues| && i < |s.queues| && WholeRecords(s.queues[i])
    ensures Taken(s.log, i) + s.queues[i] ==
              var r := Step(s, Turn(l, t)); Taken(r.log, i) + r.queues[i]
  {
    var words, q := Taken(s.log, i), s.queues[i];
    TakenTurn(s.log, l, s.queues[l], t, i);
    if l == i && q != [] {
      assert q[0][..N_ASIC_PACKET] == q[0] && q == [q[0]] + q[1..];
      Assoc(words, [q[0]], q[1..]);
    } else {
      assert words + [] == words;
    }
  }

  // ---------- passes ----------

  /** One pass of read_fifos over the first m ASICs, as events. */
  function PassOf(ts: seq<Tick>, m: nat): (es: seq<Event>)
    requires m <= |ts|
    ensures |es| == m
  {
    seq(m, i requires 0 <= i < m => Turn(i, ts[i]))
  }

  function AfterTurns(qs: seq<seq<seq<u32>>>, m: nat): (rs: seq<seq<seq<u32>>>)
    ensures |rs| == |qs|
  {
    seq(|qs|, l requires 0 <= l < |qs| => AfterTurn(qs, m, l))
  }

  /** The system after the first m ASICs had one turn each. */
  function AfterPass(s: System, ts: seq<Tick>, m: nat): System
    requires m <= |s.queues| == |ts|
  {
    System(AfterTurns(s.queues, m), s.log + PassLog(s.queues, ts, m))
  }

  lemma AfterPassStep(s: System, ts: seq<Tick>, m: nat)
    requires m < |s.queues| == |ts|
    ensures Step(AfterPass(s, ts, m), Turn(m, ts[m])) == AfterPass(s, ts, m + 1)
  {
    PassLogStep(s.log, s.queues, ts, m);
    assert AfterTurns(s.queues, m)[m := AfterFullRead(s.queues[m])] == AfterTurns(s.queues, m + 1);
  }

  lemma AfterNoTurn(s: System, ts: seq<Tick>)
    requires |s.queues| == |ts|
    ensures AfterPass(s, ts, 0) == s
  {
    assert s.log + [] == s.log && AfterTurns(s.queues, 0) == s.queues;
  }

  lemma ExecSnoc(n: nat, es: seq<Event>, e: Event)
    ensures Exec(n, es + [e]) == Step(Exec(n, es), e)
  {
    assert (es + [e])[..|es|] == es;
  }

  lemma PassOfSnoc(es: seq<Event>, ts: seq<Tick>, m: nat)
    requires m < |ts|
    ensures es + PassOf(ts, m + 1) == es + PassOf(ts, m) + [Turn(m, ts[m])]
  {
  }

  lemma OneMoreTurn(n: nat, s: System, es: seq<Event>, ts: seq<Tick>, m: nat)
    requires m < n == |ts| == |s.queues| && Exec(n, es) == AfterPass(s, ts, m)
    ensures Exec(n, es + [Turn(m, ts[m])]) == AfterPass(s, ts, m + 1)
  {
    ExecSnoc(n, es, Turn(m, ts[m]));
    AfterPassStep(s, ts, m);
  }

  /** What DataEmitter.ReadFifos promises is what these turns do. */
  lemma {:induction false} PassIsTurns(n: nat, es: seq<Event>, ts: seq<Tick>, m: nat)
    requires m <= n == |ts|
    ensures Exec(n, es + PassOf(ts, m)) == AfterPass(Exec(n, es), ts, m)
  {
    if m == 0 {
      assert es + PassOf(ts, 0) == es;
      AfterNoTurn(Exec(n, es), ts);
    } else {
      PassIsTurns(n, es, ts, m - 1);
      OneMoreTurn(n, Exec(n, es), es + PassOf(ts, m - 1), ts, m - 1);
      PassOfSnoc(es, ts, m - 1);
    }
  }

  // ---------- draining ----------

  /** One FIFO after m turns without arrivals. */
  function Turns(q: seq<seq<u32>>, m: nat): seq<seq<u32>>
    decreases m
  {
    if m == 0 then q else Turns(AfterFullRead(q), m - 1)
  }

  predicate Multiples(q: seq<seq<u32>>) {
    forall j | 0 <= j < |q| :: |q[j]| % N_ASIC_PACKET == 0
  }

  lemma MultiplesCons(f: seq<u32>, rest: seq<seq<u32>>)
    ensures Multiples([f] + rest) <==> |f| % N_ASIC_PACKET == 0 && Multiples(rest)
  {
    var q := [f] + rest;
    assert q[0] == f && forall j | 0 <= j < |rest| :: rest[j] == q[j + 1];
  }

  lemma DropFacts(q: seq<seq<u32>>)
    requires NoEmptyFrame(q) && q != [] && |q[0]| >= N_ASIC_PACKET
    ensures var r := AfterFullRead(q);
            NoEmptyFrame(r) && Occupancy(r) == Occupancy(q) - N_ASIC_PACKET && (Multiples(r) <==> Multiples(q))
  {
    var f, rest := q[0], q[1..];
    assert q == [f] + rest;
    MultiplesCons(f, rest);
    if |f| > N_ASIC_PACKET {
      var g := f[N_ASIC_PACKET..];
      MultiplesCons(g, rest);
      ModUnique(|f|, N_ASIC_PACKET, |g| / N_ASIC_PACKET + 1, |g| % N_ASIC_PACKET);
      assert ([g] + rest)[1..] == rest;
    }
  }

  /** Frames made of whole records, of which there are at most m. */
  predicate Drainable(q: seq<seq<u32>>, m: nat) {
    Multiples(q) && Occupancy(q) <= m * N_ASIC_PACKET
  }

  /**
   m turns empty a FIFO exactly when its frames are made of whole records, of which there are at most m.
   One frame of any other length blocks it for good.
   */
  lemma {:induction false} DrainedIff(q: seq<seq<u32>>, m: nat)
    requires NoEmptyFrame(q)
    ensures Turns(q, m) == [] <==> Drainable(q, m)
    decreases m
  {
    EmptyIffNoWords(q);
    if q == [] {
      if m > 0 {
        DrainedIff(q, m - 1);
      }
    } else if m == 0 {
    } else {
      if |q[0]| >= N_ASIC_PACKET {
        DropFacts(q);
      } else {
        assert |q[0]| > 0 && |q[0]| % N_ASIC_PACKET == |q[0]|;
      }
      DrainedIff(AfterFullRead(q), m - 1);
    }
  }

  /** For FIFOs of whole records: as many check_fifos passes as the longest FIFO has records. */
  lemma WholeRecordsDrain(q: seq<seq<u32>>, m: nat)
    requires WholeRecords(q)
    ensures Turns(q, m) == [] <==> |q| <= m
  {
    WholeOccupancy(q);
    DrainedIff(q, m);
  }

  lemma {:induction false} WholeOccupancy(q: seq<seq<u32>>)
    requires WholeRecords(q)
    ensures NoEmptyFrame(q) && Multiples(q) && Occupancy(q) == |q| * N_ASIC_PACKET
  {
    if q == [] {
    } else {
      WholeOccupancy(q[1..]);
    }
  }

  lemma {:induction false} TurnsSnoc(q: seq<seq<u32>>, m: nat)
    ensures Turns(q, m + 1) == AfterFullRead(Turns(q, m))
    decreases m
  {
    if m == 0 {
      assert Turns(q, 1) == Turns(AfterFullRead(q), 0);
    } else {
      TurnsSnoc(AfterFullRead(q), m - 1);
    }
  }

  // ---------- whole passes ----------

  predicate PassTicks(n: nat, tss: seq<seq<Tick>>) {
    forall j | 0 <= j < |tss| :: |tss[j]| == n
  }

  /** One pass of check_fifos after the other, nothing arriving. */
  function Passes(n: nat, tss: seq<seq<Tick>>): seq<Event>
    requires PassTicks(n, tss)
  {
    if tss == [] then [] else Passes(n, tss[..|tss| - 1]) + PassOf(tss[|tss| - 1], n)
  }

  predicate AllEmpty(qs: seq<seq<seq<u32>>>) {
    forall i | 0 <= i < |qs| :: qs[i] == []
  }

  /** rs are the queues qs after m turns each. */
  predicate Turned(qs: seq<seq<seq<u32>>>, rs: seq<seq<seq<u32>>>, m: nat) {
    |rs| == |qs| && forall i | 0 <= i < |qs| :: rs[i] == Turns(qs[i], m)
  }

  /** Passes serve every FIFO once each. */
  lemma {:induction false} PassesAreTurns(n: nat, es: seq<Event>, tss: seq<seq<Tick>>)
    requires PassTicks(n, tss)
    ensures Turned(Exec(n, es).queues, Exec(n, es + Passes(n, tss)).queues, |tss|)
  {
    if tss == [] {
      assert es + Passes(n, tss) == es;
    } else {
      var before, ts := tss[..|tss| - 1], tss[|tss| - 1];
      PassesAreTurns(n, es, before);
      PassIsTurns(n, es + Passes(n, before), ts, n);
      Assoc(es, Passes(n, before), PassOf(ts, n));
      forall i | 0 <= i < n
        ensures Exec(n, es + Passes(n, tss)).queues[i] == Turns(Exec(n, es).queues[i], |tss|)
      {
        TurnsSnoc(Exec(n, es).queues[i], |before|);
      }
    }
  }

  predicate AllDrainable(qs: seq<seq<seq<u32>>>, m: nat) {
    forall i | 0 <= i < |qs| :: Drainable(qs[i], m)
  }

  /** No FIFO holds more than m frames. */
  predicate NoneLonger(qs: seq<seq<seq<u32>>>, m: nat) {
    forall i | 0 <= i < |qs| :: |qs[i]| <= m
  }

  predicate NoEmptyFrames(qs: seq<seq<seq<u32>>>) {
    forall i | 0 <= i < |qs| :: NoEmptyFrame(qs[i])
  }

  predicate AllWhole(qs: seq<seq<seq<u32>>>) {
    forall i | 0 <= i < |qs| :: WholeRecords(qs[i])
  }

  lemma TurnedDrainIff(qs: seq<seq<seq<u32>>>, rs: seq<seq<seq<u32>>>, m: nat)
    requires Turned(qs, rs, m) && NoEmptyFrames(qs)
    ensures AllEmpty(rs) <==> AllDrainable(qs, m)
  {
    forall i | 0 <= i < |qs|
      ensures rs[i] == [] <==> Drainable(qs[i], m)
    {
      DrainedIff(qs[i], m);
    }
  }

  lemma WholeTurnedDrainIff(qs: seq<seq<seq<u32>>>, rs: seq<seq<seq<u32>>>, m: nat)
    requires Turned(qs, rs, m) && AllWhole(qs)
    ensures AllEmpty(rs) <==> NoneLonger(qs, m)
  {
    forall i | 0 <= i < |qs|
      ensures rs[i] == [] <==> |qs[i]| <= m
    {
      WholeRecordsDrain(qs[i], m);
    }
  }

  /** Passes empty all FIFOs exactly when each holds whole records only, and at most one for every pass. */
  lemma PassesDrainIff(n: nat, es: seq<Event>, tss: seq<seq<Tick>>)
    requires PassTicks(n, tss) && NoEmptyFrames(Exec(n, es).queues)
    ensures AllEmpty(Exec(n, es + Passes(n, tss)).queues) <==> AllDrainable(Exec(n, es).queues, |tss|)
  {
    PassesAreTurns(n, es, tss);
    TurnedDrainIff(Exec(n, es).queues, Exec(n, es + Passes(n, tss)).queues, |tss|);
  }

  /** When whole records arrived, as many passes are needed as the longest FIFO has records, and suffice. */
  lemma LongestFifoDrains(n: nat, es: seq<Event>, tss: seq<seq<Tick>>)
    requires PassTicks(n, tss) && forall i: nat | i < n :: WholeRecords(Arrived(es, i))
    ensures AllEmpty(Exec(n, es + Passes(n, tss)).queues) <==> NoneLonger(Exec(n, es).queues, |tss|)
  {
    PassesAreTurns(n, es, tss);
    forall i: nat | i < n
      ensures WholeRecords(Exec(n, es).queues[i])
    {
      RecordsKept(n, es, i);
      WholeSuffix(Taken(Exec(n, es).log, i), Exec(n, es).queues[i]);
    }
    WholeTurnedDrainIff(Exec(n, es).queues, Exec(n, es + Passes(n, tss)).queues, |tss|);
  }

  lemma ArrivedSnoc(es: seq<Event>, e: Event, i: nat)
    ensures Arrived(es + [e], i) == if e.Arrive? && e.asic == i then Arrived(es, i) + [e.frame] else Arrived(es, i)
  {
    assert (es + [e])[..|es|] == es;
    assert Arrived(es, i) + [] == Arrived(es, i);
  }

  lemma {:induction false} NothingArrives(es: seq<Event>, ts: seq<Tick>, m: nat, i: nat)
    requires m <= |ts|
    ensures Arrived(es + PassOf(ts, m), i) == Arrived(es, i)
  {
    if m == 0 {
      assert es + PassOf(ts, 0) == es;
    } else {
      NothingArrives(es, ts, m - 1, i);
      PassOfSnoc(es, ts, m - 1);
      ArrivedSnoc(es + PassOf(ts, m - 1), Turn(m - 1, ts[m - 1]), i);
    }
  }

  lemma {:induction false} NothingArrivesInPasses(n: nat, es: seq<Event>, tss: seq<seq<Tick>>, i: nat)
    requires PassTicks(n, tss)
    ensures Arrived(es + Passes(n, tss), i) == Arrived(es, i)
  {
    if tss == [] {
      assert es + Passes(n, tss) == es;
    } else {
      var before, ts := tss[..|tss| - 1], tss[|tss| - 1];
      NothingArrivesInPasses(n, es, before, i);
      NothingArrives(es + Passes(n, before), ts, n, i);
      Assoc(es, Passes(n, before), PassOf(ts, n));
    }
  }

  // ---------- end to end ----------

  /** The sources are whole records with no event id twice in one FIFO. */
  ghost predicate GoodSources(n: nat, es: seq<Event>) {
    forall i: nat | i < n :: WholeRecords(Arrived(es, i)) && DistinctIds(Arrived(es, i))
  }

  lemma SourcesDistinct(n: nat, es: seq<Event>)
    requires GoodSources(n, es)
    ensures Distinct(n, Exec(n, es).log)
  {
    forall i: nat | i < n
      ensures DistinctIds(Taken(Exec(n, es).log, i))
    {
      RecordsKept(n, es, i);
      var taken := Taken(Exec(n, es).log, i);
      assert DistinctIds(Arrived(es, i));
      assert forall a, k: int :: IdAt(taken, a, k) ==> IdAt(Arrived(es, i), a, k);
    }
  }

  lemma TakenIsArrived(n: nat, es: seq<Event>, i: nat)
    requires i < n && WholeRecords(Arrived(es, i)) && Exec(n, es).queues[i] == []
    ensures Taken(Exec(n, es).log, i) == Arrived(es, i)
  {
    RecordsKept(n, es, i);
  }

  predicate DeliveredByAll(n: nat, es: seq<Event>, k: int) {
    forall i: nat | i < n :: Seen(Arrived(es, i), k)
  }

  predicate DeliveredBySome(n: nat, es: seq<Event>, k: int) {
    exists i: nat :: i < n && Seen(Arrived(es, i), k)
  }

  lemma DeliveredIsSeen(n: nat, es: seq<Event>, k: int)
    requires GoodSources(n, es) && AllEmpty(Exec(n, es).queues)
    ensures InAll(n, Exec(n, es).log, k) <==> DeliveredByAll(n, es, k)
    ensures InSome(n, Exec(n, es).log, k) <==> DeliveredBySome(n, es, k)
  {
    forall i: nat | i < n
      ensures Taken(Exec(n, es).log, i) == Arrived(es, i)
    {
      TakenIsArrived(n, es, i);
    }
  }

  /**
   Once the FIFOs are drained, with good sources and no eviction, an event was sent exactly when every
   ASIC delivered it, and is still waiting exactly when some but not all did.
   */
  lemma DrainedJoin(n: nat, es: seq<Event>, k: int)
    requires 1 <= n <= MAX_VATA && GoodSources(n, es)
    requires AllEmpty(Exec(n, es).queues)
    requires NoEviction(n, Exec(n, es).log)
    ensures var s := Run(n, Exec(n, es).log);
            && (IsSent(s.emitted, k) <==> DeliveredByAll(n, es, k))
            && (k in s.resident <==> DeliveredBySome(n, es, k) && !DeliveredByAll(n, es, k))
  {
    var log := Exec(n, es).log;
    SourcesDistinct(n, es);
    RunIsJoin(n, log);
    DeliveredIsSeen(n, es, k);
    if IsSent(Run(n, log).emitted, k) {
      var j :| 0 <= j < |Run(n, log).emitted| && Run(n, log).emitted[j].eventId == k;
    }
  }

  /**
   From arrivals to messages: after passes for the longest FIFO, with good sources and no eviction, an event
   was sent exactly when every ASIC delivered it, and waits exactly when some but not all did.
   */
  lemma PassesJoin(n: nat, es: seq<Event>, tss: seq<seq<Tick>>, k: int)
    requires 1 <= n <= MAX_VATA && PassTicks(n, tss) && GoodSources(n, es)
    requires NoneLonger(Exec(n, es).queues, |tss|)
    requires NoEviction(n, Exec(n, es + Passes(n, tss)).log)
    ensures var s := Run(n, Exec(n, es + Passes(n, tss)).log);
            && (IsSent(s.emitted, k) <==> DeliveredByAll(n, es, k))
            && (k in s.resident <==> DeliveredBySome(n, es, k) && !DeliveredByAll(n, es, k))
  {
    var all := es + Passes(n, tss);
    LongestFifoDrains(n, es, tss);
    forall i: nat | i < n
      ensures Arrived(all, i) == Arrived(es, i)
    {
      NothingArrivesInPasses(n, es, tss, i);
    }
    DrainedJoin(n, all, k);
  }
}
