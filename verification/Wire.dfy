/**
 The message layout of DataPacket::to_msg, a decoder for it that the repository does not have,
 and the proof that the two are inverse to each other.
 */
module Wire {
  import opened Machine

  const N_ASIC_PACKET: nat := 19
  const MAX_VATA: nat := 12
  const HEADER_SIZE: u8 := 11

  /** What a packet holds for one ASIC: nothing, or some words and the FIFO count read after them. */
  datatype Slot = Missing | Filled(words: seq<u32>, nfifo: u16)

  /** The content of one message. */
  datatype Frame = Frame(flags: u16, time: u64, slots: seq<Slot>)

  predicate SlotFits(s: Slot) {
    s.Filled? ==> |s.words| <= N_ASIC_PACKET
  }

  predicate SlotsFit(slots: seq<Slot>) {
    forall i | 0 <= i < |slots| :: SlotFits(slots[i])
  }

  predicate Fits(f: Frame) {
    |f.slots| <= MAX_VATA && SlotsFit(f.slots)
  }

  /** The entry ndata[i]: bytes of data plus two for the FIFO count, or 0. */
  function NData(s: Slot): (n: nat)
    ensures SlotFits(s) ==> n <= 78
  {
    if s.Missing? then 0 else 4 * |s.words| + 2
  }

  function Words(ws: seq<u32>): (b: seq<u8>)
    ensures |b| == 4 * |ws|
  {
    if ws == [] then [] else Le(ws[0], 4) + Words(ws[1..])
  }

  function Payload(s: Slot): (b: seq<u8>)
    ensures |b| == NData(s)
  {
    if s.Missing? then [] else Words(s.words) + Le(s.nfifo, 2)
  }

  function Sizes(slots: seq<Slot>): (b: seq<u8>)
    ensures |b| == 2 * |slots|
  {
    if slots == [] then [] else Le(NData(slots[0]), 2) + Sizes(slots[1..])
  }

  function Payloads(slots: seq<Slot>): seq<u8> {
    if slots == [] then [] else Payload(slots[0]) + Payloads(slots[1..])
  }

  /** Bytes of the first m slots. */
  function DataBytes(slots: seq<Slot>, m: nat): nat
    requires m <= |slots|
  {
    if m == 0 then 0 else DataBytes(slots, m - 1) + NData(slots[m - 1])
  }

  function Size(f: Frame): nat {
    14 + 2 * |f.slots| + |Payloads(f.slots)|
  }

  function Head(size: nat, f: Frame): (b: seq<u8>)
    ensures |b| == 14
  {
    Le(size, 2) + [HEADER_SIZE] + Le(f.flags, 2) + Le(f.time, 8) + Le(|f.slots|, 1)
  }

  function Encode(f: Frame): (b: seq<u8>)
    ensures |b| == Size(f)
  {
    Head(Size(f), f) + Sizes(f.slots) + Payloads(f.slots)
  }

  lemma PayloadsCons(slots: seq<Slot>, i: nat)
    requires i < |slots|
    ensures Payloads(slots[i..]) == Payload(slots[i]) + Payloads(slots[i + 1..])
  {
    assert slots[i..][0] == slots[i] && slots[i..][1..] == slots[i + 1..];
  }

  lemma {:induction false} PayloadsLength(slots: seq<Slot>, m: nat)
    requires m <= |slots|
    ensures |Payloads(slots)| == DataBytes(slots, m) + |Payloads(slots[m..])|
  {
    if m == 0 {
      assert slots[0..] == slots;
    } else {
      var i := m - 1;
      PayloadsLength(slots, i);
      PayloadsCons(slots, i);
      assert |Payloads(slots[i..])| == NData(slots[i]) + |Payloads(slots[m..])|;
    }
  }

  lemma {:induction false} DataBytesBound(slots: seq<Slot>, m: nat)
    requires m <= |slots| && SlotsFit(slots)
    ensures DataBytes(slots, m) <= 78 * m
  {
    if m == 0 {
    } else {
      assert SlotFits(slots[m - 1]);
      DataBytesBound(slots, m - 1);
    }
  }

  lemma SizeIs(f: Frame)
    ensures Size(f) == 14 + 2 * |f.slots| + DataBytes(f.slots, |f.slots|)
  {
    PayloadsLength(f.slots, |f.slots|);
    assert f.slots[|f.slots|..] == [];
  }

  /** No message comes near the limit of its 16-bit size field. */
  lemma SizeBound(f: Frame)
    requires Fits(f)
    ensures Size(f) <= 974
  {
    SizeIs(f);
    DataBytesBound(f.slots, |f.slots|);
  }

  // ---------- the decoder ----------

  function ReadWords(b: seq<u8>): (ws: seq<u32>)
    requires |b| % 4 == 0
    ensures |ws| == |b| / 4
  {
    if b == [] then [] else [U32(b[..4])] + ReadWords(b[4..])
  }

  function ReadSizes(b: seq<u8>): (ns: seq<u16>)
    requires |b| % 2 == 0
    ensures |ns| == |b| / 2
  {
    if b == [] then [] else [U16(b[..2])] + ReadSizes(b[2..])
  }

  /** Reads one slot of n bytes. */
  function ReadSlot(n: nat, b: seq<u8>): Option<Slot>
    requires |b| == n
  {
    if n == 0 then Some(Missing)
    else if n % 4 != 2 || n > 78 then None
    else Some(Filled(ReadWords(b[..n - 2]), U16(b[n - 2..])))
  }

  function ReadSlots(ns: seq<u16>, b: seq<u8>): Option<seq<Slot>> {
    if ns == [] then
      if b == [] then Some([]) else None
    else if |b| < ns[0] then None
    else
      var s, rest := ReadSlot(ns[0], b[..ns[0]]), ReadSlots(ns[1..], b[ns[0]..]);
      if s.None? || rest.None? then None else Some([s.value] + rest.value)
  }

  function Decode(b: seq<u8>): Option<Frame> {
    if |b| < 14 || FromLe(b[..2]) != |b| || b[2] != HEADER_SIZE then None
    else
      var n := FromLe(b[13..14]);
      if n > MAX_VATA || |b| < 14 + 2 * n then None
      else match ReadSlots(ReadSizes(b[14..14 + 2 * n]), b[14 + 2 * n..])
        case None => None
        case Some(slots) =>
          Some(Frame(U16(b[3..5]), U64(b[5..13]), slots))
  }

  /** Cuts a byte stream into messages by their leading size fields. */
  function Split(b: seq<u8>): Option<seq<seq<u8>>>
    decreases |b|
  {
    if b == [] then Some([])
    else if |b| < 2 || FromLe(b[..2]) < 2 || FromLe(b[..2]) > |b| then None
    else
      var n := FromLe(b[..2]);
      match Split(b[n..])
      case None => None
      case Some(rest) => Some([b[..n]] + rest)
  }

  function Concat(ms: seq<seq<u8>>): seq<u8> {
    if ms == [] then [] else ms[0] + Concat(ms[1..])
  }

  // ---------- round trips ----------

  lemma {:induction false} ReadWordsOfWords(ws: seq<u32>)
    ensures ReadWords(Words(ws)) == ws
  {
    if ws == [] {
    } else {
      U32OfLe(ws[0]);
      ReadWordsOfWords(ws[1..]);
      assert Words(ws)[..4] == Le(ws[0], 4) && Words(ws)[4..] == Words(ws[1..]);
    }
  }

  lemma {:induction false} WordsOfReadWords(b: seq<u8>)
    requires |b| % 4 == 0
    ensures Words(ReadWords(b)) == b
  {
    if b == [] {
    } else {
      LeOfFromLe(b[..4]);
      WordsOfReadWords(b[4..]);
      var ws := ReadWords(b);
      assert ws[1..] == ReadWords(b[4..]);
      assert b == b[..4] + b[4..];
    }
  }

  lemma ReadSlotOfPayload(s: Slot)
    requires SlotFits(s)
    ensures ReadSlot(NData(s), Payload(s)) == Some(s)
  {
    if s.Filled? {
      var b, n := Payload(s), NData(s);
      assert b[..n - 2] == Words(s.words) && b[n - 2..] == Le(s.nfifo, 2);
      ReadWordsOfWords(s.words);
      U16OfLe(s.nfifo);
    }
  }

  lemma PayloadOfReadSlot(n: nat, b: seq<u8>)
    requires |b| == n && ReadSlot(n, b).Some?
    ensures var s := ReadSlot(n, b).value; SlotFits(s) && NData(s) == n && Payload(s) == b
  {
    if n > 0 {
      WordsOfReadWords(b[..n - 2]);
      LeOfFromLe(b[n - 2..]);
      assert b == b[..n - 2] + b[n - 2..];
    }
  }

  function NDatas(slots: seq<Slot>): (ns: seq<u16>)
    requires SlotsFit(slots)
    ensures |ns| == |slots|
  {
    seq(|slots|, i requires 0 <= i < |slots| => assert SlotFits(slots[i]); NData(slots[i]))
  }

  lemma {:induction false} ReadSizesOfSizes(slots: seq<Slot>)
    requires SlotsFit(slots)
    ensures ReadSizes(Sizes(slots)) == NDatas(slots)
  {
    if slots == [] {
    } else {
      var b := Sizes(slots);
      assert SlotFits(slots[0]);
      U16OfLe(NData(slots[0]));
      assert b[..2] == Le(NData(slots[0]), 2) && b[2..] == Sizes(slots[1..]);
      ReadSizesOfSizes(slots[1..]);
      assert NDatas(slots) == [NData(slots[0])] + NDatas(slots[1..]);
    }
  }

  lemma {:induction false} SizesOfReadSizes(b: seq<u8>, slots: seq<Slot>)
    requires |b| % 2 == 0 && SlotsFit(slots) && ReadSizes(b) == NDatas(slots)
    ensures Sizes(slots) == b
  {
    if b != [] {
      assert |ReadSizes(b)| == |slots|;
      LeOfFromLe(b[..2]);
      assert ReadSizes(b)[0] == FromLe(b[..2]) == NData(slots[0]);
      assert ReadSizes(b)[1..] == ReadSizes(b[2..]);
      assert NDatas(slots)[1..] == NDatas(slots[1..]);
      SizesOfReadSizes(b[2..], slots[1..]);
      assert b == b[..2] + b[2..];
    } else {
      assert |slots| == 0;
    }
  }

  lemma {:induction false} ReadSlotsOfPayloads(slots: seq<Slot>)
    requires SlotsFit(slots)
    ensures ReadSlots(NDatas(slots), Payloads(slots)) == Some(slots)
  {
    if slots == [] {
    } else {
      var s, rest := slots[0], slots[1..];
      assert SlotFits(s);
      assert slots == [s] + rest;
      ReadSlotOfPayload(s);
      ReadSlotsOfPayloads(rest);
      ConsSlots(s, rest);
      ReadSlotsStep(NData(s), NDatas(rest), Payload(s), Payloads(rest));
    }
  }

  lemma ReadSlotsStep(n: u16, ns: seq<u16>, a: seq<u8>, b: seq<u8>)
    requires |a| == n && ReadSlot(n, a).Some? && ReadSlots(ns, b).Some?
    ensures ReadSlots([n] + ns, a + b) == Some([ReadSlot(n, a).value] + ReadSlots(ns, b).value)
  {
    assert (a + b)[..n] == a && (a + b)[n..] == b && ([n] + ns)[1..] == ns;
  }

  lemma {:induction false} PayloadsOfReadSlots(ns: seq<u16>, b: seq<u8>, slots: seq<Slot>)
    requires ReadSlots(ns, b) == Some(slots)
    ensures SlotsFit(slots) && NDatas(slots) == ns && Payloads(slots) == b
  {
    if ns == [] {
    } else {
      var n := ns[0];
      var s, rest := ReadSlotsCons(ns, b, slots);
      PayloadOfReadSlot(n, b[..n]);
      PayloadsOfReadSlots(ns[1..], b[n..], rest);
      JoinSlots(ns, b, s, rest);
    }
  }

  lemma CutAt(b: seq<u8>, i: nat)
    requires i <= |b|
    ensures b == b[..i] + b[i..]
  {
  }

  lemma JoinSlots(ns: seq<u16>, b: seq<u8>, s: Slot, rest: seq<Slot>)
    requires ns != [] && ns[0] <= |b| && SlotFits(s) && SlotsFit(rest)
    requires NData(s) == ns[0] && Payload(s) == b[..ns[0]]
    requires NDatas(rest) == ns[1..] && Payloads(rest) == b[ns[0]..]
    ensures SlotsFit([s] + rest) && NDatas([s] + rest) == ns && Payloads([s] + rest) == b
  {
    ConsSlots(s, rest);
    assert ns == [ns[0]] + ns[1..];
    CutAt(b, ns[0]);
  }

  lemma ReadSlotsCons(ns: seq<u16>, b: seq<u8>, slots: seq<Slot>) returns (s: Slot, rest: seq<Slot>)
    requires ns != [] && ReadSlots(ns, b) == Some(slots)
    ensures ns[0] <= |b| && ReadSlot(ns[0], b[..ns[0]]) == Some(s)
    ensures ReadSlots(ns[1..], b[ns[0]..]) == Some(rest) && slots == [s] + rest
  {
    s, rest := ReadSlot(ns[0], b[..ns[0]]).value, ReadSlots(ns[1..], b[ns[0]..]).value;
  }

  lemma ConsSlots(s: Slot, rest: seq<Slot>)
    requires SlotFits(s) && SlotsFit(rest)
    ensures SlotsFit([s] + rest) && NDatas([s] + rest) == [NData(s)] + NDatas(rest)
    ensures Payloads([s] + rest) == Payload(s) + Payloads(rest)
  {
    var slots := [s] + rest;
    assert slots[0] == s && slots[1..] == rest;
    forall i | 0 <= i < |slots|
      ensures SlotFits(slots[i])
    {
      assert i > 0 ==> slots[i] == rest[i - 1];
    }
  }

  /** The fields at the front of a message. */
  lemma HeadFields(f: Frame)
    requires Fits(f)
    ensures var h := Head(Size(f), f);
            && FromLe(h[..2]) == Size(f) && h[2] == HEADER_SIZE && FromLe(h[3..5]) == f.flags
            && FromLe(h[5..13]) == f.time && FromLe(h[13..14]) == |f.slots|
  {
    var h := Head(Size(f), f);
    SizeBound(f);
    U16OfLe(Size(f));
    U16OfLe(f.flags);
    U64OfLe(f.time);
    U8OfLe(|f.slots|);
    assert h[..2] == Le(Size(f), 2) && h[3..5] == Le(f.flags, 2);
    assert h[5..13] == Le(f.time, 8) && h[13..14] == Le(|f.slots|, 1);
  }

  /** Decoding recovers every field of an encoded packet. */
  lemma DecodeOfEncode(f: Frame)
    requires Fits(f)
    ensures Decode(Encode(f)) == Some(f)
  {
    var b, h, n := Encode(f), Head(Size(f), f), |f.slots|;
    HeadFields(f);
    assert b[..14] == h && b[14..14 + 2 * n] == Sizes(f.slots) && b[14 + 2 * n..] == Payloads(f.slots);
    assert b[..2] == h[..2] && b[3..5] == h[3..5] && b[5..13] == h[5..13] && b[13..14] == h[13..14];
    ReadSizesOfSizes(f.slots);
    ReadSlotsOfPayloads(f.slots);
  }

  predicate FieldsAre(b: seq<u8>, f: Frame, n: nat) {
    && |b| >= 14 + 2 * n && n <= MAX_VATA
    && FromLe(b[..2]) == |b| && b[2] == HEADER_SIZE && FromLe(b[3..5]) == f.flags
    && FromLe(b[5..13]) == f.time && FromLe(b[13..14]) == n
    && ReadSlots(ReadSizes(b[14..14 + 2 * n]), b[14 + 2 * n..]) == Some(f.slots)
  }

  lemma DecodedFields(b: seq<u8>, f: Frame) returns (n: nat)
    requires Decode(b) == Some(f)
    ensures FieldsAre(b, f, n)
  {
    n := FromLe(b[13..14]);
  }

  /** ... and only encodings of packets decode, so the layout has no two spellings of one packet. */
  lemma EncodeOfDecode(b: seq<u8>, f: Frame)
    requires Decode(b) == Some(f)
    ensures Fits(f) && Encode(f) == b
  {
    var n := DecodedFields(b, f);
    SlotsOfFields(b, f, n);
    HeadOfFields(b, f);
    Cut(b, 14, 14 + 2 * n);
    JoinParts(f, b, b[..14], b[14..14 + 2 * n], b[14 + 2 * n..]);
  }

  lemma JoinParts(f: Frame, b: seq<u8>, head: seq<u8>, sizes: seq<u8>, data: seq<u8>)
    requires b == head + sizes + data && head == Head(|b|, f)
    requires sizes == Sizes(f.slots) && data == Payloads(f.slots)
    ensures Encode(f) == b
  {
  }

  lemma SlotsOfFields(b: seq<u8>, f: Frame, n: nat)
    requires FieldsAre(b, f, n)
    ensures Fits(f) && |f.slots| == n
    ensures Sizes(f.slots) == b[14..14 + 2 * n] && Payloads(f.slots) == b[14 + 2 * n..]
  {
    var sizes, data := b[14..14 + 2 * n], b[14 + 2 * n..];
    PayloadsOfReadSlots(ReadSizes(sizes), data, f.slots);
    assert |NDatas(f.slots)| == n;
    SizesOfReadSizes(sizes, f.slots);
  }

  lemma HeadOfFields(b: seq<u8>, f: Frame)
    requires |b| >= 14 && FromLe(b[..2]) == |b| && b[2] == HEADER_SIZE && FromLe(b[3..5]) == f.flags
    requires FromLe(b[5..13]) == f.time && FromLe(b[13..14]) == |f.slots|
    ensures Head(|b|, f) == b[..14]
  {
    LeOfFromLe(b[..2]);
    LeOfFromLe(b[3..5]);
    LeOfFromLe(b[5..13]);
    LeOfFromLe(b[13..14]);
    assert b[..14] == b[..2] + [b[2]] + b[3..5] + b[5..13] + b[13..14];
  }

  /** A byte string is the encoding of a packet exactly when it decodes to that packet. */
  lemma DecodeIff(b: seq<u8>, f: Frame)
    ensures Decode(b) == Some(f) <==> Fits(f) && b == Encode(f)
  {
    if Decode(b) == Some(f) {
      EncodeOfDecode(b, f);
    }
    if Fits(f) && b == Encode(f) {
      DecodeOfEncode(f);
    }
  }

  function EncodeAll(fs: seq<Frame>): (ms: seq<seq<u8>>)
    ensures |ms| == |fs|
  {
    seq(|fs|, i requires 0 <= i < |fs| => Encode(fs[i]))
  }

  /** Messages sent back to back are cut apart again at the right places. */
  lemma {:induction false} SplitOfConcat(fs: seq<Frame>)
    requires forall i | 0 <= i < |fs| :: Fits(fs[i])
    ensures Split(Concat(EncodeAll(fs))) == Some(EncodeAll(fs))
  {
    if fs == [] {
    } else {
      var ms := EncodeAll(fs);
      assert ms[0] == Encode(fs[0]) && ms[1..] == EncodeAll(fs[1..]);
      SplitOfConcat(fs[1..]);
      SplitFirst(fs[0], Concat(ms[1..]));
      assert [ms[0]] + ms[1..] == ms;
    }
  }

  lemma SplitFirst(f: Frame, rest: seq<u8>)
    requires Fits(f) && Split(rest).Some?
    ensures Split(Encode(f) + rest) == Some([Encode(f)] + Split(rest).value)
  {
    HeadFields(f);
    var m := Encode(f);
    var b := m + rest;
    assert b[..2] == Head(Size(f), f)[..2];
    assert b[..|m|] == m && b[|m|..] == rest;
  }

  /** Two packet sequences with the same byte stream are the same sequence. */
  lemma StreamInjective(fs: seq<Frame>, gs: seq<Frame>)
    requires forall i | 0 <= i < |fs| :: Fits(fs[i])
    requires forall i | 0 <= i < |gs| :: Fits(gs[i])
    requires Concat(EncodeAll(fs)) == Concat(EncodeAll(gs))
    ensures fs == gs
  {
    SplitOfConcat(fs);
    SplitOfConcat(gs);
    assert |fs| == |EncodeAll(fs)| == |gs|;
    forall i | 0 <= i < |fs|
      ensures fs[i] == gs[i]
    {
      assert EncodeAll(fs)[i] == EncodeAll(gs)[i];
      DecodeOfEncode(fs[i]);
      DecodeOfEncode(gs[i]);
    }
  }

  // ---------- the layout, byte by byte ----------

  lemma FromLeCons(b: seq<u8>, i: nat)
    requires i < |b|
    ensures FromLe(b[i..]) == b[i] + 0x100 * FromLe(b[i + 1..])
  {
    assert b[i..][1..] == b[i + 1..];
  }

  lemma FromLe2(b: seq<u8>)
    requires |b| == 2
    ensures FromLe(b) == b[0] as int + 0x100 * b[1] as int
  {
    FromLeCons(b, 0);
    FromLeCons(b, 1);
    assert b[0..] == b && b[2..] == [];
  }

  lemma FromLe4(b: seq<u8>)
    requires |b| == 4
    ensures FromLe(b) == b[0] as int + 0x100 * b[1] as int + 0x1_0000 * b[2] as int + 0x100_0000 * b[3] as int
  {
    FromLeCons(b, 0);
    FromLeCons(b, 1);
    FromLe2(b[2..]);
    assert b[0..] == b;
  }

  lemma FromLe8(b: seq<u8>)
    requires |b| == 8
    ensures FromLe(b) ==
              b[0] as int + 0x100 * b[1] as int + 0x1_0000 * b[2] as int + 0x100_0000 * b[3] as int
              + 0x1_0000_0000 *
                (b[4] as int + 0x100 * b[5] as int + 0x1_0000 * b[6] as int + 0x100_0000 * b[7] as int)
  {
    FromLeCons(b, 0);
    FromLeCons(b, 1);
    FromLeCons(b, 2);
    FromLeCons(b, 3);
    FromLe4(b[4..]);
    assert b[0..] == b;
  }

  /** Size, header size, flags, time and ASIC count, least significant byte first. */
  lemma HeaderBytes(f: Frame)
    requires Fits(f)
    ensures var b := Encode(f);
            && b[0] as int + 0x100 * b[1] as int == |b| && b[2] == 11
            && b[3] as int + 0x100 * b[4] as int == f.flags
            && b[5] as int + 0x100 * b[6] as int + 0x1_0000 * b[7] as int + 0x100_0000 * b[8] as int
               + 0x1_0000_0000 *
                 (b[9] as int + 0x100 * b[10] as int + 0x1_0000 * b[11] as int + 0x100_0000 * b[12] as int) == f.time
            && b[13] == |f.slots|
  {
    var b, h := Encode(f), Head(Size(f), f);
    HeadFields(f);
    assert b[..14] == h;
    FromLe2(h[..2]);
    FromLe2(h[3..5]);
    FromLe8(h[5..13]);
    assert h[13..14][1..] == [];
  }

  lemma {:induction false} SizesAt(slots: seq<Slot>, i: nat)
    requires i < |slots|
    ensures Sizes(slots)[2 * i..2 * i + 2] == Le(NData(slots[i]), 2)
  {
    if i == 0 {
    } else {
      SizesAt(slots[1..], i - 1);
      var b, rest := Sizes(slots), Sizes(slots[1..]);
      assert b[2..] == rest;
      assert b[2 * i..2 * i + 2] == b[2..][2 * (i - 1)..2 * (i - 1) + 2];
    }
  }

  /** The entry of an ASIC in the size table: 0 without data, else the bytes of its words and its FIFO count. */
  lemma SizeBytes(f: Frame, i: nat)
    requires Fits(f) && i < |f.slots|
    ensures var b := Encode(f);
            b[14 + 2 * i] as int + 0x100 * b[15 + 2 * i] as int ==
              if f.slots[i].Missing? then 0 else 4 * |f.slots[i].words| + 2
  {
    var b, n := Encode(f), |f.slots|;
    assert SlotFits(f.slots[i]);
    assert b[14..14 + 2 * n] == Sizes(f.slots);
    SizesAt(f.slots, i);
    assert b[14 + 2 * i..16 + 2 * i] == Sizes(f.slots)[2 * i..2 * i + 2];
    U16OfLe(NData(f.slots[i]));
    FromLe2(b[14 + 2 * i..16 + 2 * i]);
  }

  lemma {:induction false} PayloadsFrom(slots: seq<Slot>, m: nat)
    requires m <= |slots|
    ensures DataBytes(slots, m) <= |Payloads(slots)| && Payloads(slots)[DataBytes(slots, m)..] == Payloads(slots[m..])
  {
    if m == 0 {
      assert slots[0..] == slots;
    } else {
      PayloadsFrom(slots, m - 1);
      PayloadsCons(slots, m - 1);
      PayloadsLength(slots, m);
      SkipPart(Payloads(slots), DataBytes(slots, m - 1), Payload(slots[m - 1]), Payloads(slots[m..]));
    }
  }

  lemma SkipPart(b: seq<u8>, i: nat, part: seq<u8>, rest: seq<u8>)
    requires i <= |b| && b[i..] == part + rest
    ensures i + |part| <= |b| && b[i + |part|..] == rest && b[i..i + |part|] == part
  {
    assert b[i..][|part|..] == b[i + |part|..] && b[i..][..|part|] == b[i..i + |part|];
  }

  lemma WordInPayload(s: Slot, w: nat)
    requires s.Filled? && w < |s.words|
    ensures Payload(s)[4 * w..4 * w + 4] == Le(s.words[w], 4)
  {
    WordsAt(s.words, w);
    assert Payload(s)[4 * w..4 * w + 4] == Words(s.words)[4 * w..4 * w + 4];
  }

  /** Where the data of ASIC i starts in a message. */
  function DataStart(f: Frame, i: nat): nat
    requires i <= |f.slots|
  {
    14 + 2 * |f.slots| + DataBytes(f.slots, i)
  }

  lemma PayloadAt(f: Frame, i: nat)
    requires Fits(f) && i < |f.slots|
    ensures var o, m := DataStart(f, i), NData(f.slots[i]);
            o + m <= |Encode(f)| && Encode(f)[o..o + m] == Payload(f.slots[i])
  {
    var b, o := Encode(f), DataStart(f, i);
    PayloadsFrom(f.slots, i);
    PayloadsCons(f.slots, i);
    assert b[14 + 2 * |f.slots|..] == Payloads(f.slots);
    assert b[14 + 2 * |f.slots|..][DataBytes(f.slots, i)..] == b[o..];
    SkipPart(b, o, Payload(f.slots[i]), Payloads(f.slots[i + 1..]));
  }

  lemma SliceOfSlice(b: seq<u8>, o: nat, m: nat, i: nat, j: nat)
    requires o + m <= |b| && i <= j <= m
    ensures b[o..o + m][i..j] == b[o + i..o + j]
  {
    var p := b[o..o + m];
    assert |p[i..j]| == |b[o + i..o + j]|;
    assert forall k | 0 <= k < j - i :: p[i..j][k] == p[i + k] == b[o + (i + k)];
  }

  lemma {:induction false} WordsAt(ws: seq<u32>, w: nat)
    requires w < |ws|
    ensures Words(ws)[4 * w..4 * w + 4] == Le(ws[w], 4)
  {
    if w == 0 {
    } else {
      WordsAt(ws[1..], w - 1);
      assert Words(ws)[4..] == Words(ws[1..]);
      assert Words(ws)[4 * w..4 * w + 4] == Words(ws)[4..][4 * (w - 1)..4 * (w - 1) + 4];
    }
  }

  /** The data of an ASIC: its words in order, each least significant byte first ... */
  lemma WordBytes(f: Frame, i: nat, w: nat)
    requires Fits(f) && i < |f.slots| && f.slots[i].Filled? && w < |f.slots[i].words|
    ensures var b, o := Encode(f), DataStart(f, i) + 4 * w;
            && o + 4 <= |b|
            && b[o] as int + 0x100 * b[o + 1] as int + 0x1_0000 * b[o + 2] as int + 0x100_0000 * b[o + 3] as int ==
               f.slots[i].words[w]
  {
    var b, s, o := Encode(f), f.slots[i], DataStart(f, i);
    PayloadAt(f, i);
    SliceOfSlice(b, o, NData(s), 4 * w, 4 * w + 4);
    WordInPayload(s, w);
    U32OfLe(s.words[w]);
    FromLe4(b[o + 4 * w..o + 4 * w + 4]);
  }

  /** ... and then its FIFO count. */
  lemma CountBytes(f: Frame, i: nat)
    requires Fits(f) && i < |f.slots| && f.slots[i].Filled?
    ensures var b, o := Encode(f), DataStart(f, i) + 4 * |f.slots[i].words|;
            o + 2 <= |b| && b[o] as int + 0x100 * b[o + 1] as int == f.slots[i].nfifo
  {
    var b, s, o := Encode(f), f.slots[i], DataStart(f, i);
    PayloadAt(f, i);
    var p, e := b[o..o + NData(s)], o + 4 * |s.words|;
    assert p[4 * |s.words|..] == Le(s.nfifo, 2);
    assert b[e..e + 2] == p[4 * |s.words|..];
    U16OfLe(s.nfifo);
    FromLe2(b[e..e + 2]);
  }
}
