/** One ASIC's receive FIFO, word by word, and the ways VataCtrl reads it. */
module VataFifo {
  import opened Machine
  import opened Wire

  /** Words queued in all frames: the occupancy register RDFO. */
  function Occupancy(frames: seq<seq<u32>>): nat {
    if frames == [] then 0 else |frames[0]| + Occupancy(frames[1..])
  }

  function Flatten(frames: seq<seq<u32>>): (ws: seq<u32>)
    ensures |ws| == Occupancy(frames)
  {
    if frames == [] then [] else frames[0] + Flatten(frames[1..])
  }

  /** The queue after m words of its front frame are read. */
  function Drop(frames: seq<seq<u32>>, m: nat): seq<seq<u32>>
    requires frames != [] && m <= |frames[0]|
  {
    if m == |frames[0]| then frames[1..] else [frames[0][m..]] + frames[1..]
  }

  predicate NoEmptyFrame(frames: seq<seq<u32>>) {
    forall j | 0 <= j < |frames| :: frames[j] != []
  }

  /** What read_fifo_full_packet does to the queue. */
  function AfterFullRead(frames: seq<seq<u32>>): seq<seq<u32>> {
    if frames == [] || |frames[0]| < N_ASIC_PACKET then frames else Drop(frames, N_ASIC_PACKET)
  }

  /** The words it delivers. */
  function FullRead(frames: seq<seq<u32>>): Option<seq<u32>> {
    if frames == [] || |frames[0]| < N_ASIC_PACKET then None else Some(frames[0][..N_ASIC_PACKET])
  }

  lemma EmptyIffNoWords(frames: seq<seq<u32>>)
    requires NoEmptyFrame(frames)
    ensures Occupancy(frames) == 0 <==> frames == []
  {
    assert frames != [] ==> |frames[0]| > 0;
  }

  lemma DropKeepsStream(frames: seq<seq<u32>>, m: nat)
    requires frames != [] && m <= |frames[0]|
    ensures frames[0][..m] + Flatten(Drop(frames, m)) == Flatten(frames)
  {
    var f, rest := frames[0], Flatten(frames[1..]);
    if m < |f| {
      assert Drop(frames, m)[1..] == frames[1..];
      assert Flatten(Drop(frames, m)) == f[m..] + rest;
    }
    assert f[..m] + f[m..] == f;
    Assoc(f[..m], f[m..], rest);
  }

  /** Popping the next word of the front frame. */
  lemma PopStep(popped: seq<u32>, before: seq<u32>, frames: seq<seq<u32>>, j: nat)
    requires frames != [] && j < |frames[0]| && popped == before + frames[0][..j]
    ensures var rest := Drop(frames, j);
            rest != [] && rest[0] != [] && rest[0][0] == frames[0][j] && Drop(rest, 1) == Drop(frames, j + 1)
    ensures frames[0][..j + 1] == frames[0][..j] + [frames[0][j]]
    ensures popped + [frames[0][j]] == before + frames[0][..j + 1]
  {
    var front := frames[0];
    assert front[j..][1..] == front[j + 1..];
    assert Drop(frames, j)[1..] == frames[1..];
  }

  /** No read reorders or loses words: what it delivers and what stays make up the stream. */
  lemma FullReadKeepsStream(frames: seq<seq<u32>>)
    ensures Flatten(frames) ==
              (if FullRead(frames).Some? then FullRead(frames).value else []) + Flatten(AfterFullRead(frames))
  {
    if FullRead(frames).Some? {
      DropKeepsStream(frames, N_ASIC_PACKET);
    }
  }

  class VataCtrl {
    /** The frames the device holds. Hardware appends to this; reading the data register pops it. */
    var frames: seq<seq<u32>>
    /** All words that were ever read out. */
    ghost var popped: seq<u32>

    /** Word counts and byte counts fit the registers and the int they are cast to. */
    ghost predicate Valid()
      reads this
    {
      NoEmptyFrame(frames) && Occupancy(frames) < 0x2000_0000
    }

    constructor ()
      ensures Valid() && frames == [] && popped == []
    {
      frames, popped := [], [];
    }

    /** Hardware delivers a frame. */
    method Arrive(frame: seq<u32>)
      requires Valid() && frame != [] && Occupancy(frames + [frame]) < 0x2000_0000
      modifies this
      ensures Valid() && frames == old(frames) + [frame] && popped == old(popped)
    {
      frames := frames + [frame];
    }

    method Rdfo() returns (count: u32)
      requires Valid()
      ensures count == Occupancy(frames)
    {
      count := Occupancy(frames);
    }

    /** Bytes in the front frame. */
    method Rlr() returns (bytes: u32)
      requires Valid() && frames != []
      ensures bytes == 4 * |frames[0]|
    {
      bytes := 4 * |frames[0]|;
    }

    method Rdfd() returns (w: u32)
      requires Valid() && frames != []
      modifies this
      ensures Valid() && w == old(frames)[0][0] && frames == Drop(old(frames), 1)
      ensures popped == old(popped) + [w]
    {
      w := frames[0][0];
      DropKeepsStream(frames, 1);
      popped := popped + [w];
      frames := Drop(frames, 1);
    }

    method GetNFifo() returns (count: int)
      requires Valid()
      ensures count == Occupancy(frames)
    {
      count := Rdfo();
    }

    /** Reads m words of the front frame into a buffer. */
    method ReadWordsInto(data: array<u32>, m: nat)
      requires Valid() && frames != [] && m <= |frames[0]| && m <= data.Length
      modifies this, data
      ensures Valid() && frames == Drop(old(frames), m)
      ensures data[..m] == old(frames)[0][..m] && data[m..] == old(data[m..])
      ensures popped == old(popped) + old(frames)[0][..m]
    {
      ghost var front := frames[0];
      for j := 0 to m
        invariant Valid() && frames == Drop(old(frames), j)
        invariant data[..j] == front[..j]
        invariant forall l | j <= l < data.Length :: data[l] == old(data[l])
        invariant popped == old(popped) + front[..j]
      {
        PopStep(popped, old(popped), old(frames), j);
        var w := Rdfd();
        data[j] := w;
      }
    }

    /** Returns 0 and the front record; -1 if empty; the front frame's length if it is too short. */
    method ReadFifoFullPacket(data: array<u32>) returns (code: int)
      requires Valid() && data.Length >= N_ASIC_PACKET
      modifies this, data
      ensures Valid() && frames == AfterFullRead(old(frames))
      ensures code == 0 <==> FullRead(old(frames)).Some?
      ensures code == if old(frames) == [] then -1 else if |old(frames)[0]| < 19 then |old(frames)[0]| else 0
      ensures code == 0 ==> data[..N_ASIC_PACKET] == old(frames)[0][..19]
      ensures code == 0 ==> data[..N_ASIC_PACKET] == FullRead(old(frames)).value
      ensures code != 0 ==> data[..] == old(data[..])
      ensures popped == old(popped) + (if code == 0 then data[..N_ASIC_PACKET] else [])
    {
      var rdfo := Rdfo();
      if rdfo == 0 {
        code := -1;
        return;
      }
      var rlr := Rlr();
      if rlr / 4 < N_ASIC_PACKET {
        code := rlr / 4;
        return;
      }
      ReadWordsInto(data, N_ASIC_PACKET);
      code := 0;
    }

    /** The raw-buffer read of one whole frame; nread keeps its value when the FIFO is empty. */
    method ReadFifoRaw(data: array<u32>, nbuffer: int, nread0: u32) returns (code: int, nread: u32)
      requires Valid() && 0 <= nbuffer <= data.Length
      modifies this, data
      ensures Valid()
      ensures code == 0 <==> old(frames) == []
      ensures code == -1 <==> old(frames) != [] && nbuffer < |old(frames)[0]|
      ensures code == 0 || code == -1 || code == 1
      ensures nread == if code == 0 then nread0 else |old(frames)[0]|
      ensures code == 1 ==> frames == old(frames)[1..] && data[..nread] == old(frames)[0]
                            && popped == old(popped) + old(frames)[0]
      ensures code == 1 ==> data[nread..] == old(data[nread..])
      ensures code != 1 ==> frames == old(frames) && data[..] == old(data[..]) && popped == old(popped)
    {
      nread := nread0;
      var rdfo := Rdfo();
      if rdfo == 0 {
        code := 0;
        return;
      }
      var rlr := Rlr();
      nread := rlr / 4;
      if nbuffer < nread {
        code := -1;
        return;
      }
      ReadWordsInto(data, nread);
      assert old(frames)[0][..nread] == old(frames)[0];
      code := 1;
    }

    /** Reads the front frame over the first words of a vector. */
    method ReadWordsOver(data0: seq<u32>) returns (data: seq<u32>, nread: int)
      requires Valid() && frames != [] && |frames[0]| <= |data0|
      modifies this
      ensures Valid() && frames == old(frames)[1..] && popped == old(popped) + old(frames)[0]
      ensures nread == |old(frames)[0]| && data == old(frames)[0] + data0[nread..]
    {
      data, nread := data0, 0;
      ghost var front := frames[0];
      var bytes := Rlr();
      while nread < bytes / 4
        invariant 0 <= nread <= bytes / 4 == |front| && Valid()
        invariant frames == Drop(old(frames), nread)
        invariant |data| == |data0|
        invariant forall l | 0 <= l < |data| :: data[l] == if l < nread then front[l] else data0[l]
        invariant popped == old(popped) + front[..nread]
      {
        PopStep(popped, old(popped), old(frames), nread);
        var w := Rdfd();
        data := data[nread := w];
        nread := nread + 1;
      }
      assert front[..nread] == front;
    }

    /** The vector read of one whole frame: the vector grows if it must and keeps its longer tail. */
    method ReadFifoVector(data0: seq<u32>, nread0: int) returns (code: int, data: seq<u32>, nread: int, nremain: u32)
      requires Valid()
      modifies this
      ensures Valid() && nremain == Occupancy(frames)
      ensures code == if old(frames) == [] then 0 else 1
      ensures code == 0 ==> frames == old(frames) && data == data0 && nread == nread0 && popped == old(popped)
      ensures code == 1 ==>
                && frames == old(frames)[1..] && popped == old(popped) + old(frames)[0]
                && nread == |old(frames)[0]|
                && data == old(frames)[0] + if nread <= |data0| then data0[nread..] else []
    {
      data, nread := data0, nread0;
      var rdfo := Rdfo();
      if rdfo == 0 {
        code, nremain := 0, 0;
        return;
      }
      var bytes := Rlr();
      var rlr := bytes / 4;
      if |data| < rlr {
        data := data + seq(rlr - |data|, _ => 0);
      }
      data, nread := ReadWordsOver(data);
      nremain := Rdfo();
      code := 1;
    }
  }

  /** The server's clear loop reads every queued frame and stops on the empty FIFO. */
  method ClearFifo(vata: VataCtrl)
    requires vata.Valid()
    modifies vata
    ensures vata.Valid() && vata.frames == []
    ensures vata.popped == old(vata.popped) + Flatten(old(vata.frames))
  {
    var data, nread, nremain, code := [], 0, 0, 0;
    var count := vata.GetNFifo();
    while count > 0
      invariant vata.Valid() && count == Occupancy(vata.frames)
      invariant vata.popped + Flatten(vata.frames) == old(vata.popped) + Flatten(old(vata.frames))
      decreases |vata.frames|
    {
      Assoc(vata.popped, vata.frames[0], Flatten(vata.frames[1..]));
      code, data, nread, nremain := vata.ReadFifoVector(data, nread);
      count := vata.GetNFifo();
    }
    EmptyIffNoWords(vata.frames);
  }
}
