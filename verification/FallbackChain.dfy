/** Chains of failing boots on any silicon and any device: how many images they try, and when they end. */
module FallbackChain {
  import opened Machine
  import opened BootSearch

  /** A search from this register value succeeds and leaves r in the register. */
  ghost predicate Finds(c: Config, start: u32, r: u32) {
    exists d: nat :: SearchResult(c, start, true, r, d)
  }

  /** Where the search after a failed boot starts: version 1 silicon does not increment. */
  function NextStart(versionOne: bool, r: u32): u32 {
    if versionOne then r else Incremented(r)
  }

  /** The register values of successive images, each failing to boot. */
  ghost predicate Chain(c: Config, versionOne: bool, start: u32, rs: seq<u32>)
    decreases |rs|
  {
    rs == [] || (Finds(c, start, rs[0]) && Chain(c, versionOne, NextStart(versionOne, rs[0]), rs[1..]))
  }

  ghost predicate BoundedBy(c: Config, versionOne: bool, start: u32, bound: nat) {
    forall rs | Chain(c, versionOne, start, rs) :: |rs| <= bound
  }

  ghost predicate Bounded(c: Config, versionOne: bool, start: u32) {
    exists bound :: BoundedBy(c, versionOne, start, bound)
  }

  /** A fitting device on silicon that increments: the chain runs through the valid slots. */
  lemma {:induction false} ChainIsTries(c: Config, start: u32, rs: seq<u32>)
    requires Sensible(c) && Fits(c) && Chain(c, false, start, rs)
    ensures |rs| <= |Tries(c, start)|
    ensures forall a | 0 <= a < |rs| :: Slot(c, rs[a]) == Tries(c, start)[a]
    decreases |rs|
  {
    if rs == [] {
    } else {
      assert Search(c, start) == Some(rs[0]);
      TriesCons(c, start, rs[0]);
      ChainIsTries(c, Incremented(rs[0]), rs[1..]);
    }
  }

  lemma FindsItself(c: Config, start: u32, r: u32)
    requires Sensible(c) && Finds(c, start, r)
    ensures Finds(c, r, r)
  {
    var d: nat :| SearchResult(c, start, true, r, d);
    SlotOfWrapped(c, start + d);
    SearchStart(c, r);
    BaseOfRegister(c, r);
    SearchTurn(c, r, r, 0);
    assert SearchResult(c, r, true, r, 0);
  }

  // ---------- the search as a function, for every device ----------

  /** The search from this register value ends. */
  ghost predicate SearchEnds(c: Config, start: u32) {
    exists d: nat :: Stops(c, SlotAfter(c, start, d))
  }

  /** A search has one outcome. */
  lemma ResultUnique(c: Config, start: u32, ok: bool, r: u32, d: nat, ok': bool, r': u32, d': nat)
    requires SearchResult(c, start, ok, r, d) && SearchResult(c, start, ok', r', d')
    ensures ok == ok' && r == r' && d == d'
  {
  }

  /** What the search finds, if anything. */
  ghost function Found(c: Config, start: u32): Option<u32> {
    if exists r: u32 :: Finds(c, start, r) then
      var r: u32 :| Finds(c, start, r);
      Some(r)
    else None
  }

  lemma FoundIs(c: Config, start: u32, ok: bool, r: u32, d: nat)
    requires SearchResult(c, start, ok, r, d)
    ensures Found(c, start) == if ok then Some(r) else None
  {
    if ok {
      assert Finds(c, start, r);
    }
    if Found(c, start).Some? {
      var d': nat :| SearchResult(c, start, true, Found(c, start).value, d');
      ResultUnique(c, start, ok, r, d, true, Found(c, start).value, d');
    }
  }

  // ---------- chains that do not end ----------

  /** Version 1: the same image is found again for ever. */
  lemma {:induction false} SameAgain(c: Config, start: u32, r: u32, n: nat) returns (rs: seq<u32>)
    requires Sensible(c) && Finds(c, start, r)
    ensures |rs| == n && Chain(c, true, start, rs)
    decreases n
  {
    if n == 0 {
      rs := [];
    } else {
      FindsItself(c, start, r);
      var rest := SameAgain(c, r, r, n - 1);
      rs := [r] + rest;
      assert rs[1..] == rest;
    }
  }

  lemma {:induction false} FirstStop(c: Config, start: u32, d: nat) returns (first: nat)
    requires Stops(c, SlotAfter(c, start, d))
    ensures Stops(c, SlotAfter(c, start, first))
    ensures forall e | 0 <= e < first :: !Stops(c, SlotAfter(c, start, e))
    decreases d
  {
    if e: nat :| e < d && Stops(c, SlotAfter(c, start, e)) {
      first := FirstStop(c, start, e);
    } else {
      first := d;
    }
  }

  lemma {:induction false} SearchingUpTo(c: Config, start: u32, d: nat) returns (reg: u32)
    requires Sensible(c) && forall e | 0 <= e < d :: !Stops(c, SlotAfter(c, start, e))
    ensures Searching(c, start, reg, d)
    decreases d
  {
    if d == 0 {
      SearchStart(c, start);
      reg := start;
    } else {
      var before := SearchingUpTo(c, start, d - 1);
      SearchTests(c, start, before, d - 1);
      SearchStep(c, start, before, d - 1);
      reg := Incremented(before);
    }
  }

  /** A search that ends has the one outcome its first stopping slot dictates. */
  lemma SearchOutcome(c: Config, start: u32) returns (ok: bool, reg: u32, d: nat)
    requires Sensible(c) && (Fits(c) || SomeImage(c))
    ensures SearchResult(c, start, ok, reg, d)
  {
    SearchEndsIff(c, start);
    var some: nat :| Stops(c, SlotAfter(c, start, some));
    d := FirstStop(c, start, some);
    var at := SearchingUpTo(c, start, d);
    SearchTests(c, start, at, d);
    SearchTurn(c, start, at, d);
    ok := BaseAddr(c, at) < c.deviceSize;
    reg := if ok then at else start;
  }

  /** An image lies ahead: on a fitting device at or after the start, otherwise anywhere. */
  ghost predicate ImageAhead(c: Config, start: u32) {
    if Fits(c) then exists j: nat :: Due(c, Slot(c, start), j) else SomeImage(c)
  }

  lemma FoundIsSearch(c: Config, start: u32)
    requires Sensible(c) && Fits(c)
    ensures SearchEnds(c, start) && Found(c, start) == Search(c, start)
  {
    var ok, r, d := SearchOutcome(c, start);
    FoundIs(c, start, ok, r, d);
  }

  /** A device that reaches past the mask never runs out: every search finds an image if there is one. */
  lemma AlwaysFinds(c: Config, start: u32) returns (r: u32)
    requires Sensible(c) && !Fits(c) && SomeImage(c)
    ensures Finds(c, start, r)
  {
    var ok, reg, d := SearchOutcome(c, start);
    MulMonotone(SlotAfter(c, start, d), Slots(c) - 1, c.slotSize);
    r := reg;
  }

  lemma FoundImage(c: Config, start: u32, r: u32)
    requires Finds(c, start, r)
    ensures SomeImage(c)
  {
    var d: nat :| SearchResult(c, start, true, r, d);
    assert ValidSlot(c, SlotAfter(c, start, d));
  }

  lemma FoundIsAhead(c: Config, start: u32, r: u32)
    requires Sensible(c) && Finds(c, start, r)
    ensures ImageAhead(c, start)
  {
    if Fits(c) {
      assert Search(c, start) == Some(r);
      SearchIsLeast(c, start);
      assert Due(c, Slot(c, start), Slot(c, r));
    } else {
      FoundImage(c, start, r);
    }
  }

  lemma AheadIsFound(c: Config, start: u32) returns (r: u32)
    requires Sensible(c) && ImageAhead(c, start)
    ensures Finds(c, start, r)
  {
    if Fits(c) {
      SearchIsLeast(c, start);
      var ok, reg, d := SearchOutcome(c, start);
      r := reg;
    } else {
      r := AlwaysFinds(c, start);
    }
  }

  lemma {:induction false} NeverRunsOut(c: Config, start: u32, n: nat) returns (rs: seq<u32>)
    requires Sensible(c) && !Fits(c) && SomeImage(c)
    ensures |rs| == n && Chain(c, false, start, rs)
    decreases n
  {
    if n == 0 {
      rs := [];
    } else {
      var r := AlwaysFinds(c, start);
      var rest := NeverRunsOut(c, Incremented(r), n - 1);
      rs := [r] + rest;
      assert rs[1..] == rest;
    }
  }

  lemma LongChain(c: Config, versionOne: bool, start: u32, r: u32, n: nat) returns (rs: seq<u32>)
    requires Sensible(c) && (versionOne || !Fits(c)) && Finds(c, start, r)
    ensures |rs| == n && Chain(c, versionOne, start, rs)
  {
    if versionOne {
      rs := SameAgain(c, start, r, n);
    } else {
      FoundImage(c, start, r);
      rs := NeverRunsOut(c, start, n);
    }
  }

  lemma IncrementingBounded(c: Config, start: u32)
    requires Sensible(c) && Fits(c)
    ensures Bounded(c, false, start)
  {
    forall rs | Chain(c, false, start, rs)
      ensures |rs| <= |Tries(c, start)|
    {
      ChainIsTries(c, start, rs);
    }
    assert BoundedBy(c, false, start, |Tries(c, start)|);
  }

  lemma RepeatingUnbounded(c: Config, versionOne: bool, start: u32, r: u32)
    requires Sensible(c) && (versionOne || !Fits(c)) && Finds(c, start, r)
    ensures !Bounded(c, versionOne, start)
  {
    forall bound: nat
      ensures !BoundedBy(c, versionOne, start, bound)
    {
      var rs := LongChain(c, versionOne, start, r, bound + 1);
      assert Chain(c, versionOne, start, rs) && |rs| > bound;
    }
  }

  lemma NothingAhead(c: Config, versionOne: bool, start: u32)
    requires Sensible(c) && !ImageAhead(c, start)
    ensures Bounded(c, versionOne, start)
  {
    forall rs | Chain(c, versionOne, start, rs)
      ensures |rs| <= 0
    {
      if rs != [] {
        FoundIsAhead(c, start, rs[0]);
      }
    }
    assert BoundedBy(c, versionOne, start, 0);
  }

  /**
   The number of images tried is bounded exactly when no image lies ahead, or the silicon increments the
   register and the device fits the mask. A search that finds none need not end; see FailingBootsEndIff.
   */
  lemma ChainBoundedIff(c: Config, versionOne: bool, start: u32)
    requires Sensible(c)
    ensures Bounded(c, versionOne, start) <==> (!versionOne && Fits(c)) || !ImageAhead(c, start)
  {
    if !versionOne && Fits(c) {
      IncrementingBounded(c, start);
    } else if ImageAhead(c, start) {
      var r := AheadIsFound(c, start);
      RepeatingUnbounded(c, versionOne, start, r);
    } else {
      NothingAhead(c, versionOne, start);
    }
  }

  // ---------- when failing boots come to an end ----------

  /** Where the search after the last of these starts. */
  function StartAfter(versionOne: bool, start: u32, rs: seq<u32>): u32 {
    if rs == [] then start else NextStart(versionOne, rs[|rs| - 1])
  }

  /** Finitely many images are tried, and each search, also the one that finds nothing, ends. */
  ghost predicate FailingBootsEnd(c: Config, versionOne: bool, start: u32) {
    && Bounded(c, versionOne, start)
    && forall rs | Chain(c, versionOne, start, rs) :: SearchEnds(c, StartAfter(versionOne, start, rs))
  }

  /**
   If every boot fails, the boot loader comes to rest exactly when the device fits the mask and, on version
   1 silicon, no image lies ahead. On a device that does not fit it searches or boots for ever.
   */
  lemma FailingBootsEndIff(c: Config, versionOne: bool, start: u32)
    requires Sensible(c)
    ensures FailingBootsEnd(c, versionOne, start) <==> Fits(c) && (!versionOne || !ImageAhead(c, start))
  {
    ChainBoundedIff(c, versionOne, start);
    var none: seq<u32> := [];
    assert Chain(c, versionOne, start, none) && StartAfter(versionOne, start, none) == start;
    SearchEndsIff(c, start);
    if Fits(c) {
      forall rs | Chain(c, versionOne, start, rs)
        ensures SearchEnds(c, StartAfter(versionOne, start, rs))
      {
        SearchEndsIff(c, StartAfter(versionOne, start, rs));
      }
    }
  }
}
