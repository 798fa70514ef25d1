/** The first-stage boot loader's search and fallback, step by step on the multiboot register. */
module Fsbl {
  import opened Keys
  import opened Machine
  import opened BootSearch
  import opened FallbackChain

  /**
   What the code outside this model does: FabricInit succeeds, LoadBootImage yields an address or falls
   back, FsblHookBeforeHandoff succeeds, the handoff comes back.
   */
  datatype Attempt = Attempt(fabricOk: bool, loaded: bool, addr: u32, hookOk: bool, cameBack: bool)

  /** attempt(k) is what happens to the k-th image loaded, and fabricOk what happens after it is loaded. */
  datatype Board = Board(
    c: Config,
    versionOne: bool,             // Silicon_Version is SILICON_VERSION_1
    fallbackMode: bool,           // boot mode is QSPI, NAND or NOR
    aesFuse: bool,                // the AES key source is the E-fuse
    systemInit: bool,             // SystemInitFlag
    attempt: nat -> Attempt)

  /** How a boot attempt leaves the boot loader; none of these returns. */
  datatype Outcome =
    | Hung                        // FsblHookFallback
    | PsReset                     // the boot ROM starts over
    | Application(addr: u32)
    | Jtag

  /** The outcome, the register then, and the register values at which images were loaded on the way. */
  datatype Boot = Boot(outcome: Outcome, reg: u32, tried: seq<u32>)

  function Entered(addr: u32): Outcome {
    if addr == 0 then Jtag else Application(addr)
  }

  /** A handoff to this image is not followed by a fallback. */
  predicate HandsOff(a: Attempt) {
    a.hookOk && !a.cameBack
  }

  predicate Boots(a: Attempt) {
    a.loaded && HandsOff(a)
  }

  /** A fallback goes on to search for an image. */
  predicate Searches(b: Board) {
    b.fallbackMode && b.aesFuse && b.systemInit
  }

  // ---------- when the boot loader comes to rest ----------

  /**
   With k images loaded so far and a search about to start here, the boot loader comes to rest after
   loading at most n more images that do not boot.
   */
  ghost predicate RestsWithin(b: Board, k: nat, start: u32, n: nat)
    decreases n
  {
    || !b.attempt(k).fabricOk
    || (SearchEnds(b.c, start) &&
        match Found(b.c, start)
        case None => true
        case Some(r) =>
          || Boots(b.attempt(k + 1))
          || (n > 0 && RestsWithin(b, k + 1, NextStart(b.versionOne, r), n - 1)))
  }

  ghost predicate Rests(b: Board, k: nat, start: u32) {
    exists n: nat :: RestsWithin(b, k, start, n)
  }

  ghost predicate FallbackRests(b: Board, k: nat, reg: u32) {
    Searches(b) ==> Rests(b, k, NextStart(b.versionOne, reg))
  }

  ghost predicate HandoffRests(b: Board, k: nat, reg: u32) {
    HandsOff(b.attempt(k)) || FallbackRests(b, k, reg)
  }

  /** The number of images still to be loaded without booting. */
  ghost function Left(b: Board, k: nat, start: u32): (n: nat)
    requires Rests(b, k, start)
    ensures RestsWithin(b, k, start, n) && forall m: nat | RestsWithin(b, k, start, m) :: n <= m
  {
    var some: nat :| RestsWithin(b, k, start, some);
    var bounds := set m: int | 0 <= m <= some && RestsWithin(b, k, start, m);
    assert forall m: nat | m <= some && RestsWithin(b, k, start, m) :: m in bounds;
    Least(bounds)
  }

  ghost function FallbackLeft(b: Board, k: nat, reg: u32): nat {
    var start := NextStart(b.versionOne, reg);
    if Searches(b) && Rests(b, k, start) then Left(b, k, start) else 0
  }

  /** Loading an image that does not boot brings the rest nearer. */
  lemma OneLess(b: Board, k: nat, start: u32, r: u32)
    requires Rests(b, k, start) && b.attempt(k).fabricOk && Found(b.c, start) == Some(r)
    requires !Boots(b.attempt(k + 1))
    ensures var next := NextStart(b.versionOne, r);
            SearchEnds(b.c, start) && Rests(b, k + 1, next) && Left(b, k + 1, next) < Left(b, k, start)
  {
    var n := Left(b, k, start);
    assert RestsWithin(b, k + 1, NextStart(b.versionOne, r), n - 1);
  }

  // ---------- fallback and handoff as a loop ----------

  /** Searches, loads and hands off until an image boots or there is none. */
  ghost function NextImage(b: Board, k: nat, start: u32): Boot
    requires Rests(b, k, start)
    decreases Left(b, k, start)
  {
    if !b.attempt(k).fabricOk then Boot(Hung, start, [])
    else
      match Found(b.c, start)
      case None => Boot(Hung, start, [])
      case Some(r) =>
        if Boots(b.attempt(k + 1)) then Boot(Entered(b.attempt(k + 1).addr), r, [r])
        else
          OneLess(b, k, start, r);
          var rest := NextImage(b, k + 1, NextStart(b.versionOne, r));
          rest.(tried := [r] + rest.tried)
  }

  /** What follows the loading of the k-th image, at r. */
  ghost function AfterLoading(b: Board, k: nat, r: u32): Boot
    requires Boots(b.attempt(k)) || Rests(b, k, NextStart(b.versionOne, r))
  {
    if Boots(b.attempt(k)) then Boot(Entered(b.attempt(k).addr), r, []) else NextImage(b, k, NextStart(b.versionOne, r))
  }

  lemma LoadingNext(b: Board, k: nat, start: u32, r: u32)
    requires Rests(b, k, start) && b.attempt(k).fabricOk && Found(b.c, start) == Some(r)
    ensures Boots(b.attempt(k + 1)) || Rests(b, k + 1, NextStart(b.versionOne, r))
    ensures !Boots(b.attempt(k + 1)) ==> Left(b, k + 1, NextStart(b.versionOne, r)) < Left(b, k, start)
    ensures NextImage(b, k, start) == var rest := AfterLoading(b, k + 1, r); rest.(tried := [r] + rest.tried)
  {
    if !Boots(b.attempt(k + 1)) {
      OneLess(b, k, start, r);
    } else {
      assert [r] + [] == [r];
    }
  }

  ghost function Fallback(b: Board, k: nat, reg: u32): Boot
    requires FallbackRests(b, k, reg)
  {
    var start := NextStart(b.versionOne, reg);
    if !b.fallbackMode then Boot(Hung, reg, [])
    else if !b.aesFuse then Boot(PsReset, start, [])
    else if !b.systemInit then Boot(Hung, start, [])
    else NextImage(b, k, start)
  }

  ghost function Handoff(b: Board, k: nat, addr: u32, reg: u32): Boot
    requires HandoffRests(b, k, reg)
  {
    if HandsOff(b.attempt(k)) then Boot(Entered(addr), reg, []) else Fallback(b, k, reg)
  }

  // ---------- handoff and fallback, case by case ----------

  /** The image is entered, at its address or through JTAG when that is 0, when the hook and the handoff succeed. */
  lemma HandoffIs(b: Board, k: nat, addr: u32, reg: u32)
    requires HandoffRests(b, k, reg)
    ensures b.attempt(k).hookOk && !b.attempt(k).cameBack ==>
              && (Handoff(b, k, addr, reg).outcome == Jtag <==> addr == 0)
              && (addr == 0 ==> Handoff(b, k, addr, reg) == Boot(Jtag, reg, []))
              && (addr != 0 ==> Handoff(b, k, addr, reg) == Boot(Application(addr), reg, []))
    ensures !b.attempt(k).hookOk || b.attempt(k).cameBack ==>
              FallbackRests(b, k, reg) && Handoff(b, k, addr, reg) == Fallback(b, k, reg)
  {
  }

  /**
   Without a boot mode for it, fallback hangs at once. Otherwise the register is incremented, except on version
   1; without the fuse the processor is reset, and without the system initialized it hangs.
   */
  lemma FallbackIs(b: Board, k: nat, reg: u32)
    requires FallbackRests(b, k, reg)
    ensures var next := if b.versionOne then reg else (reg + 1) % 0x1_0000_0000;
            && (!b.fallbackMode ==> Fallback(b, k, reg) == Boot(Hung, reg, []))
            && (b.fallbackMode && !b.aesFuse ==> Fallback(b, k, reg) == Boot(PsReset, next, []))
            && (b.fallbackMode && b.aesFuse && !b.systemInit ==> Fallback(b, k, reg) == Boot(Hung, next, []))
            && (b.fallbackMode && b.aesFuse && b.systemInit ==>
                  Rests(b, k, next) && Fallback(b, k, reg) == NextImage(b, k, next))
  {
  }

  // ---------- what the loop does ----------

  /**
   Every image tried was found by the search after the one before it; the first that boots is entered, with
   the register at it; and it hangs only when there is no further image or the fabric cannot be cleaned.
   */
  ghost predicate FirstThatBoots(b: Board, k: nat, start: u32, boot: Boot) {
    var rs := boot.tried;
    && Chain(b.c, b.versionOne, start, rs)
    && (forall j | k <= j < k + |rs| :: b.attempt(j).fabricOk)
    && (forall j | k < j < k + |rs| :: !Boots(b.attempt(j)))
    && if rs != [] && Boots(b.attempt(k + |rs|)) then
         boot.reg == rs[|rs| - 1] && boot.outcome == Entered(b.attempt(k + |rs|).addr)
       else
         boot.outcome == Hung
         && (!b.attempt(k + |rs|).fabricOk || Found(b.c, StartAfter(b.versionOne, start, rs)).None?)
  }

  lemma NothingToTry(b: Board, k: nat, start: u32)
    requires !b.attempt(k).fabricOk || Found(b.c, start).None?
    ensures FirstThatBoots(b, k, start, Boot(Hung, start, []))
  {
  }

  lemma BootsAtOnce(b: Board, k: nat, start: u32, r: u32)
    requires Found(b.c, start) == Some(r) && b.attempt(k).fabricOk && Boots(b.attempt(k + 1))
    ensures FirstThatBoots(b, k, start, Boot(Entered(b.attempt(k + 1).addr), r, [r]))
  {
    OneMoreFound(b.c, b.versionOne, start, r, []);
    assert [r] + [] == [r];
  }

  lemma OneMoreTried(b: Board, k: nat, start: u32, r: u32, rest: Boot)
    requires Found(b.c, start) == Some(r) && b.attempt(k).fabricOk && !Boots(b.attempt(k + 1))
    requires FirstThatBoots(b, k + 1, NextStart(b.versionOne, r), rest)
    ensures FirstThatBoots(b, k, start, rest.(tried := [r] + rest.tried))
  {
    var rs := [r] + rest.tried;
    OneMoreFound(b.c, b.versionOne, start, r, rest.tried);
    assert k + |rs| == k + 1 + |rest.tried|;
    assert rest.tried != [] ==> rs[|rs| - 1] == rest.tried[|rest.tried| - 1];
  }

  lemma OneMoreFound(c: Config, versionOne: bool, start: u32, r: u32, rs: seq<u32>)
    requires Finds(c, start, r) && Chain(c, versionOne, NextStart(versionOne, r), rs)
    ensures Chain(c, versionOne, start, [r] + rs)
    ensures StartAfter(versionOne, start, [r] + rs) == StartAfter(versionOne, NextStart(versionOne, r), rs)
  {
    assert ([r] + rs)[1..] == rs;
  }

  lemma {:induction false} NextImageBootsFirst(b: Board, k: nat, start: u32)
    requires Rests(b, k, start)
    ensures FirstThatBoots(b, k, start, NextImage(b, k, start))
    decreases Left(b, k, start)
  {
    if !b.attempt(k).fabricOk || Found(b.c, start).None? {
      NothingToTry(b, k, start);
    } else {
      var r := Found(b.c, start).value;
      if Boots(b.attempt(k + 1)) {
        BootsAtOnce(b, k, start, r);
      } else {
        OneLess(b, k, start, r);
        NextImageBootsFirst(b, k + 1, NextStart(b.versionOne, r));
        OneMoreTried(b, k, start, r, NextImage(b, k + 1, NextStart(b.versionOne, r)));
      }
    }
  }

  /**
   The search ends in an image exactly when that image was loaded and both its hook and its handoff succeeded;
   it is entered at its own address, or through JTAG when that is 0, and no image before it succeeded.
   */
  lemma LoopEnters(b: Board, k: nat, start: u32)
    requires Rests(b, k, start)
    ensures var boot := NextImage(b, k, start);
            var m := k + |boot.tried|;
            && boot.outcome != PsReset
            && (boot.outcome != Hung ==>
                  && boot.tried != [] && boot.reg == boot.tried[|boot.tried| - 1]
                  && b.attempt(m).loaded && b.attempt(m).hookOk && !b.attempt(m).cameBack
                  && (boot.outcome == Jtag <==> b.attempt(m).addr == 0)
                  && (b.attempt(m).addr != 0 ==> boot.outcome == Application(b.attempt(m).addr)))
            && (boot.outcome == Hung && boot.tried != [] ==>
                  !b.attempt(m).loaded || !b.attempt(m).hookOk || b.attempt(m).cameBack)
            && (forall j | k < j < m :: !b.attempt(j).loaded || !b.attempt(j).hookOk || b.attempt(j).cameBack)
  {
    NextImageBootsFirst(b, k, start);
    BootsAtLast(b, k, start, NextImage(b, k, start));
  }

  lemma BootsAtLast(b: Board, k: nat, start: u32, boot: Boot)
    requires FirstThatBoots(b, k, start, boot)
    ensures boot.outcome != PsReset
    ensures boot.outcome != Hung ==>
              && boot.tried != [] && boot.reg == boot.tried[|boot.tried| - 1] && Boots(b.attempt(k + |boot.tried|))
              && boot.outcome == Entered(b.attempt(k + |boot.tried|).addr)
    ensures boot.outcome == Hung && boot.tried != [] ==> !Boots(b.attempt(k + |boot.tried|))
    ensures forall j | k < j < k + |boot.tried| :: !Boots(b.attempt(j))
  {
  }

  // ---------- devices that fit the mask ----------

  lemma PrefixOfAscending(ts: seq<nat>, all: seq<nat>)
    requires ts <= all && Ascending(all)
    ensures Ascending(ts) && |ts| <= |all|
    ensures forall a | 0 <= a < |ts| :: ts[a] in all
    ensures forall a, j | 0 <= a < |ts| && j in all && j < ts[a] :: j in ts[..a]
  {
    forall a, j | 0 <= a < |ts| && j in all && j < ts[a]
      ensures j in ts[..a]
    {
      var i :| 0 <= i < |all| && all[i] == j;
      assert all[a] == ts[a];
      assert ts[..a][i] == j;
    }
  }

  function SlotsOf(c: Config, rs: seq<u32>): (ts: seq<nat>)
    ensures |ts| == |rs|
  {
    seq(|rs|, a requires 0 <= a < |rs| => Slot(c, rs[a]))
  }

  /** When the search after the last image finds none, all were tried. */
  lemma {:induction false} ChainExhausts(c: Config, start: u32, rs: seq<u32>)
    requires Sensible(c) && Fits(c) && Chain(c, false, start, rs)
    requires Search(c, StartAfter(false, start, rs)).None?
    ensures |rs| == |Tries(c, start)|
    decreases |rs|
  {
    if rs == [] {
    } else {
      assert Search(c, start) == Some(rs[0]);
      TriesCons(c, start, rs[0]);
      assert StartAfter(false, Incremented(rs[0]), rs[1..]) == StartAfter(false, start, rs);
      ChainExhausts(c, Incremented(rs[0]), rs[1..]);
    }
  }

  /**
   Images are tried in ascending order of slot, so none twice; none is skipped; there are fewer than the mask
   can address; and when the search after the last finds none, every valid slot from the start on was tried.
   */
  lemma ChainAscends(c: Config, start: u32, rs: seq<u32>)
    requires Sensible(c) && Fits(c) && Chain(c, false, start, rs)
    ensures var ts := SlotsOf(c, rs);
            && Ascending(ts) && |ts| <= Slots(c) - 1 - Slot(c, start)
            && (forall a | 0 <= a < |ts| :: Due(c, Slot(c, start), ts[a]))
            && (forall a, j: nat | 0 <= a < |ts| && Due(c, Slot(c, start), j) && j < ts[a] :: j in ts[..a])
            && (Search(c, StartAfter(false, start, rs)).None? ==> forall j: nat | Due(c, Slot(c, start), j) :: j in ts)
  {
    TriesAreTheValidSlots(c, start);
    ChainIsTries(c, start, rs);
    var ts, all := SlotsOf(c, rs), Tries(c, start);
    assert ts == all[..|ts|];
    PrefixOfAscending(ts, all);
    if Search(c, StartAfter(false, start, rs)).None? {
      ChainExhausts(c, start, rs);
      assert ts == all;
    }
  }

  // ---------- when it comes to rest whatever the images do ----------

  ghost predicate AlwaysRests(c: Config, versionOne: bool, start: u32) {
    forall b: Board | b.c == c && b.versionOne == versionOne :: Rests(b, 0, start)
  }

  lemma {:induction false} FittingRests(b: Board, k: nat, start: u32)
    requires Sensible(b.c) && Fits(b.c) && !b.versionOne
    ensures RestsWithin(b, k, start, |Tries(b.c, start)|)
    decreases |Tries(b.c, start)|
  {
    FoundIsSearch(b.c, start);
    if Search(b.c, start).None? {
    } else {
      var r := Search(b.c, start).value;
      TriesCons(b.c, start, r);
      FittingRests(b, k + 1, Incremented(r));
    }
  }

  /** Every boot fails. */
  function Failing(c: Config, versionOne: bool): Board {
    Board(c, versionOne, true, true, true, k => Attempt(true, false, 0, false, false))
  }

  /** There is always a next image, or the search for one does not end. */
  ghost predicate Restless(c: Config, versionOne: bool, start: u32) {
    || !SearchEnds(c, start)
    || (!Fits(c) && SomeImage(c))
    || (versionOne && Found(c, start).Some?)
  }

  lemma StillRestless(c: Config, versionOne: bool, start: u32)
    requires Sensible(c) && Restless(c, versionOne, start) && SearchEnds(c, start)
    ensures Found(c, start).Some? && Restless(c, versionOne, NextStart(versionOne, Found(c, start).value))
  {
    if !Fits(c) && SomeImage(c) {
      var r := AlwaysFinds(c, start);
    } else {
      FindsItself(c, start, Found(c, start).value);
    }
  }

  lemma {:induction false} FailingNeverRests(c: Config, versionOne: bool, k: nat, start: u32, n: nat)
    requires Sensible(c) && Restless(c, versionOne, start)
    ensures !RestsWithin(Failing(c, versionOne), k, start, n)
    decreases n
  {
    if !SearchEnds(c, start) {
    } else {
      StillRestless(c, versionOne, start);
      if n > 0 {
        FailingNeverRests(c, versionOne, k + 1, NextStart(versionOne, Found(c, start).value), n - 1);
      }
    }
  }

  lemma QuietOrRestless(c: Config, versionOne: bool, start: u32)
    requires Sensible(c)
    ensures Restless(c, versionOne, start) <==> !Fits(c) || (versionOne && ImageAhead(c, start))
  {
    SearchEndsIff(c, start);
    if ImageAhead(c, start) {
      var r := AheadIsFound(c, start);
    } else if Found(c, start).Some? {
      FoundIsAhead(c, start, Found(c, start).value);
    }
  }

  /**
   The boot loader comes to rest whatever the images, the fabric and the hooks do exactly when the device fits
   the mask and, on version 1 silicon, no image lies ahead.
   */
  lemma AlwaysRestsIff(c: Config, versionOne: bool, start: u32)
    requires Sensible(c)
    ensures AlwaysRests(c, versionOne, start) <==> Fits(c) && (!versionOne || !ImageAhead(c, start))
  {
    QuietOrRestless(c, versionOne, start);
    if Restless(c, versionOne, start) {
      var b := Failing(c, versionOne);
      forall n: nat
        ensures !RestsWithin(b, 0, start, n)
      {
        FailingNeverRests(c, versionOne, 0, start, n);
      }
      assert !Rests(b, 0, start);
    } else {
      forall b: Board | b.c == c && b.versionOne == versionOne
        ensures Rests(b, 0, start)
      {
        if versionOne {
          assert RestsWithin(b, 0, start, 0);
        } else {
          FittingRests(b, 0, start);
        }
      }
    }
  }

  // ---------- the boot loader ----------

  lemma NothingMore(before: seq<u32>)
    ensures before[|before|..] == []
  {
  }

  lemma Prepend(before: seq<u32>, r: u32, loaded: seq<u32>, after: seq<u32>)
    requires loaded == before + [r] && loaded <= after
    ensures before <= after && after[|before|..] == [r] + after[|loaded|..]
  {
    assert after[|before|] == (before + [r])[|before|];
  }

  class BootLoader {
    const b: Board
    var multiBoot: u32
    var tried: seq<u32>           // register values at which images were loaded; their number indexes attempt

    constructor (b: Board, reg: u32)
      ensures this.b == b && multiBoot == reg && tried == []
    {
      this.b, multiBoot, tried := b, reg, [];
    }

    method UpdateMultiBootRegister()
      modifies this`multiBoot
      ensures multiBoot == if b.versionOne then old(multiBoot) else (old(multiBoot) + 1) % 0x1_0000_0000
    {
      if !b.versionOne {
        multiBoot := Incremented(multiBoot);
      }
    }

    /** Ends with the search's result after d increments; on failure the register is not written. */
    method NextValidImageCheck() returns (ok: bool, ghost d: nat)
      requires Sensible(b.c) && (Fits(b.c) || SomeImage(b.c))
      modifies this`multiBoot
      ensures SearchResult(b.c, old(multiBoot), ok, multiBoot, d)
    {
      var c, reg := b.c, multiBoot;
      ghost var start := multiBoot;
      var base := BaseAddr(c, reg);
      d := 0;
      SearchStart(c, reg);
      SearchEndsIff(c, reg);
      ghost var limit: nat :| Stops(c, SlotAfter(c, start, limit));
      SearchTurn(c, start, reg, d);
      while base < c.deviceSize
        invariant multiBoot == start && base == BaseAddr(c, reg) && Searching(c, start, reg, d)
        invariant d <= limit
        decreases limit - d
      {
        SearchTurn(c, start, reg, d);
        var found := CheckImage(c, base);
        if found {
          multiBoot := reg;
          return true, d;
        }
        StillBefore(c, start, Incremented(reg), d + 1, limit);
        reg := Incremented(reg);
        base := BaseAddr(c, reg);
        d := d + 1;
      }
      SearchTurn(c, start, reg, d);
      ok := false;
    }

    /** The search by its result alone. */
    method Search() returns (ok: bool)
      requires Sensible(b.c) && SearchEnds(b.c, multiBoot)
      modifies this`multiBoot
      ensures Found(b.c, old(multiBoot)) == if ok then Some(multiBoot) else None
      ensures !ok ==> multiBoot == old(multiBoot)
    {
      SearchEndsIff(b.c, multiBoot);
      ghost var start := multiBoot;
      ghost var d;
      ok, d := NextValidImageCheck();
      FoundIs(b.c, start, ok, multiBoot, d);
    }

    /** Fallback, wherever it comes to rest: with the handoff that calls it back, it is the loop. */
    method FsblFallback() returns (o: Outcome)
      requires Sensible(b.c) && FallbackRests(b, |tried|, multiBoot)
      modifies this
      ensures old(tried) <= tried
      ensures Boot(o, multiBoot, tried[|old(tried)|..]) == Fallback(b, |old(tried)|, old(multiBoot))
      decreases FallbackLeft(b, |tried|, multiBoot) + 1, 1
    {
      NothingMore(tried);
      if !b.fallbackMode {
        return Hung;
      }
      UpdateMultiBootRegister();
      if b.aesFuse {
        if b.systemInit {
          o := BootNextImage();
          return;
        } else {
          return Hung;
        }
      }
      return PsReset;
    }

    /** The inner part of a fallback: clean the fabric, find the next image, load it and hand off. */
    method BootNextImage() returns (o: Outcome)
      requires Sensible(b.c) && Searches(b) && Rests(b, |tried|, multiBoot)
      modifies this
      ensures old(tried) <= tried
      ensures Boot(o, multiBoot, tried[|old(tried)|..]) == NextImage(b, |old(tried)|, old(multiBoot))
      decreases Left(b, |tried|, multiBoot) + 1, 0
    {
      ghost var start, before := multiBoot, tried;
      NothingMore(tried);
      if !b.attempt(|tried|).fabricOk {
        return Hung;
      }
      var found := Search();
      if !found {
        return Hung;
      }
      var r := multiBoot;
      LoadingNext(b, |tried|, start, r);
      tried := tried + [r];
      ghost var loaded := tried;
      o := LoadAndHandOff();
      Prepend(before, r, loaded, tried);
    }

    method LoadAndHandOff() returns (o: Outcome)
      requires Sensible(b.c) && Searches(b)
      requires Boots(b.attempt(|tried|)) || Rests(b, |tried|, NextStart(b.versionOne, multiBoot))
      modifies this
      ensures old(tried) <= tried
      ensures Boot(o, multiBoot, tried[|old(tried)|..]) == AfterLoading(b, |old(tried)|, old(multiBoot))
      decreases if Boots(b.attempt(|tried|)) then 0 else FallbackLeft(b, |tried|, multiBoot) + 1, 3
    {
      if b.attempt(|tried|).loaded {
        o := FsblHandoff(b.attempt(|tried|).addr);
      } else {
        o := FsblFallback();
      }
    }

    /** Handoff to the loaded image; a failing hook or a handoff that comes back falls back. */
    method FsblHandoff(addr: u32) returns (o: Outcome)
      requires Sensible(b.c) && HandoffRests(b, |tried|, multiBoot)
      modifies this
      ensures old(tried) <= tried
      ensures Boot(o, multiBoot, tried[|old(tried)|..]) == Handoff(b, |old(tried)|, addr, old(multiBoot))
      ensures b.attempt(|old(tried)|).hookOk && !b.attempt(|old(tried)|).cameBack ==>
                multiBoot == old(multiBoot) && tried == old(tried) && o == if addr == 0 then Jtag else Application(addr)
      decreases if HandsOff(b.attempt(|tried|)) then 0 else FallbackLeft(b, |tried|, multiBoot) + 1, 2
    {
      NothingMore(tried);
      if !b.attempt(|tried|).hookOk {
        o := FsblFallback();
        return;
      }
      if !b.attempt(|tried|).cameBack {
        if addr == 0 {
          return Jtag;
        } else {
          return Application(addr);
        }
      }
      o := FsblFallback();
    }
  }
}
