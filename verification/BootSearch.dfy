/** The boot loader's search for a valid image, and the fallback chain that repeats it. */
module BootSearch {
  import opened Machine
  import opened Checksum

  /**
   The constants of the board and the device. The register's low maskBits bits count slots of slotSize
   bytes; flash is the word MoveImage reads at each address.
   */
  datatype Config = Config(
    maskBits: nat, slotSize: nat, deviceSize: u32,
    headerWords: nat, widthOffset: u32, checksumOffset: u32, identOffset: u32, ident: u32,
    flash: u32 -> u32)

  predicate Sensible(c: Config) {
    c.maskBits <= 32 && c.slotSize > 0 && (Pow2(c.maskBits) - 1) * c.slotSize < WORD
  }

  function Slots(c: Config): (p: nat)
    ensures p > 0
  {
    Pow2(c.maskBits)
  }

  function WordAt(c: Config, addr: nat): u32 {
    c.flash(addr % WORD)
  }

  function Header(c: Config, base: nat): (ws: seq<u32>)
    ensures |ws| == c.headerWords
  {
    seq(c.headerWords, j requires 0 <= j < c.headerWords => WordAt(c, base + c.widthOffset + j * 4))
  }

  /** An image starts here: the ident word and the header checksum are right. */
  predicate ImageAt(c: Config, base: nat) {
    WordAt(c, base + c.identOffset) == c.ident && Accepts(Header(c, base), WordAt(c, base + c.checksumOffset))
  }

  predicate ValidSlot(c: Config, j: nat) {
    ImageAt(c, j * c.slotSize)
  }

  predicate PastEnd(c: Config, j: nat) {
    j * c.slotSize >= c.deviceSize
  }

  /** The slot a register value addresses. */
  function Slot(c: Config, reg: nat): (j: nat)
    ensures j < Slots(c)
  {
    reg % Slots(c)
  }

  method HeaderChecksum(c: Config, base: u32) returns (ok: bool)
    ensures ok <==> Accepts(Header(c, base), WordAt(c, base + c.checksumOffset))
  {
    var checksum: u32 := 0;
    var words := Header(c, base);
    for count := 0 to c.headerWords
      invariant checksum == Sum(words[..count]) % WORD
    {
      var temp := WordAt(c, base + c.widthOffset + count * 4);
      assert words[..count + 1][..count] == words[..count] && words[count] == temp;
      ModAdd(Sum(words[..count]), temp);
      checksum := (checksum + temp) % WORD;
    }
    assert words[..c.headerWords] == words;
    InvertedSumIff(words, WordAt(c, base + c.checksumOffset));
    ok := WordAt(c, base + c.checksumOffset) == Not32(checksum);
  }

  method ImageCheckID(c: Config, base: u32) returns (ok: bool)
    ensures ok <==> WordAt(c, base + c.identOffset) == c.ident
  {
    ok := WordAt(c, base + c.identOffset) == c.ident;
  }

  /** The loop's test: the checksum is looked at only when the ident is right. */
  method CheckImage(c: Config, base: u32) returns (ok: bool)
    ensures ok <==> ImageAt(c, base)
  {
    ok := ImageCheckID(c, base);
    if ok {
      ok := HeaderChecksum(c, base);
    }
  }

  // ---------- register arithmetic ----------

  lemma {:induction false} Pow2Split(a: nat, b: nat)
    ensures Pow2(a + b) == Pow2(a) * Pow2(b)
  {
    if a == 0 {
    } else {
      Pow2Split(a - 1, b);
      assert Pow2(a + b) == 2 * Pow2(a - 1 + b);
      assert 2 * (Pow2(a - 1) * Pow2(b)) == (2 * Pow2(a - 1)) * Pow2(b);
    }
  }

  lemma DivParts(x: nat, d: nat)
    requires d > 0
    ensures x == d * (x / d) + x % d
  {
  }

  lemma Distribute(p: nat, a: nat, b: nat)
    ensures p * a + p * b == p * (a + b)
  {
  }

  lemma Regroup(p: nat, q: nat, a: nat)
    ensures (p * q) * a == p * (q * a)
  {
  }

  lemma ModOfMod(x: nat, p: nat, q: nat)
    requires p > 0 && q > 0
    ensures p * q > 0 && (x % (p * q)) % p == x % p
  {
    MulPositive(p, q);
    var m := p * q;
    DivParts(x, m);
    DivParts(x % m, p);
    Regroup(p, q, x / m);
    SameRemainder(x, p, q * (x / m), x % m, (x % m) / p);
  }

  lemma SameRemainder(x: nat, p: nat, a: nat, y: nat, b: nat)
    requires p > 0 && x == p * a + y && y == p * b + y % p
    ensures x % p == y % p
  {
    Distribute(p, a, b);
    ModUnique(x, p, a + b, y % p);
  }

  lemma MulPositive(p: nat, q: nat)
    requires p > 0 && q > 0
    ensures p * q > 0
  {
  }

  /** The register counts modulo 2^32, the slot modulo the number of slots. */
  lemma SlotOfWrapped(c: Config, x: nat)
    requires c.maskBits <= 32
    ensures Slot(c, x % WORD) == Slot(c, x)
  {
    Pow2Split(c.maskBits, 32 - c.maskBits);
    Pow2Values();
    ModOfMod(x, Slots(c), Pow2(32 - c.maskBits));
  }

  /** Below the last slot an increment moves to the next one and leaves the higher bits alone. */
  lemma NextSlot(c: Config, reg: u32)
    requires c.maskBits <= 32 && Slot(c, reg) + 1 < Slots(c)
    ensures reg + 1 < WORD && Slot(c, reg + 1) == Slot(c, reg) + 1 && (reg + 1) / Slots(c) == reg / Slots(c)
  {
    var p, q := Slots(c), reg / Slots(c);
    assert reg == p * q + Slot(c, reg);
    ModUnique(reg + 1, p, q, Slot(c, reg) + 1);
    if reg + 1 == WORD {
      Pow2Split(c.maskBits, 32 - c.maskBits);
      Pow2Values();
      ModUnique(WORD, p, Pow2(32 - c.maskBits), 0);
    }
  }

  lemma MulMonotone(a: nat, b: nat, s: nat)
    requires a <= b
    ensures a * s <= b * s
  {
  }

  /** The register after an increment. */
  function Incremented(reg: u32): u32 {
    (reg + 1) % WORD
  }

  /** The image address computed from the register. */
  function BaseAddr(c: Config, reg: u32): u32 {
    (And(reg, Slots(c) - 1) * c.slotSize) % WORD
  }

  /** It does not wrap, so it is the start of the slot. */
  lemma BaseOfRegister(c: Config, reg: u32)
    requires Sensible(c)
    ensures BaseAddr(c, reg) == Slot(c, reg) * c.slotSize
    ensures BaseAddr(c, reg) >= c.deviceSize <==> PastEnd(c, Slot(c, reg))
    ensures ImageAt(c, BaseAddr(c, reg)) <==> ValidSlot(c, Slot(c, reg))
  {
    AndLowMask(reg, c.maskBits, Slots(c));
    MulMonotone(Slot(c, reg), Slots(c) - 1, c.slotSize);
    ModSmall(Slot(c, reg) * c.slotSize, WORD);
  }

  // ---------- when the search stops ----------

  predicate Stops(c: Config, j: nat) {
    PastEnd(c, j) || ValidSlot(c, j)
  }

  /** The device ends at or before the last slot the mask can address. */
  predicate Fits(c: Config) {
    PastEnd(c, Slots(c) - 1)
  }

  predicate SomeImage(c: Config) {
    exists j :: 0 <= j < Slots(c) && ValidSlot(c, j)
  }

  /** After d increments the search is at this slot. */
  function SlotAfter(c: Config, reg: u32, d: nat): nat {
    Slot(c, reg + d)
  }

  lemma WrapTo(x: nat, p: nat, j: nat) returns (d: nat)
    requires j < p
    ensures d < p && (x + d) % p == j
  {
    var q, s := x / p, x % p;
    DivParts(x, p);
    if s <= j {
      d := j - s;
      ModUnique(x + d, p, q, j);
    } else {
      d := j + p - s;
      Distribute(p, q, 1);
      ModUnique(x + d, p, q + 1, j);
    }
  }

  lemma Reaches(c: Config, reg: u32, j: nat) returns (d: nat)
    requires j < Slots(c)
    ensures d < Slots(c) && SlotAfter(c, reg, d) == j
  {
    d := WrapTo(reg, Slots(c), j);
  }

  /**
   The loop ends, from every register value, exactly when the device fits the mask or some addressable
   slot holds an image. Otherwise the masked slot wraps round for ever.
   */
  lemma SearchEndsIff(c: Config, reg: u32)
    ensures (exists d: nat :: Stops(c, SlotAfter(c, reg, d))) <==> Fits(c) || SomeImage(c)
  {
    if Fits(c) {
      var d := Reaches(c, reg, Slots(c) - 1);
      assert Stops(c, SlotAfter(c, reg, d));
    } else if SomeImage(c) {
      var j :| 0 <= j < Slots(c) && ValidSlot(c, j);
      var d := Reaches(c, reg, j);
      assert Stops(c, SlotAfter(c, reg, d));
    } else {
      forall d: nat
        ensures !Stops(c, SlotAfter(c, reg, d))
      {
        MulMonotone(SlotAfter(c, reg, d), Slots(c) - 1, c.slotSize);
      }
    }
  }

  /** 256 MB of flash without an image: the 8192 slots of 32 KB that the mask addresses end where the device does. */
  const BLANK := Config(13, 0x8000, 0x1000_0000, 0, 0, 0, 0, 1, addr => 0)

  /** There the search never ends, wherever it starts. */
  lemma BlankSearchesForEver(reg: u32)
    ensures Sensible(BLANK) && !Fits(BLANK) && !SomeImage(BLANK)
    ensures forall d: nat :: !Stops(BLANK, SlotAfter(BLANK, reg, d))
  {
    Pow2Values();
    assert Pow2(13) == 2 * Pow2(12);
    SearchEndsIff(BLANK, reg);
  }

  // ---------- the search as a function, for a device that fits ----------

  /** The register value the loop stops at with an image, if it does not run off the device first. */
  function Search(c: Config, reg: u32): (r: Option<u32>)
    requires Sensible(c) && Fits(c)
    ensures r.Some? ==> Slot(c, reg) <= Slot(c, r.value) < Slots(c) - 1
    decreases Slots(c) - Slot(c, reg)
  {
    var s := Slot(c, reg);
    if PastEnd(c, s) then None
    else
      NotPastIsBelow(c, s);
      if ValidSlot(c, s) then Some(reg)
      else
        NextSlot(c, reg);
        Search(c, reg + 1)
  }

  /** No slot from lo up to hi is valid. */
  ghost predicate NoImage(c: Config, lo: nat, hi: nat) {
    forall j | lo <= j < hi :: !ValidSlot(c, j)
  }

  /**
   Success addresses the lowest valid slot at or after the start, on the device, with the bits above the
   mask unchanged; failure means no slot from the start to the end of the device is valid.
   */
  lemma {:induction false} SearchIsLeast(c: Config, reg: u32)
    requires Sensible(c) && Fits(c)
    ensures match Search(c, reg)
            case Some(r) =>
              && r / Slots(c) == reg / Slots(c)
              && NoImage(c, Slot(c, reg), Slot(c, r)) && ValidSlot(c, Slot(c, r)) && !PastEnd(c, Slot(c, r))
            case None => forall j: nat | Slot(c, reg) <= j && !PastEnd(c, j) :: !ValidSlot(c, j)
    decreases Slots(c) - Slot(c, reg)
  {
    var s := Slot(c, reg);
    if PastEnd(c, s) {
      PastFrom(c, s);
    } else if ValidSlot(c, s) {
    } else {
      NotPastIsBelow(c, s);
      NextSlot(c, reg);
      SearchIsLeast(c, reg + 1);
    }
  }

  /** The same by address: an image that is found starts on the device, and when none is found none starts there. */
  lemma SearchByAddress(c: Config, reg: u32, j: nat)
    requires Sensible(c) && Fits(c)
    ensures match Search(c, reg)
            case Some(r) => BaseAddr(c, r) < c.deviceSize && ImageAt(c, BaseAddr(c, r))
            case None => Slot(c, reg) <= j && j * c.slotSize < c.deviceSize ==> !ImageAt(c, j * c.slotSize)
  {
    SearchIsLeast(c, reg);
    match Search(c, reg)
    case Some(r) => BaseOfRegister(c, r);
    case None => assert Slot(c, reg) <= j && !PastEnd(c, j) ==> !ValidSlot(c, j);
  }

  lemma PastFrom(c: Config, s: nat)
    requires PastEnd(c, s)
    ensures forall j: nat | s <= j :: PastEnd(c, j)
  {
    forall j: nat | s <= j
      ensures PastEnd(c, j)
    {
      MulMonotone(s, j, c.slotSize);
    }
  }

  lemma NotPastIsBelow(c: Config, s: nat)
    requires Fits(c) && !PastEnd(c, s)
    ensures s < Slots(c) - 1
  {
    if s >= Slots(c) - 1 {
      MulMonotone(Slots(c) - 1, s, c.slotSize);
    }
  }

  /** All slots a failing boot tries from this register value on, in order. */
  function Tries(c: Config, reg: u32): seq<nat>
    requires Sensible(c) && Fits(c)
    decreases Slots(c) - Slot(c, reg)
  {
    match Search(c, reg)
    case None => []
    case Some(r) =>
      NextSlot(c, r);
      [Slot(c, r)] + Tries(c, r + 1)
  }

  lemma TriesCons(c: Config, reg: u32, r: u32)
    requires Sensible(c) && Fits(c) && Search(c, reg) == Some(r)
    ensures Incremented(r) == r + 1 && Slot(c, r + 1) == Slot(c, r) + 1
    ensures Tries(c, reg) == [Slot(c, r)] + Tries(c, Incremented(r))
  {
    NextSlot(c, r);
    ModSmall(r + 1, WORD);
  }

  ghost predicate Ascending(ts: seq<nat>) {
    forall a, b | 0 <= a < b < |ts| :: ts[a] < ts[b]
  }

  lemma AscendingCons(s: nat, rest: seq<nat>)
    requires Ascending(rest) && forall x | x in rest :: s < x
    ensures Ascending([s] + rest)
  {
    var ts := [s] + rest;
    forall a, b | 0 <= a < b < |ts|
      ensures ts[a] < ts[b]
    {
      assert ts[b] == rest[b - 1] && rest[b - 1] in rest;
      assert a > 0 ==> ts[a] == rest[a - 1];
    }
  }

  /** A valid slot of the device, not before the start. */
  predicate Due(c: Config, start: nat, j: nat) {
    start <= j && !PastEnd(c, j) && ValidSlot(c, j)
  }

  /** From a start on, the valid slots are the one found and those after it. */
  lemma DueAfterFound(c: Config, reg: u32, r: u32, j: nat)
    requires Sensible(c) && Fits(c) && Search(c, reg) == Some(r)
    ensures Due(c, Slot(c, reg), j) <==> j == Slot(c, r) || Due(c, Slot(c, r) + 1, j)
  {
    SearchIsLeast(c, reg);
  }

  /**
   The chain tries exactly the valid slots from the start to the end of the device, each once, in
   ascending order.
   */
  lemma {:induction false} TriesAreTheValidSlots(c: Config, reg: u32)
    requires Sensible(c) && Fits(c)
    ensures forall j :: j in Tries(c, reg) <==> Due(c, Slot(c, reg), j)
    ensures Ascending(Tries(c, reg)) && |Tries(c, reg)| <= Slots(c) - 1 - Slot(c, reg)
    decreases Slots(c) - Slot(c, reg)
  {
    match Search(c, reg) {
      case None =>
        SearchIsLeast(c, reg);
      case Some(r) =>
        TriesCons(c, reg, r);
        TriesAreTheValidSlots(c, r + 1);
        AscendingCons(Slot(c, r), Tries(c, r + 1));
        forall j: nat
          ensures j in Tries(c, reg) <==> Due(c, Slot(c, reg), j)
        {
          DueAfterFound(c, reg, r, j);
        }
    }
  }

  // ---------- the search loop ----------

  /** The loop has incremented the register d times past slots that do not stop it. */
  ghost predicate Searching(c: Config, start: u32, reg: u32, d: nat) {
    && reg == (start + d) % WORD
    && (forall e | 0 <= e < d :: !Stops(c, SlotAfter(c, start, e)))
    && (Sensible(c) && Fits(c) ==> Search(c, start) == Search(c, reg))
  }

  /** What the loop tests, in terms of slots. */
  lemma SearchTests(c: Config, start: u32, reg: u32, d: nat)
    requires Sensible(c) && Searching(c, start, reg, d)
    ensures Slot(c, reg) == SlotAfter(c, start, d)
    ensures BaseAddr(c, reg) >= c.deviceSize <==> PastEnd(c, Slot(c, reg))
    ensures ImageAt(c, BaseAddr(c, reg)) <==> ValidSlot(c, Slot(c, reg))
    ensures Fits(c) && PastEnd(c, Slot(c, reg)) ==> Search(c, start).None?
    ensures Fits(c) && !PastEnd(c, Slot(c, reg)) && ValidSlot(c, Slot(c, reg)) ==> Search(c, start) == Some(reg)
  {
    SlotOfWrapped(c, start + d);
    BaseOfRegister(c, reg);
  }

  lemma SearchStep(c: Config, start: u32, reg: u32, d: nat)
    requires Sensible(c) && Searching(c, start, reg, d) && !Stops(c, Slot(c, reg))
    ensures Searching(c, start, Incremented(reg), d + 1)
  {
    SlotOfWrapped(c, start + d);
    ModAdd(start + d, 1);
    if Fits(c) {
      NotPastIsBelow(c, Slot(c, reg));
      NextSlot(c, reg);
      ModSmall(reg + 1, WORD);
    }
  }

  /**
   The outcome of a search: the least number of increments that leads to a stopping slot was made. On
   success the register addresses the image there; on failure it has its old value.
   */
  ghost predicate SearchResult(c: Config, start: u32, ok: bool, reg: u32, d: nat) {
    && Stops(c, SlotAfter(c, start, d))
    && (forall e | 0 <= e < d :: !Stops(c, SlotAfter(c, start, e)))
    && (ok <==> !PastEnd(c, SlotAfter(c, start, d)))
    && reg == (if ok then (start + d) % WORD else start)
    && (Sensible(c) && Fits(c) ==> Search(c, start) == if ok then Some(reg) else None)
  }

  /** One turn of the loop, by the outcome of its tests. */
  lemma SearchTurn(c: Config, start: u32, reg: u32, d: nat)
    requires Sensible(c) && Searching(c, start, reg, d)
    ensures BaseAddr(c, reg) >= c.deviceSize ==> SearchResult(c, start, false, start, d)
    ensures BaseAddr(c, reg) < c.deviceSize && ImageAt(c, BaseAddr(c, reg)) ==> SearchResult(c, start, true, reg, d)
    ensures BaseAddr(c, reg) < c.deviceSize && !ImageAt(c, BaseAddr(c, reg)) ==>
              Searching(c, start, Incremented(reg), d + 1)
  {
    SearchTests(c, start, reg, d);
    if !Stops(c, Slot(c, reg)) {
      SearchStep(c, start, reg, d);
    }
  }

  lemma SearchStart(c: Config, reg: u32)
    ensures Searching(c, reg, reg, 0)
  {
    ModSmall(reg, WORD);
  }

  /** A loop that has not passed a stopping slot is not beyond it. */
  lemma StillBefore(c: Config, start: u32, reg: u32, d: nat, limit: nat)
    requires Searching(c, start, reg, d) && Stops(c, SlotAfter(c, start, limit))
    ensures d <= limit
  {
  }
}
