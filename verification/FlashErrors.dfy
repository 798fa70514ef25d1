/** What one corrupted flash word in a boot header does to the search. */
module FlashErrors {
  import opened Machine
  import opened Checksum
  import opened BootSearch
  import opened FallbackChain

  /** The flash is as before but for this address. */
  ghost predicate ElsewhereSame(c: Config, flash: u32 -> u32, addr: u32) {
    forall a: u32 | a != addr :: flash(a) == c.flash(a)
  }

  /** The header words, then the checksum word, lie in order within extent bytes from this base, below 2^32. */
  predicate HeaderAt(c: Config, base: nat, extent: nat) {
    && c.widthOffset + 4 * c.headerWords <= c.checksumOffset
    && c.checksumOffset + 4 <= extent && c.identOffset + 4 <= extent
    && base + extent <= WORD
  }

  lemma WordAtNear(c: Config, addr: nat)
    requires addr < WORD
    ensures WordAt(c, addr) == c.flash(addr)
  {
    ModSmall(addr, WORD);
  }

  lemma HeaderWord(c: Config, base: nat, extent: nat, i: nat)
    requires HeaderAt(c, base, extent) && i < c.headerWords
    ensures base + c.widthOffset + 4 * i < base + c.checksumOffset < WORD
    ensures Header(c, base)[i] == c.flash(base + c.widthOffset + 4 * i)
  {
    WordAtNear(c, base + c.widthOffset + i * 4);
  }

  lemma HeaderSame(c: Config, flash: u32 -> u32, base: nat, extent: nat, addr: u32)
    requires HeaderAt(c, base, extent) && ElsewhereSame(c, flash, addr)
    requires addr < base || base + c.checksumOffset <= addr
    ensures Header(c.(flash := flash), base) == Header(c, base)
  {
    var d := c.(flash := flash);
    forall i: nat | i < c.headerWords
      ensures Header(d, base)[i] == Header(c, base)[i]
    {
      HeaderWord(c, base, extent, i);
      HeaderWord(d, base, extent, i);
    }
  }

  lemma HeaderUpdated(c: Config, flash: u32 -> u32, base: nat, extent: nat, j: nat, addr: u32)
    requires HeaderAt(c, base, extent) && j < c.headerWords && addr == base + c.widthOffset + 4 * j
    requires ElsewhereSame(c, flash, addr)
    ensures Header(c.(flash := flash), base) == Header(c, base)[j := flash(addr)]
  {
    var d := c.(flash := flash);
    forall i: nat | i < c.headerWords
      ensures Header(d, base)[i] == Header(c, base)[j := flash(addr)][i]
    {
      HeaderWord(c, base, extent, i);
      HeaderWord(d, base, extent, i);
    }
  }

  /** A wrong header word is always noticed ... */
  lemma HeaderWordDetected(c: Config, flash: u32 -> u32, base: nat, extent: nat, j: nat)
    requires ImageAt(c, base) && HeaderAt(c, base, extent) && j < c.headerWords
    requires var addr := base + c.widthOffset + 4 * j; flash(addr) != c.flash(addr) && ElsewhereSame(c, flash, addr)
    ensures !ImageAt(c.(flash := flash), base)
  {
    var addr := base + c.widthOffset + 4 * j;
    HeaderWord(c, base, extent, j);
    HeaderUpdated(c, flash, base, extent, j, addr);
    WordAtNear(c, base + c.checksumOffset);
    WordAtNear(c.(flash := flash), base + c.checksumOffset);
    OneWordDetected(Header(c, base), WordAt(c, base + c.checksumOffset), j, flash(addr));
  }

  /** ... and so is a wrong checksum word ... */
  lemma ChecksumWordDetected(c: Config, flash: u32 -> u32, base: nat, extent: nat)
    requires ImageAt(c, base) && HeaderAt(c, base, extent)
    requires var addr := base + c.checksumOffset; flash(addr) != c.flash(addr) && ElsewhereSame(c, flash, addr)
    ensures !ImageAt(c.(flash := flash), base)
  {
    var addr := base + c.checksumOffset;
    HeaderSame(c, flash, base, extent, addr);
    WordAtNear(c, addr);
    WordAtNear(c.(flash := flash), addr);
    StoredDetected(Header(c, base), c.flash(addr), flash(addr));
  }

  /** ... and a wrong ident. */
  lemma IdentWordDetected(c: Config, flash: u32 -> u32, base: nat, extent: nat)
    requires ImageAt(c, base) && HeaderAt(c, base, extent)
    requires flash(base + c.identOffset) != c.flash(base + c.identOffset)
    ensures !ImageAt(c.(flash := flash), base)
  {
    WordAtNear(c, base + c.identOffset);
    WordAtNear(c.(flash := flash), base + c.identOffset);
  }

  // ---------- what the search makes of it ----------

  /** This address holds a header word, the checksum word or the ident of the image at base. */
  predicate Checked(c: Config, base: nat, addr: nat) {
    || addr == base + c.identOffset
    || addr == base + c.checksumOffset
    || exists j :: 0 <= j < c.headerWords && addr == base + c.widthOffset + 4 * j
  }

  lemma CheckedDetected(c: Config, flash: u32 -> u32, base: nat, extent: nat, addr: u32)
    requires ImageAt(c, base) && HeaderAt(c, base, extent) && Checked(c, base, addr)
    requires flash(addr) != c.flash(addr) && ElsewhereSame(c, flash, addr)
    ensures !ImageAt(c.(flash := flash), base)
  {
    if addr == base + c.identOffset {
      IdentWordDetected(c, flash, base, extent);
    } else if addr == base + c.checksumOffset {
      ChecksumWordDetected(c, flash, base, extent);
    } else {
      var j :| 0 <= j < c.headerWords && addr == base + c.widthOffset + 4 * j;
      HeaderWordDetected(c, flash, base, extent, j);
    }
  }

  /** An image is only looked at within its own extent. */
  lemma OtherImage(c: Config, flash: u32 -> u32, base: nat, extent: nat, addr: u32)
    requires HeaderAt(c, base, extent) && (addr < base || base + extent <= addr) && ElsewhereSame(c, flash, addr)
    ensures ImageAt(c.(flash := flash), base) <==> ImageAt(c, base)
  {
    var d := c.(flash := flash);
    HeaderSame(c, flash, base, extent, addr);
    WordAtNear(c, base + c.checksumOffset);
    WordAtNear(d, base + c.checksumOffset);
    WordAtNear(c, base + c.identOffset);
    WordAtNear(d, base + c.identOffset);
  }

  /** Headers keep within their slots. */
  predicate HeadersFit(c: Config) {
    && c.widthOffset + 4 * c.headerWords <= c.checksumOffset
    && c.checksumOffset + 4 <= c.slotSize && c.identOffset + 4 <= c.slotSize
  }

  lemma NextSlotStart(j: nat, k: nat, s: nat)
    requires j < k
    ensures j * s + s <= k * s
  {
    MulMonotone(j + 1, k, s);
  }

  lemma SlotHeader(c: Config, j: nat)
    requires Sensible(c) && HeadersFit(c) && j < Slots(c) - 1
    ensures HeaderAt(c, j * c.slotSize, c.slotSize)
  {
    NextSlotStart(j, Slots(c) - 1, c.slotSize);
  }

  /** One word of slot s changed: the other slots are as valid as before. */
  lemma OtherSlot(c: Config, flash: u32 -> u32, s: nat, j: nat, addr: u32)
    requires Sensible(c) && HeadersFit(c) && s < Slots(c) - 1 && j < Slots(c) - 1 && j != s
    requires s * c.slotSize <= addr < s * c.slotSize + c.slotSize && ElsewhereSame(c, flash, addr)
    ensures ValidSlot(c.(flash := flash), j) <==> ValidSlot(c, j)
  {
    SlotHeader(c, j);
    if j < s {
      NextSlotStart(j, s, c.slotSize);
    } else {
      NextSlotStart(s, j, c.slotSize);
    }
    OtherImage(c, flash, j * c.slotSize, c.slotSize, addr);
  }

  /** Searches agree from where on the slots do. */
  lemma {:induction false} SameSearch(c: Config, d: Config, reg: u32)
    requires Sensible(c) && Fits(c) && d == c.(flash := d.flash)
    requires forall j: nat | Slot(c, reg) <= j < Slots(c) - 1 :: ValidSlot(d, j) <==> ValidSlot(c, j)
    ensures Sensible(d) && Fits(d) && Search(d, reg) == Search(c, reg)
    decreases Slots(c) - Slot(c, reg)
  {
    var s := Slot(c, reg);
    if PastEnd(c, s) || ValidSlot(c, s) {
    } else {
      NotPastIsBelow(c, s);
      NextSlot(c, reg);
      SameSearch(c, d, reg + 1);
    }
  }

  /** Every slot but s is as valid on d as on c, and s is not. */
  ghost predicate OnlyLost(c: Config, d: Config, s: nat) {
    && d == c.(flash := d.flash) && !ValidSlot(d, s)
    && forall j: nat | j < Slots(c) - 1 && j != s :: ValidSlot(d, j) <==> ValidSlot(c, j)
  }

  lemma {:induction false} SearchGoesOn(c: Config, d: Config, reg: u32, r: u32)
    requires Sensible(c) && Fits(c) && Search(c, reg) == Some(r)
    requires OnlyLost(c, d, Slot(c, r))
    ensures Sensible(d) && Fits(d) && r + 1 < WORD && Search(d, reg) == Search(c, r + 1)
    decreases Slots(c) - Slot(c, reg)
  {
    var s := Slot(c, reg);
    NotPastIsBelow(c, s);
    NextSlot(c, reg);
    if ValidSlot(c, s) {
      SameSearch(c, d, reg + 1);
    } else {
      SearchGoesOn(c, d, reg + 1, r);
    }
  }

  /** This address holds a word that is checked for the image of slot s. */
  predicate CheckedFor(c: Config, s: nat, addr: nat) {
    Checked(c, s * c.slotSize, addr)
  }

  lemma CheckedInSlot(c: Config, s: nat, addr: u32)
    requires HeadersFit(c) && CheckedFor(c, s, addr)
    ensures s * c.slotSize <= addr < s * c.slotSize + c.slotSize
  {
  }

  lemma CorruptedIsLost(c: Config, d: Config, s: nat, addr: u32)
    requires Sensible(c) && HeadersFit(c) && s < Slots(c) - 1 && ValidSlot(c, s)
    requires d == c.(flash := d.flash) && CheckedFor(c, s, addr)
    requires d.flash(addr) != c.flash(addr) && ElsewhereSame(c, d.flash, addr)
    ensures OnlyLost(c, d, s)
  {
    SlotHeader(c, s);
    CheckedInSlot(c, s, addr);
    CheckedDetected(c, d.flash, s * c.slotSize, c.slotSize, addr);
    forall j: nat | j < Slots(c) - 1 && j != s
      ensures ValidSlot(d, j) <==> ValidSlot(c, j)
    {
      OtherSlot(c, d.flash, s, j, addr);
    }
  }

  lemma FoundBelowLast(c: Config, reg: u32, r: u32)
    requires Sensible(c) && Fits(c) && Search(c, reg) == Some(r)
    ensures Slot(c, r) < Slots(c) - 1 && ValidSlot(c, Slot(c, r))
  {
    SearchIsLeast(c, reg);
  }

  lemma LostIsPassedOver(c: Config, d: Config, reg: u32, r: u32)
    requires Sensible(c) && Fits(c) && Search(c, reg) == Some(r) && OnlyLost(c, d, Slot(c, r))
    ensures Found(d, reg) == Found(c, Incremented(r))
  {
    SearchGoesOn(c, d, reg, r);
    ModSmall(r + 1, WORD);
    FoundIsSearch(c, Incremented(r));
    FoundIsSearch(d, reg);
  }

  /**
   When one checked word of the image that a search finds is wrong, and nothing else, the search passes it over
   and finds what comes after it.
   */
  lemma CorruptedIsPassedOver(c: Config, d: Config, reg: u32, r: u32, addr: u32)
    requires Sensible(c) && Fits(c) && HeadersFit(c) && Found(c, reg) == Some(r)
    requires d == c.(flash := d.flash) && CheckedFor(c, Slot(c, r), addr)
    requires d.flash(addr) != c.flash(addr) && ElsewhereSame(c, d.flash, addr)
    ensures Found(d, reg) == Found(c, Incremented(r))
  {
    FoundIsSearch(c, reg);
    FoundBelowLast(c, reg, r);
    CorruptedIsLost(c, d, Slot(c, r), addr);
    LostIsPassedOver(c, d, reg, r);
  }
}
