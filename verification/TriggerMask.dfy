/** The trigger enable register as a set of trigger sources. */
module TriggerMask {
  import opened Machine

  const MASK_LEN: nat := 15
  const TM_HIT: nat := 12
  const TM_ACK: nat := 13
  const FORCE_TRIGGER: nat := 14
  const WIDTH: nat := 32

  /** The bits that are set. */
  function Bits(x: u32): set<nat> {
    set i: nat | i < WIDTH && Bit(x, i)
  }

  function Below(k: nat): (s: set<nat>)
    ensures forall i: nat :: i in s <==> i < k
  {
    if k == 0 then {} else Below(k - 1) + {k - 1}
  }

  lemma BitsInjective(x: u32, y: u32)
    requires Bits(x) == Bits(y)
    ensures x == y
  {
    Pow2Values();
    forall i: nat | i < WIDTH
      ensures Bit(x, i) <==> Bit(y, i)
    {
      assert i in Bits(x) <==> i in Bits(y);
    }
    BitsDetermine(x, y, WIDTH);
  }

  lemma OrSets(x: u32, b: nat)
    requires b < WIDTH
    ensures Or(x, Pow2(b)) <= 0xFFFF_FFFF && Bits(Or(x, Pow2(b))) == Bits(x) + {b}
  {
    var y := Or(x, Pow2(b));
    Pow2Values();
    forall i: nat
      ensures Bit(y, i) <==> Bit(x, i) || i == b
      ensures WIDTH <= i ==> !Bit(y, i)
    {
      BitOr(x, Pow2(b), i);
      BitPow2(b, i);
      if WIDTH <= i {
        BitsBelow(x, WIDTH, i);
      }
    }
    BelowFromBits(y, WIDTH);
  }

  lemma AndClears(x: u32, b: nat)
    requires b < WIDTH
    ensures Pow2(b) <= 0xFFFF_FFFF && And(x, Not32(Pow2(b))) <= 0xFFFF_FFFF
    ensures Bits(And(x, Not32(Pow2(b)))) == Bits(x) - {b}
  {
    Pow2Values();
    Pow2Below(b, WIDTH);
    var y := And(x, Not32(Pow2(b)));
    forall i: nat
      ensures i < WIDTH ==> (Bit(y, i) <==> Bit(x, i) && i != b)
      ensures WIDTH <= i ==> !Bit(y, i)
    {
      BitAnd(x, Not32(Pow2(b)), i);
      BitComplement(Pow2(b), WIDTH, i);
      BitPow2(b, i);
      if WIDTH <= i {
        BitsBelow(x, WIDTH, i);
      }
    }
    BelowFromBits(y, WIDTH);
  }

  lemma {:induction false} Pow2Below(a: nat, b: nat)
    requires a < b
    ensures Pow2(a) < Pow2(b)
  {
    if a == 0 {
    } else {
      Pow2Below(a - 1, b - 1);
    }
  }

  lemma AllAndNone()
    ensures Bits(0xFFFF_FFFF) == Below(WIDTH) && Bits(0) == {}
  {
    Pow2Values();
    forall i: nat | i < WIDTH
      ensures Bit(0xFFFF_FFFF, i) && !Bit(0, i)
    {
      BitOfZero(i);
      BitComplement(0, WIDTH, i);
    }
  }

  /** The register value with exactly the bits of s below k. */
  function Encoding(s: set<nat>, k: nat): (x: u32)
    requires k <= WIDTH
  {
    if k == 0 then 0
    else
      var x := Encoding(s, k - 1);
      OrSets(x, k - 1);
      if k - 1 in s then Or(x, Pow2(k - 1)) else x
  }

  lemma {:induction false} BitsOfEncoding(s: set<nat>, k: nat)
    requires k <= WIDTH
    ensures Bits(Encoding(s, k)) == s * Below(k)
  {
    if k == 0 {
      AllAndNone();
    } else {
      BitsOfEncoding(s, k - 1);
      OrSets(Encoding(s, k - 1), k - 1);
    }
  }

  /** The register is the encoding of its set. */
  lemma EncodingOfBits(x: u32)
    ensures Encoding(Bits(x), WIDTH) == x
  {
    BitsOfEncoding(Bits(x), WIDTH);
    assert Bits(x) * Below(WIDTH) == Bits(x);
    BitsInjective(Encoding(Bits(x), WIDTH), x);
  }

  // ---------- operations as set operations ----------

  datatype Op =
    | OneBit(bit: int, on: bool)
    | All(on: bool)
    | LocalAsic(asic: int, on: bool)
    | LocalAsics(on: bool)
    | TmHit(on: bool)
    | TmAck(on: bool)
    | Forced(on: bool)

  /** trigger_disable does not check for negative bits. */
  predicate Callable(op: Op) {
    op.OneBit? && !op.on ==> op.bit >= 0
  }

  /** The sources an operation addresses; an illegal bit or asic number addresses none. */
  function Touched(n: nat, op: Op): set<nat> {
    match op
    case OneBit(b, _) => if 0 <= b < MASK_LEN then {b} else {}
    case All(_) => Below(WIDTH)
    case LocalAsic(a, _) => if 0 <= a < n then {a} else {}
    case LocalAsics(_) => Below(n)
    case TmHit(_) => {TM_HIT}
    case TmAck(_) => {TM_ACK}
    case Forced(_) => {FORCE_TRIGGER}
  }

  function After(n: nat, s: set<nat>, op: Op): set<nat> {
    if op.on then s + Touched(n, op) else s - Touched(n, op)
  }

  function Run(n: nat, s: set<nat>, ops: seq<Op>): set<nat> {
    if ops == [] then s else After(n, Run(n, s, ops[..|ops| - 1]), ops[|ops| - 1])
  }

  function LastTouch(n: nat, ops: seq<Op>, b: nat): Option<Op> {
    if ops == [] then None
    else if b in Touched(n, ops[|ops| - 1]) then Some(ops[|ops| - 1])
    else LastTouch(n, ops[..|ops| - 1], b)
  }

  /** The bits an operation addresses, by number. */
  lemma TouchedIs(n: nat, op: Op, i: nat)
    ensures op.OneBit? ==> (i in Touched(n, op) <==> i == op.bit && i <= 14)
    ensures op.All? ==> (i in Touched(n, op) <==> i < 32)
    ensures op.LocalAsic? ==> (i in Touched(n, op) <==> i == op.asic && i < n)
    ensures op.LocalAsics? ==> (i in Touched(n, op) <==> i < n)
    ensures op.TmHit? ==> (i in Touched(n, op) <==> i == 12)
    ensures op.TmAck? ==> (i in Touched(n, op) <==> i == 13)
    ensures op.Forced? ==> (i in Touched(n, op) <==> i == 14)
  {
  }

  /** An operation sets or clears the bits it addresses and leaves the others. */
  lemma AfterIs(n: nat, s: set<nat>, op: Op, i: nat)
    ensures i in After(n, s, op) <==> if i in Touched(n, op) then op.on else i in s
  {
  }

  /** The first m local ASICs, one after the other. */
  function LocalLoop(on: bool, m: nat): (ops: seq<Op>)
    ensures |ops| == m
  {
    seq(m, i requires 0 <= i < m => LocalAsic(i, on))
  }

  lemma {:induction false} LocalLoopBits(n: nat, s: set<nat>, on: bool, m: nat, i: nat)
    requires m <= n
    ensures i in Run(n, s, LocalLoop(on, m)) <==> if i < m then on else i in s
  {
    if m == 0 {
    } else {
      LocalLoopBits(n, s, on, m - 1, i);
      assert LocalLoop(on, m)[..m - 1] == LocalLoop(on, m - 1);
      AfterIs(n, Run(n, s, LocalLoop(on, m - 1)), LocalAsic(m - 1, on), i);
      TouchedIs(n, LocalAsic(m - 1, on), i);
    }
  }

  /** The operation on all local ASICs is that on each of them in turn. */
  lemma LocalAsicsIsLoop(n: nat, s: set<nat>, on: bool)
    ensures After(n, s, LocalAsics(on)) == Run(n, s, seq(n, i => LocalAsic(i, on)))
  {
    assert LocalLoop(on, n) == seq(n, i => LocalAsic(i, on));
    forall i: nat
      ensures i in After(n, s, LocalAsics(on)) <==> i in Run(n, s, LocalLoop(on, n))
    {
      LocalLoopBits(n, s, on, n, i);
      AfterIs(n, s, LocalAsics(on), i);
      TouchedIs(n, LocalAsics(on), i);
    }
  }

  /** The last operation addressing this source enabled it, or none did and it was enabled at first. */
  predicate LastEnabled(n: nat, s: set<nat>, ops: seq<Op>, b: nat) {
    match LastTouch(n, ops, b)
    case None => b in s
    case Some(op) => op.on
  }

  lemma {:induction false} LastTouchWins(n: nat, s: set<nat>, ops: seq<Op>, b: nat)
    ensures b in Run(n, s, ops) <==> LastEnabled(n, s, ops, b)
  {
    if ops == [] {
    } else {
      LastTouchWins(n, s, ops[..|ops| - 1], b);
    }
  }

  /** The trigger operations of VataCtrl, on the enable register. */
  class TriggerRegister {
    const n: nat                  // N_VATA
    var mask: u32

    ghost predicate Valid() {
      n <= 12
    }

    constructor (n: nat, mask: u32)
      requires n <= 12
      ensures Valid() && this.n == n && this.mask == mask
    {
      this.n, this.mask := n, mask;
    }

    method TriggerEnable(bit: int) returns (code: int)
      modifies this`mask
      ensures code == if 0 <= bit <= 14 then 0 else 1
      ensures Bits(mask) == After(n, old(Bits(mask)), OneBit(bit, true))
      ensures forall i: nat :: i in Bits(mask) <==> i in old(Bits(mask)) || (i == bit && i <= 14)
    {
      if bit >= MASK_LEN || bit < 0 {
        return 1;
      }
      OrSets(mask, bit);
      mask := Or(mask, Pow2(bit));
      code := 0;
    }

    method TriggerDisable(bit: int) returns (code: int)
      requires 0 <= bit
      modifies this`mask
      ensures code == if bit <= 14 then 0 else 1
      ensures Bits(mask) == After(n, old(Bits(mask)), OneBit(bit, false))
      ensures forall i: nat :: i in Bits(mask) <==> i in old(Bits(mask)) && !(i == bit && i <= 14)
    {
      if bit >= MASK_LEN {
        return 1;
      }
      AndClears(mask, bit);
      mask := And(mask, Not32(Pow2(bit)));
      code := 0;
    }

    method TriggerEnableAll()
      modifies this`mask
      ensures Bits(mask) == After(n, old(Bits(mask)), All(true))
      ensures mask == 0xFFFF_FFFF
    {
      AllAndNone();
      mask := 0xFFFF_FFFF;
    }

    method TriggerDisableAll()
      modifies this`mask
      ensures Bits(mask) == After(n, old(Bits(mask)), All(false))
      ensures mask == 0
    {
      AllAndNone();
      mask := 0;
    }

    method TriggerEnableLocalAsic(asic: int) returns (code: int)
      requires Valid()
      modifies this`mask
      ensures code == if 0 <= asic < n then 0 else 1
      ensures Bits(mask) == After(n, old(Bits(mask)), LocalAsic(asic, true))
      ensures forall i: nat :: i in Bits(mask) <==> i in old(Bits(mask)) || (i == asic && i < n)
    {
      if asic >= n || asic < 0 {
        return 1;
      }
      var _ := TriggerEnable(asic);
      code := 0;
    }

    method TriggerDisableLocalAsic(asic: int) returns (code: int)
      requires Valid()
      modifies this`mask
      ensures code == if 0 <= asic < n then 0 else 1
      ensures Bits(mask) == After(n, old(Bits(mask)), LocalAsic(asic, false))
      ensures forall i: nat :: i in Bits(mask) <==> i in old(Bits(mask)) && !(i == asic && i < n)
    {
      if asic >= n || asic < 0 {
        return 1;
      }
      var _ := TriggerDisable(asic);
      code := 0;
    }

    method TriggerEnableAllLocalAsics()
      requires Valid()
      modifies this`mask
      ensures Bits(mask) == After(n, old(Bits(mask)), LocalAsics(true))
      ensures forall i: nat :: i in Bits(mask) <==> i in old(Bits(mask)) || i < n
    {
      for i := 0 to n
        invariant Bits(mask) == old(Bits(mask)) + Below(i)
      {
        var _ := TriggerEnableLocalAsic(i);
      }
    }

    method TriggerDisableAllLocalAsics()
      requires Valid()
      modifies this`mask
      ensures Bits(mask) == After(n, old(Bits(mask)), LocalAsics(false))
      ensures forall i: nat :: i in Bits(mask) <==> i in old(Bits(mask)) && i >= n
    {
      for i := 0 to n
        invariant Bits(mask) == old(Bits(mask)) - Below(i)
      {
        var _ := TriggerDisableLocalAsic(i);
      }
    }

    // The source has an enabling and a disabling method for each of the three below.

    method TriggerTmHit(on: bool) returns (code: int)
      modifies this`mask
      ensures code == 0 && Bits(mask) == After(n, old(Bits(mask)), TmHit(on))
      ensures forall i: nat :: i in Bits(mask) <==> if i == 12 then on else i in old(Bits(mask))
    {
      if on {
        code := TriggerEnable(TM_HIT);
      } else {
        code := TriggerDisable(TM_HIT);
      }
    }

    method TriggerTmAck(on: bool) returns (code: int)
      modifies this`mask
      ensures code == 0 && Bits(mask) == After(n, old(Bits(mask)), TmAck(on))
      ensures forall i: nat :: i in Bits(mask) <==> if i == 13 then on else i in old(Bits(mask))
    {
      if on {
        code := TriggerEnable(TM_ACK);
      } else {
        code := TriggerDisable(TM_ACK);
      }
    }

    method TriggerForced(on: bool) returns (code: int)
      modifies this`mask
      ensures code == 0 && Bits(mask) == After(n, old(Bits(mask)), Forced(on))
      ensures forall i: nat :: i in Bits(mask) <==> if i == 14 then on else i in old(Bits(mask))
    {
      if on {
        code := TriggerEnable(FORCE_TRIGGER);
      } else {
        code := TriggerDisable(FORCE_TRIGGER);
      }
    }

    /** The call that an operation stands for. */
    method Apply(op: Op)
      requires Valid() && Callable(op)
      modifies this`mask
      ensures Bits(mask) == After(n, old(Bits(mask)), op)
    {
      var code := 0;
      match op {
        case OneBit(bit, on) =>
          if on {
            code := TriggerEnable(bit);
          } else {
            code := TriggerDisable(bit);
          }
        case All(on) =>
          if on {
            TriggerEnableAll();
          } else {
            TriggerDisableAll();
          }
        case LocalAsic(asic, on) =>
          if on {
            code := TriggerEnableLocalAsic(asic);
          } else {
            code := TriggerDisableLocalAsic(asic);
          }
        case LocalAsics(on) =>
          if on {
            TriggerEnableAllLocalAsics();
          } else {
            TriggerDisableAllLocalAsics();
          }
        case TmHit(on) =>
          code := TriggerTmHit(on);
        case TmAck(on) =>
          code := TriggerTmAck(on);
        case Forced(on) =>
          code := TriggerForced(on);
      }
    }

    /**
     Any sequence of calls leaves the register encoding the result of the set operations: each bit is as the last
     call addressing it left it.
     */
    method ApplyAll(ops: seq<Op>)
      requires Valid() && forall j | 0 <= j < |ops| :: Callable(ops[j])
      modifies this`mask
      ensures Bits(mask) == Run(n, old(Bits(mask)), ops)
      ensures mask == Encoding(Run(n, old(Bits(mask)), ops), WIDTH)
      ensures forall b: nat :: b in Bits(mask) <==> LastEnabled(n, old(Bits(mask)), ops, b)
    {
      for j := 0 to |ops|
        invariant Bits(mask) == Run(n, old(Bits(mask)), ops[..j])
      {
        Apply(ops[j]);
        assert ops[..j + 1] == ops[..j] + [ops[j]];
        assert ops[..j + 1][..j] == ops[..j];
      }
      assert ops[..|ops|] == ops;
      EncodingOfBits(mask);
      forall b: nat
        ensures b in Bits(mask) <==> LastEnabled(n, old(Bits(mask)), ops, b)
      {
        LastTouchWins(n, old(Bits(mask)), ops, b);
      }
    }
  }
}
