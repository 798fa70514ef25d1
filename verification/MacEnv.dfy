/** The U-Boot environment line that carries the MAC address, and a parser that recovers it. */
module MacEnv {
  import opened Machine

  const N_MAC: nat := 6
  const IDX0: nat := 8
  const COLON: u8 := ':' as u8
  const NEWLINE: u8 := '\n' as u8

  /** The bytes of "ethaddr=". */
  const PREFIX: seq<u8> := [0x65, 0x74, 0x68, 0x61, 0x64, 0x64, 0x72, 0x3D]

  function Uint4ToHex(x: u8): (r: u8)
    requires x < 16
  {
    if x < 10 then x + '0' as u8 else x + ('a' as u8 - 10)
  }

  /** The value of a lower-case hexadecimal digit. */
  function HexDigit(ch: u8): (r: Option<u8>)
    ensures r.Some? ==> r.value < 16
  {
    if '0' as u8 <= ch <= '9' as u8 then Some(ch - '0' as u8)
    else if 'a' as u8 <= ch <= 'f' as u8 then Some(ch - ('a' as u8 - 10))
    else None
  }

  function Octet(x: u8): (b: seq<u8>)
    ensures |b| == 2
  {
    [Uint4ToHex(x / 16), Uint4ToHex(x % 16)]
  }

  /** Every octet followed by a colon. */
  function Octets(mac: seq<u8>): (b: seq<u8>)
    ensures |b| == 3 * |mac|
  {
    if mac == [] then [] else Octet(mac[0]) + [COLON] + Octets(mac[1..])
  }

  /** The line: the last colon is a newline, and a NUL ends it. */
  function Environment(mac: seq<u8>): (b: seq<u8>)
    requires |mac| == N_MAC
    ensures |b| == 27
  {
    PREFIX + Octets(mac)[..3 * N_MAC - 1] + [NEWLINE, 0]
  }

  function ParseOctet(hi: u8, lo: u8): Option<u8> {
    if HexDigit(hi).None? || HexDigit(lo).None? then None else Some(16 * HexDigit(hi).value + HexDigit(lo).value)
  }

  lemma ParseOctetIff(hi: u8, lo: u8, x: u8)
    ensures ParseOctet(hi, lo) == Some(x) <==> Octet(x) == [hi, lo]
  {
    if Octet(x) == [hi, lo] {
      assert hi == Octet(x)[0] && lo == Octet(x)[1];
    }
  }

  function ParseOctets(b: seq<u8>): (r: Option<seq<u8>>) {
    if b == [] then Some([])
    else if |b| < 3 || ParseOctet(b[0], b[1]).None? || b[2] != COLON then None
    else
      match ParseOctets(b[3..])
      case None => None
      case Some(rest) => Some([ParseOctet(b[0], b[1]).value] + rest)
  }

  function Parse(b: seq<u8>): (r: Option<seq<u8>>) {
    if |b| != 27 || b[..IDX0] != PREFIX || b[25..] != [NEWLINE, 0] then None
    else ParseOctets(b[IDX0..25] + [COLON])
  }

  lemma {:induction false} ParseOfOctets(mac: seq<u8>)
    ensures ParseOctets(Octets(mac)) == Some(mac)
  {
    if mac == [] {
    } else {
      ParseOfOctets(mac[1..]);
      var b := Octets(mac);
      assert b[3..] == Octets(mac[1..]);
      assert b[0] == Octet(mac[0])[0] && b[1] == Octet(mac[0])[1] && b[2] == COLON;
      ParseOctetIff(b[0], b[1], mac[0]);
      assert mac == [mac[0]] + mac[1..];
    }
  }

  lemma OctetsCons(x: u8, rest: seq<u8>)
    ensures Octets([x] + rest) == Octet(x) + [COLON] + Octets(rest)
  {
    assert ([x] + rest)[1..] == rest;
  }

  lemma FirstThree(b: seq<u8>)
    requires |b| >= 3
    ensures b == [b[0], b[1]] + [b[2]] + b[3..]
  {
  }

  lemma {:induction false} OctetsOfParse(b: seq<u8>)
    requires ParseOctets(b).Some?
    ensures Octets(ParseOctets(b).value) == b
  {
    if b == [] {
    } else {
      OctetsOfParse(b[3..]);
      var x, rest := ParseOctet(b[0], b[1]).value, ParseOctets(b[3..]).value;
      ParseOctetIff(b[0], b[1], x);
      OctetsCons(x, rest);
      FirstThree(b);
    }
  }

  /** The parser accepts exactly the lines printed for some address, and returns that address. */
  lemma ParseIff(b: seq<u8>, mac: seq<u8>)
    requires |mac| == N_MAC
    ensures Parse(b) == Some(mac) <==> b == Environment(mac)
  {
    var line, os := Environment(mac), Octets(mac);
    ParseOfOctets(mac);
    LastColon(mac);
    assert line[IDX0..25] == os[..17] && line[25..] == [NEWLINE, 0] && line[..IDX0] == PREFIX;
    assert os == os[..17] + [COLON];
    if Parse(b) == Some(mac) {
      OctetsOfParse(b[IDX0..25] + [COLON]);
      assert b[IDX0..25] == (b[IDX0..25] + [COLON])[..17];
      assert b == b[..IDX0] + b[IDX0..25] + b[25..];
    }
  }

  lemma {:induction false} LastColon(mac: seq<u8>)
    ensures mac != [] ==> Octets(mac)[3 * |mac| - 1] == COLON
  {
    if |mac| <= 1 {
    } else {
      LastColon(mac[1..]);
    }
  }

  lemma {:induction false} OctetsSnoc(mac: seq<u8>, x: u8)
    ensures Octets(mac + [x]) == Octets(mac) + Octet(x) + [COLON]
  {
    if mac == [] {
      assert mac + [x] == [x] && [x][1..] == [];
    } else {
      OctetsSnoc(mac[1..], x);
      assert (mac + [x])[1..] == mac[1..] + [x];
    }
  }

  /** `(x >> 4) & 0x0F` and `(x >> 0) & 0x0F`. */
  lemma Nibbles(x: u8)
    ensures And(x / 16, 0x0F) == x / 16 && And(x, 0x0F) == x % 16
  {
    assert Pow2(4) == 16;
    AndLowMask(x / 16, 4, 16);
    AndLowMask(x, 4, 16);
  }

  const DIGITS: string := "0123456789abcdef"

  lemma DigitIs(x: u8)
    requires x < 16
    ensures Uint4ToHex(x) == DIGITS[x] as u8
  {
  }

  lemma {:induction false} OctetsAt(mac: seq<u8>, i: nat)
    requires i < |mac|
    ensures var b := Octets(mac);
            b[3 * i] == Octet(mac[i])[0] && b[3 * i + 1] == Octet(mac[i])[1] && b[3 * i + 2] == ':' as u8
  {
    if i == 0 {
    } else {
      OctetsAt(mac[1..], i - 1);
      ThreeOn(Octet(mac[0]) + [COLON], Octets(mac[1..]), 3 * (i - 1));
    }
  }

  lemma ThreeOn(a: seq<u8>, b: seq<u8>, k: nat)
    requires |a| == 3 && k + 3 <= |b|
    ensures (a + b)[k + 3] == b[k] && (a + b)[k + 4] == b[k + 1] && (a + b)[k + 5] == b[k + 2]
  {
  }

  /** The line character by character: "ethaddr=", the digits of each octet, the separators, newline and NUL. */
  lemma LineIs(mac: seq<u8>, i: nat)
    requires |mac| == 6 && i < 6
    ensures var b, digits := Environment(mac), "0123456789abcdef";
            && |b| == 27
            && (forall k | 0 <= k < 8 :: b[k] == "ethaddr="[k] as u8)
            && b[8 + 3 * i] == digits[mac[i] / 16] as u8 && b[9 + 3 * i] == digits[mac[i] % 16] as u8
            && b[10 + 3 * i] == (if i < 5 then ':' else '\n') as u8
            && b[26] == 0
  {
    var b, os := Environment(mac), Octets(mac);
    OctetsAt(mac, i);
    DigitIs(mac[i] / 16);
    DigitIs(mac[i] % 16);
    assert b[..8] == PREFIX && b[8..25] == os[..17] && b[25..] == [NEWLINE, 0];
    assert forall k | 0 <= k < 17 :: b[8 + k] == b[8..25][k] == os[k];
    assert b[25] == b[25..][0] && b[26] == b[25..][1];
    assert forall k | 0 <= k < 8 :: b[k] == b[..8][k];
  }

  method Uint8ToHex(s: array<u8>, at: nat, x: u8)
    requires at + 2 <= s.Length
    modifies s
    ensures s[..] == old(s[..at]) + Octet(x) + old(s[at + 2..])
  {
    Nibbles(x);
    s[at] := Uint4ToHex(And(x / 16, 0x0F));
    s[at + 1] := Uint4ToHex(And(x, 0x0F));
  }

  method PutOctet(env: array<u8>, at: nat, x: u8)
    requires at + 3 <= env.Length
    modifies env
    ensures env[..] == old(env[..at]) + (Octet(x) + [COLON]) + old(env[at + 3..])
  {
    Uint8ToHex(env, at, x);
    env[at + 2] := COLON;
  }

  lemma PutInside(before: seq<u8>, after: seq<u8>, at: nat, put: seq<u8>, past: nat)
    requires |before| == |after| && at + |put| <= past <= |before|
    requires after == before[..at] + put + before[at + |put|..]
    ensures after[..at + |put|] == before[..at] + put && after[past..] == before[past..]
  {
  }

  /** Copies s and a NUL to the start of env. */
  method StrCpy(env: array<u8>, s: seq<u8>)
    requires env.Length > |s|
    modifies env
    ensures env[..] == s + [0] + old(env[|s| + 1..])
  {
    for i := 0 to |s|
      invariant forall k | 0 <= k < i :: env[k] == s[k]
      invariant forall k | i <= k < env.Length :: env[k] == old(env[k])
    {
      env[i] := s[i];
    }
    env[|s|] := 0;
  }

  /** Fills exactly the first 27 bytes with the line for this address. */
  method MacToUbootEnvironment(env: array<u8>, mac: seq<u8>)
    requires env.Length >= 27 && |mac| == N_MAC
    modifies env
    ensures env[..] == Environment(mac) + old(env[27..])
    ensures Parse(env[..27]) == Some(mac)
  {
    StrCpy(env, PREFIX);
    PrefixDone(env[..], mac);
    for i := 0 to N_MAC
      invariant env[..IDX0 + 3 * i] == PREFIX + Octets(mac[..i])
      invariant env[27..] == old(env[27..])
    {
      ghost var before := env[..];
      PutOctet(env, IDX0 + 3 * i, mac[i]);
      OctetDone(before, env[..], mac, i);
    }
    assert mac[..N_MAC] == mac;
    ghost var before := env[..];
    env[IDX0 + 3 * N_MAC - 1] := NEWLINE;
    env[IDX0 + 3 * N_MAC] := 0;
    EndLine(before, env[..], mac);
    ParseIff(env[..27], mac);
  }

  lemma PrefixDone(b: seq<u8>, mac: seq<u8>)
    requires |b| > IDX0 && b[..IDX0 + 1] == PREFIX + [0]
    ensures b[..IDX0] == PREFIX + Octets(mac[..0])
  {
    assert b[..IDX0] == b[..IDX0 + 1][..IDX0] == PREFIX;
  }

  lemma OctetDone(before: seq<u8>, after: seq<u8>, mac: seq<u8>, i: nat)
    requires i < |mac| == N_MAC && |before| == |after| >= 27
    requires before[..IDX0 + 3 * i] == PREFIX + Octets(mac[..i])
    requires after == before[..IDX0 + 3 * i] + (Octet(mac[i]) + [COLON]) + before[IDX0 + 3 * i + 3..]
    ensures after[..IDX0 + 3 * (i + 1)] == PREFIX + Octets(mac[..i + 1]) && after[27..] == before[27..]
  {
    PutInside(before, after, IDX0 + 3 * i, Octet(mac[i]) + [COLON], 27);
    OctetsSnoc(mac[..i], mac[i]);
    assert mac[..i + 1] == mac[..i] + [mac[i]];
  }

  lemma EndLine(before: seq<u8>, after: seq<u8>, mac: seq<u8>)
    requires |mac| == N_MAC && |before| >= 27 && before[..26] == PREFIX + Octets(mac)
    requires after == before[25 := NEWLINE][26 := 0]
    ensures after[..27] == Environment(mac) && after == Environment(mac) + before[27..]
  {
    assert before[..25] == before[..26][..25] == PREFIX + Octets(mac)[..17];
    assert after[..27] == before[..25] + [NEWLINE, 0];
  }
}
