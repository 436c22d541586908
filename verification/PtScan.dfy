/**
  The Intel PT packet length table (vock/src/mode/engine.rs, `scan_packet` and `find_psb`).

  Every packet of a trace is measured here; the only state that crosses packets is the block scope
  opened by BBP and closed by BEP, which tells a BIP from a short TNT.
 */
module PtScan {
  import opened Prelude

  const OPC_PAD: byte := 0x00
  const OPC_EXT: byte := 0x02
  const OPC_MODE: byte := 0x99
  const OPC_TSC: byte := 0x19
  const OPC_MTC: byte := 0x59
  const OPC_TIP: byte := 0x0d
  const OPC_TIP_PGE: byte := 0x11
  const OPC_TIP_PGD: byte := 0x01
  const OPC_FUP: byte := 0x1d
  const CYC_MAX_LEN: nat := 9
  const PSB_LEN: nat := 16

  datatype Pkt =
    | Pad
    | Tnt8(payload: nat)
    | Tnt64(payload: nat)
    | Ip(opcode: byte, enc: nat)
    | Psb
    | Ovf
    | Bbp(wide: bool)
    | Bep
    | Skip
    | Bad
    | Truncated

  datatype Scan = Scan(pkt: Pkt, len: nat)

  /** Payload size of a TIP-family packet; encodings 5 and 7 are reserved. */
  function IpPayloadLen(enc: nat): (r: Option<nat>)
  {
    match enc
    case 0 => Some(0)
    case 1 => Some(2)
    case 2 => Some(4)
    case 3 => Some(6)
    case 4 => Some(6)
    case 6 => Some(8)
    case _ => None
  }

  const BAD: Scan := Scan(Bad, 0)
  const TRUNC: Scan := Scan(Truncated, 0)

  /** A packet of known length, unless the buffer ends inside it. */
  function Sized(pkt: Pkt, total: nat, avail: nat): (r: Scan)
  {
    if avail < total then TRUNC else Scan(pkt, total)
  }

  /** The two-byte opcodes `02 xx`; `s` starts at the `02`. */
  function ScanExt(s: seq<byte>): (r: Scan)
    requires |s| >= 1
    ensures r.pkt.Bad? || r.pkt.Truncated? || 2 <= r.len <= |s|
  {
    var avail := |s|;
    if avail < 2 then TRUNC else
    var e := s[1];
    if e == 0x82 then Sized(Psb, 16, avail)
    else if e == 0x23 then Sized(Skip, 2, avail)                     // PSBEND
    else if e == 0xa3 then
      if avail < 8 then TRUNC else Scan(Tnt64(LeValue(s[2..8])), 8)
    else if e == 0x43 then Sized(Skip, 8, avail)                     // PIP
    else if e == 0xf3 then Sized(Ovf, 2, avail)
    else if e == 0x03 then Sized(Skip, 4, avail)                     // CBR
    else if e == 0x73 then Sized(Skip, 7, avail)                     // TMA
    else if e == 0x83 then Sized(Skip, 2, avail)                     // TraceStop
    else if e == 0xc8 then Sized(Skip, 7, avail)                     // VMCS
    else if e == 0x62 || e == 0xe2 then Sized(Skip, 2, avail)        // EXSTOP
    else if e == 0xc2 then Sized(Skip, 12, avail)                    // MWAIT
    else if e == 0x22 then Sized(Skip, 4, avail)                     // PWRE
    else if e == 0xa2 then Sized(Skip, 7, avail)                     // PWRX
    else if e == 0x13 then Sized(Skip, 4, avail)                     // CFE
    else if e == 0x53 then Sized(Skip, 9, avail)                     // EVD
    else if e == 0x33 || e == 0xb3 then Sized(Bep, 2, avail)
    else if e == 0x63 then
      if avail < 3 then TRUNC else Scan(Bbp(s[2] >= 0x80), 3)
    else if e == 0xc3 then
      if avail < 3 then TRUNC
      else if s[2] == 0x88 then Sized(Skip, 11, avail)               // MNT
      else BAD
    else if e % 32 == 0x12 then                                      // PTW
      if e / 32 % 4 == 0 then Sized(Skip, 6, avail)
      else if e / 32 % 4 == 1 then Sized(Skip, 10, avail)
      else BAD
    else BAD
  }

  /** CYC: follow the continuation flags; `n` bytes have been accepted so far. */
  function ScanCyc(s: seq<byte>, n: nat, more: bool): (r: Scan)
    requires 1 <= n <= |s|
    ensures r == BAD || r == TRUNC || (r.pkt.Skip? && n <= r.len <= |s|)
    decreases |s| - n
  {
    if !more then Scan(Skip, n)
    else if n >= CYC_MAX_LEN then BAD
    else if n >= |s| then TRUNC
    else ScanCyc(s, n + 1, s[n] % 2 == 1)
  }

  predicate IsIpOpcode(short: nat)
  {
    short == OPC_TIP || short == OPC_FUP || short == OPC_TIP_PGE || short == OPC_TIP_PGD
  }

  /** The packet at the head of `s`. */
  function ScanHead(s: seq<byte>, block: Option<nat>): (r: Scan)
    requires |s| >= 1
    ensures r.pkt.Bad? || r.pkt.Truncated? || 1 <= r.len <= |s|
    ensures r.pkt.Ip? ==> IpPayloadLen(r.pkt.enc).Some? && r.len == 1 + IpPayloadLen(r.pkt.enc).value
    ensures r.pkt.Tnt8? ==> 0 < r.pkt.payload < 128
    ensures r.pkt.Tnt64? ==> r.len == 8 && r.pkt.payload == LeValue(s[2..8])
  {
    var avail := |s|;
    var b := s[0];
    if b == OPC_PAD then Scan(Pad, 1)
    else if b == OPC_EXT then ScanExt(s)
    else if b == OPC_MODE then Sized(Skip, 2, avail)
    else if b == OPC_TSC then Sized(Skip, 8, avail)
    else if b == OPC_MTC then Sized(Skip, 2, avail)
    else if IsIpOpcode(b % 32) then
      (match IpPayloadLen(b / 32)
       case None => BAD
       case Some(n) => Sized(Ip(b % 32, b / 32), 1 + n, avail))
    else if block.Some? && b % 8 == 4 then Sized(Skip, 1 + block.value, avail)   // BIP
    else if b % 4 == 3 then ScanCyc(s, 1, b / 4 % 2 == 1)
    else if b % 2 == 0 then Scan(Tnt8(b / 2), 1)
    else BAD
  }

  /**
    `scan_packet`: an accepted packet is never empty and always lies inside the buffer.
   */
  function ScanPacket(data: seq<byte>, pos: nat, block: Option<nat>): (r: Scan)
    ensures r.pkt.Bad? || r.pkt.Truncated? || (1 <= r.len && pos + r.len <= |data|)
    ensures r.pkt.Ip? ==> IpPayloadLen(r.pkt.enc).Some? && r.len == 1 + IpPayloadLen(r.pkt.enc).value
    ensures pos >= |data| ==> r == TRUNC
  {
    if pos >= |data| then TRUNC else ScanHead(data[pos..], block)
  }

  function PsbBytes(): (s: seq<byte>)
    ensures |s| == PSB_LEN
  {
    [0x02, 0x82, 0x02, 0x82, 0x02, 0x82, 0x02, 0x82, 0x02, 0x82, 0x02, 0x82, 0x02, 0x82, 0x02, 0x82]
  }

  predicate PsbAt(data: seq<byte>, i: nat)
  {
    i + PSB_LEN <= |data| && data[i..i + PSB_LEN] == PsbBytes()
  }

  /** `find_psb`: the first PSB at or after `from`. */
  function FindPsb(data: seq<byte>, from: nat): (r: Option<nat>)
    ensures r.Some? ==> from <= r.value && PsbAt(data, r.value)
    ensures r.Some? ==> forall i :: from <= i < r.value ==> !PsbAt(data, i)
    ensures r.None? ==> forall i :: from <= i ==> !PsbAt(data, i)
    decreases |data| - from
  {
    if from + PSB_LEN > |data| then None
    else if PsbAt(data, from) then Some(from)
    else FindPsb(data, from + 1)
  }

  // ---- scanning is local

  /** Cutting the buffer can only turn a packet into a truncated one. */
  lemma ScanPrefix(s: seq<byte>, n: nat, block: Option<nat>)
    requires 1 <= n <= |s|
    ensures ScanHead(s[..n], block).pkt.Truncated? || ScanHead(s[..n], block) == ScanHead(s, block)
  {
    var t := s[..n];
    if t[0] == OPC_EXT {
      ExtPrefix(s, n);
    } else if t[0] % 4 == 3 {
      CycPrefix(s, n, 1, t[0] / 4 % 2 == 1);
    }
  }

  lemma ExtPrefix(s: seq<byte>, n: nat)
    requires 1 <= n <= |s|
    ensures ScanExt(s[..n]).pkt.Truncated? || ScanExt(s[..n]) == ScanExt(s)
  {
    if n >= 8 {
      assert s[..n][2..8] == s[2..8];
    }
  }

  lemma {:induction false} CycPrefix(s: seq<byte>, m: nat, n: nat, more: bool)
    requires 1 <= n <= m <= |s|
    ensures ScanCyc(s[..m], n, more).pkt.Truncated? || ScanCyc(s[..m], n, more) == ScanCyc(s, n, more)
    decreases m - n
  {
    if more && n < CYC_MAX_LEN && n < m {
      CycPrefix(s, m, n + 1, s[n] % 2 == 1);
    }
  }

  /** Looking for a PSB in a suffix is looking for it in the whole, shifted. */
  lemma {:induction false} FindPsbShift(data: seq<byte>, q: nat, from: nat)
    requires q <= from && q <= |data|
    ensures FindPsb(data, from).Some? <==> FindPsb(data[q..], from - q).Some?
    ensures FindPsb(data, from).Some? ==> FindPsb(data, from).value == FindPsb(data[q..], from - q).value + q
    decreases |data| - from
  {
    if from + PSB_LEN <= |data| {
      assert data[q..][from - q..from - q + PSB_LEN] == data[from..from + PSB_LEN];
      if !PsbAt(data, from) {
        FindPsbShift(data, q, from + 1);
      }
    }
  }

  /** A PSB found in a prefix is the one found in the whole buffer. */
  lemma {:induction false} FindPsbPrefix(data: seq<byte>, n: nat, from: nat)
    requires n <= |data|
    ensures FindPsb(data[..n], from).Some? ==> FindPsb(data, from) == FindPsb(data[..n], from)
    decreases |data| - from
  {
    if from + PSB_LEN <= n {
      assert data[..n][from..from + PSB_LEN] == data[from..from + PSB_LEN];
      if !PsbAt(data, from) {
        FindPsbPrefix(data, n, from + 1);
      }
    }
  }
}
