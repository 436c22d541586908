/**
  Which bytes the packet scanner of vock/src/mode/engine.rs refuses: exactly those that are neither a
  packet the architecture defines nor the beginning of one, but for the two liberties it takes, the body
  of a PSB and a long TNT packet without a stop bit.  With `ScanReadBack` this fixes the scanner.
 */
module PtConverse {
  import opened Prelude
  import opened PtScan
  import opened PtDecode
  import opened PtPackets

  // ---- payloads, written back

  lemma {:induction false} TntWrittenBack(p: nat)
    requires p >= 1
    ensures TntPayload(Outcomes(p)) == p && Pow2(|Outcomes(p)|) <= p
    decreases p
  {
    if p > 1 {
      TntWrittenBack(p / 2);
      var o := Outcomes(p);
      assert o[..|o| - 1] == Outcomes(p / 2);
    }
  }

  lemma OutcomesFit(p: nat, n: nat)
    requires 1 <= p < Pow2(n + 1)
    ensures |Outcomes(p)| <= n && TntPayload(Outcomes(p)) == p
  {
    hide Pow2, Outcomes, TntPayload;
    TntWrittenBack(p);
    if |Outcomes(p)| > n {
      Pow2Monotone(n + 1, |Outcomes(p)|);
    }
  }

  /** A 48-bit value, sign-extended. */
  function Extended(v: nat): (ip: u64)
    requires v < 0x1_0000_0000_0000
  {
    if v >= 0x8000_0000_0000 then v + 0xffff_0000_0000_0000 else v
  }

  /** The same low bytes give the same payload. */
  lemma LeSame(v: nat, u: nat, n: nat)
    requires v % Pow256(n) == u % Pow256(n)
    ensures LeBytes(v, n) == LeBytes(u, n)
  {
    LeLow(v, n);
    LeLow(u, n);
  }

  lemma LeLow(v: nat, n: nat)
    ensures LeBytes(v, n) == LeBytes(v % Pow256(n), n)
  {
    hide LeValue, Pow256;
    LeTruncates(v, n);
    LeSize(v, n);
    LeWrittenBack(LeBytes(v, n));
  }

  // ---- the two liberties

  /** The scanner looks at the first two bytes of a PSB only. */
  predicate LikePsb(s: seq<byte>)
  {
    [0x02, 0x82] <= s
  }

  /** A long TNT packet whose payload is zero has no stop bit. */
  predicate StopLess(s: seq<byte>)
  {
    [0x02, 0xa3, 0, 0, 0, 0, 0, 0] <= s
  }

  // ---- accepted bytes are packets

  ghost predicate Fits(p: Packet, s: seq<byte>, r: Scan, block: Option<nat>)
  {
    && (exists last: u64 :: Allowed(p, block, last))
    && Encode(p) <= s && KindOf(p) == r.pkt && |Encode(p)| == r.len
  }

  lemma FitsPlain(k: Plain, s: seq<byte>, block: Option<nat>) returns (p: Packet)
    requires PlainOpcode(k) <= s && |PlainOpcode(k)| + PlainPayload(k) <= |s|
    ensures Fits(p, s, Scan(Skip, |PlainOpcode(k)| + PlainPayload(k)), block)
  {
    var n := |PlainOpcode(k)|;
    var payload := s[n..n + PlainPayload(k)];
    p := PlainPkt(k, payload);
    hide PlainOpcode, PlainPayload;
    assert Allowed(p, block, 0);
    assert PlainOpcode(k) + payload == s[..n + |payload|];
  }

  /** The packet kinds behind `02 xx` that carry nothing the decoders use, by their second byte. */
  function PlainOf(e: byte): (k: Option<Plain>)
  {
    if e == 0x23 then Some(PsbEnd)
    else if e == 0x43 then Some(Pip)
    else if e == 0x03 then Some(Cbr)
    else if e == 0x73 then Some(Tma)
    else if e == 0x83 then Some(TraceStop)
    else if e == 0xc8 then Some(Vmcs)
    else if e == 0x62 then Some(ExStop(false))
    else if e == 0xe2 then Some(ExStop(true))
    else if e == 0xc2 then Some(Mwait)
    else if e == 0x22 then Some(Pwre)
    else if e == 0xa2 then Some(Pwrx)
    else if e == 0x13 then Some(Cfe)
    else if e == 0x53 then Some(Evd)
    else if e == 0x12 then Some(Ptw(false, false))
    else if e == 0x92 then Some(Ptw(false, true))
    else if e == 0x32 then Some(Ptw(true, false))
    else if e == 0xb2 then Some(Ptw(true, true))
    else None
  }

  lemma PlainOfIs(e: byte)
    requires PlainOf(e).Some?
    ensures PlainOpcode(PlainOf(e).value) == [0x02, e]
  {
  }

  /** What the scanner says of `02 e` when `e` is one of them. */
  lemma ScanPlain(s: seq<byte>)
    requires |s| >= 2 && s[0] == 0x02 && PlainOf(s[1]).Some?
    ensures ScanExt(s) == Sized(Skip, 2 + PlainPayload(PlainOf(s[1]).value), |s|)
  {
    hide LeValue;
  }

  /** What it says of any other second byte. */
  lemma ScanOther(s: seq<byte>)
    requires |s| >= 2 && s[0] == 0x02 && PlainOf(s[1]).None?
    ensures var r := ScanExt(s);
            if s[1] == 0x82 then r == Sized(Psb, 16, |s|)
            else if s[1] == 0xf3 then r == Scan(Ovf, 2)
            else if s[1] == 0x33 || s[1] == 0xb3 then r == Scan(Bep, 2)
            else if s[1] == 0xa3 then r == if |s| < 8 then TRUNC else Scan(Tnt64(LeValue(s[2..8])), 8)
            else if s[1] == 0x63 then r == if |s| < 3 then TRUNC else Scan(Bbp(s[2] >= 0x80), 3)
            else if s[1] == 0xc3 then
              r == if |s| < 3 then TRUNC else if s[2] == 0x88 then Sized(Skip, 11, |s|) else BAD
            else r == BAD
  {
    hide LeValue;
  }

  lemma ExtAccepted(s: seq<byte>, block: Option<nat>) returns (p: Packet)
    requires |s| >= 1 && s[0] == 0x02 && !ScanExt(s).pkt.Bad? && !ScanExt(s).pkt.Truncated?
    requires !LikePsb(s) && !StopLess(s)
    ensures Fits(p, s, ScanExt(s), block)
  {
    hide ScanExt, LeValue, Fits;
    assert |s| >= 2 by {
      if |s| == 1 {
        ShortExt(s);
      }
    }
    if PlainOf(s[1]).Some? {
      ScanPlain(s);
      PlainOfIs(s[1]);
      assert PlainOpcode(PlainOf(s[1]).value) <= s;
      p := FitsPlain(PlainOf(s[1]).value, s, block);
    } else {
      ScanOther(s);
      if s[1] == 0xa3 {
        p := LongAccepted(s, block);
      } else if s[1] == 0xc3 {
        p := FitsPlain(Mnt, s, block);
      } else {
        p := if s[1] == 0xf3 then OvfPkt
             else if s[1] == 0x63 then BbpPkt(s[2])
             else BepPkt(s[1] == 0xb3);
        SmallFits(p, s, ScanExt(s), block);
      }
    }
  }

  lemma ShortExt(s: seq<byte>)
    requires |s| == 1
    ensures ScanExt(s) == TRUNC
  {
  }

  lemma SmallFits(p: Packet, s: seq<byte>, r: Scan, block: Option<nat>)
    requires p.OvfPkt? || p.BbpPkt? || p.BepPkt? || p.PadPkt?
    requires Encode(p) <= s && KindOf(p) == r.pkt && |Encode(p)| == r.len
    ensures Fits(p, s, r, block)
  {
    assert Allowed(p, block, 0);
  }

  lemma LongAccepted(s: seq<byte>, block: Option<nat>) returns (p: Packet)
    requires |s| >= 8 && s[0] == 0x02 && s[1] == 0xa3 && !StopLess(s)
    ensures Fits(p, s, Scan(Tnt64(LeValue(s[2..8])), 8), block)
  {
    hide LeValue, LeBytes, Outcomes, TntPayload, Pow2, Pow256, StopLess;
    var v := LeValue(s[2..8]);
    LeWrittenBack(s[2..8]);
    StopBit(s);
    OutcomesFit(v, 47);
    p := LongTnt(Outcomes(v));
    assert Allowed(p, block, 0);
    assert [0x02, 0xa3] + s[2..8] == s[..8];
  }

  lemma StopBit(s: seq<byte>)
    requires |s| >= 8 && s[0] == 0x02 && s[1] == 0xa3 && !StopLess(s)
    ensures 1 <= LeValue(s[2..8]) < Pow2(48)
  {
    hide LeValue, LeBytes, Pow2, Pow256;
    Pow2At48();
    Pow256Values();
    LeBelow(s[2..8]);
    if LeValue(s[2..8]) == 0 {
      LeWrittenBack(s[2..8]);
      LeZeros(6);
    }
  }

  lemma LeBelow(s: seq<byte>)
    ensures LeValue(s) < Pow256(|s|)
  {
  }

  // ---- CYC

  lemma {:induction false} CycShape(s: seq<byte>, n: nat, more: bool)
    requires 1 <= n <= |s|
    ensures var r := ScanCyc(s, n, more);
            && (r.pkt.Skip? ==>
                  && n <= r.len <= |s| && (more <==> r.len > n) && (r.len > n ==> r.len <= CYC_MAX_LEN)
                  && forall i :: n <= i < r.len ==> (s[i] % 2 == 1 <==> i + 1 < r.len))
            && (r == TRUNC ==> more && |s| < CYC_MAX_LEN && forall i :: n <= i < |s| ==> s[i] % 2 == 1)
    decreases |s| - n
  {
    if more && n < CYC_MAX_LEN && n < |s| {
      CycShape(s, n + 1, s[n] % 2 == 1);
    }
  }

  lemma CycAccepted(s: seq<byte>, block: Option<nat>) returns (p: Packet)
    requires |s| >= 1 && s[0] % 4 == 3
    requires var r := ScanCyc(s, 1, s[0] / 4 % 2 == 1); !r.pkt.Bad? && !r.pkt.Truncated?
    ensures Fits(p, s, ScanCyc(s, 1, s[0] / 4 % 2 == 1), block)
  {
    hide ScanCyc;
    CycShape(s, 1, s[0] / 4 % 2 == 1);
    CycKinds(s, 1, s[0] / 4 % 2 == 1);
    var r := ScanCyc(s, 1, s[0] / 4 % 2 == 1);
    p := CycPkt(s[0], s[1..r.len]);
    assert Allowed(p, block, 0);
    assert [s[0]] + s[1..r.len] == s[..r.len];
  }

  lemma CycKinds(s: seq<byte>, n: nat, more: bool)
    requires 1 <= n <= |s|
    ensures var r := ScanCyc(s, n, more); r == BAD || r == TRUNC || r.pkt.Skip?
  {
  }

  // ---- the other packets

  lemma IpAccepted(s: seq<byte>, block: Option<nat>) returns (p: Packet)
    requires |s| >= 1 && IsIpOpcode(s[0] % 32) && IpPayloadLen(s[0] / 32).Some?
    requires 1 + IpPayloadLen(s[0] / 32).value <= |s|
    ensures Fits(p, s, Scan(Ip(s[0] % 32, s[0] / 32), 1 + IpPayloadLen(s[0] / 32).value), block)
  {
    hide LeBytes, LeValue, Pow256, Encode, KindOf, Defined, Compressible;
    var enc, n := s[0] / 32, IpPayloadLen(s[0] / 32).value;
    var short := s[0] % 32;
    var kind := if short == OPC_TIP then Tip else if short == OPC_FUP then Fup
                else if short == OPC_TIP_PGE then TipPge else TipPgd;
    var ip := IpFor(enc, s[1..1 + n]);
    IpPacket(kind, enc, ip);
    p := IpPkt(kind, enc, ip);
    assert 32 * enc + short == s[0];
    assert Allowed(p, block, ip);
    assert [s[0]] + s[1..1 + n] == s[..1 + n];
  }

  lemma IpPacket(kind: IpKind, enc: nat, ip: u64)
    requires IpPayloadLen(enc).Some?
    ensures Defined(IpPkt(kind, enc, ip)) && KindOf(IpPkt(kind, enc, ip)) == Ip(IpOpcode(kind), enc)
    ensures Encode(IpPkt(kind, enc, ip)) == [32 * enc + IpOpcode(kind)] + LeBytes(ip, IpPayloadLen(enc).value)
  {
    hide LeBytes;
  }

  /** An address whose low bytes are the payload, canonical where it is extended. */
  lemma IpFor(enc: nat, payload: seq<byte>) returns (ip: u64)
    requires IpPayloadLen(enc) == Some(|payload|)
    ensures LeBytes(ip, |payload|) == payload && Compressible(ip, enc, ip)
  {
    hide LeBytes, LeValue, Pow256;
    var n := |payload|;
    var v := LeValue(payload);
    Pow256Values();
    LeBelow(payload);
    LeWrittenBack(payload);
    assert n == 0 ==> payload == [] && LeBytes(0, 0) == [] by { LeZeros(0); }
    if enc == 3 {
      ip := Extended(v);
      assert Extended(v) % Pow256(6) == v % Pow256(6);
      LeSame(Extended(v), v, 6);
    } else if enc == 0 {
      ip := 0;
    } else {
      ip := v;
    }
  }

  lemma ShortAccepted(s: seq<byte>, block: Option<nat>) returns (p: Packet)
    requires |s| >= 1 && s[0] % 2 == 0 && s[0] >= 4 && (block.Some? ==> s[0] % 8 != 4)
    ensures Fits(p, s, Scan(Tnt8(s[0] / 2), 1), block)
  {
    hide Pow2, TntPayload, Outcomes, Encode, KindOf, Defined;
    var v: nat := s[0] / 2;
    ShortPacket(v);
    p := ShortTnt(Outcomes(v));
    assert 2 * TntPayload(Outcomes(v)) == s[0];
    assert Allowed(p, block, 0);
    assert [s[0]] == s[..1];
  }

  lemma ShortPacket(v: nat)
    requires 2 <= v < 128
    ensures Defined(ShortTnt(Outcomes(v))) && TntPayload(Outcomes(v)) == v
    ensures Encode(ShortTnt(Outcomes(v))) == [2 * v] && KindOf(ShortTnt(Outcomes(v))) == Tnt8(v)
  {
    assert Pow2(7) == 128;
    hide Pow2, TntPayload, Outcomes;
    OutcomesFit(v, 6);
    SomeOutcome(v);
  }

  lemma SomeOutcome(v: nat)
    requires v >= 2
    ensures |Outcomes(v)| >= 1
  {
  }

  lemma BipAccepted(s: seq<byte>, n: nat) returns (p: Packet)
    requires |s| >= 1 + n && s[0] % 8 == 4
    ensures Fits(p, s, Scan(Skip, 1 + n), Some(n))
  {
    p := BipPkt(s[0] / 8, s[1..1 + n]);
    assert Allowed(p, Some(n), 0);
    assert [s[0]] + s[1..1 + n] == s[..1 + n];
  }

  /** The first byte decides which rule applies. */
  lemma ScanBranches(s: seq<byte>, block: Option<nat>)
    requires |s| >= 1
    ensures var b, r := s[0], ScanHead(s, block);
            if b == 0x00 then r == Scan(Pad, 1)
            else if b == 0x02 then r == ScanExt(s)
            else if b == 0x99 || b == 0x59 then r == Sized(Skip, 2, |s|)
            else if b == 0x19 then r == Sized(Skip, 8, |s|)
            else if IsIpOpcode(b % 32) then
              r == (if IpPayloadLen(b / 32).None? then BAD
                    else Sized(Ip(b % 32, b / 32), 1 + IpPayloadLen(b / 32).value, |s|))
            else if block.Some? && b % 8 == 4 then r == Sized(Skip, 1 + block.value, |s|)
            else if b % 4 == 3 then r == ScanCyc(s, 1, b / 4 % 2 == 1)
            else if b % 2 == 0 then r == Scan(Tnt8(b / 2), 1)
            else r == BAD
  {
    hide ScanExt, ScanCyc;
  }

  /** Whatever the scanner accepts, liberties aside, is byte for byte a packet that may stand there. */
  lemma Accepted(s: seq<byte>, block: Option<nat>) returns (p: Packet)
    requires |s| >= 1 && !LikePsb(s) && !StopLess(s)
    requires var r := ScanHead(s, block); !r.pkt.Bad? && !r.pkt.Truncated?
    ensures Fits(p, s, ScanHead(s, block), block)
  {
    hide ScanHead, ScanExt, ScanCyc, Fits;
    ScanBranches(s, block);
    var b := s[0];
    if b == 0x00 {
      p := PadPkt;
      SmallFits(p, s, ScanHead(s, block), block);
    } else if b == 0x02 {
      p := ExtAccepted(s, block);
    } else if b == 0x99 {
      p := FitsPlain(Mode, s, block);
    } else if b == 0x59 {
      p := FitsPlain(Mtc, s, block);
    } else if b == 0x19 {
      p := FitsPlain(Tsc, s, block);
    } else if IsIpOpcode(b % 32) {
      p := IpAccepted(s, block);
    } else if block.Some? && b % 8 == 4 {
      p := BipAccepted(s, block.value);
    } else if b % 4 == 3 {
      p := CycAccepted(s, block);
    } else {
      p := ShortAccepted(s, block);
    }
  }

  // ---- truncated bytes begin a packet

  /** `s` ends inside a packet that may stand there. */
  ghost predicate Begins(s: seq<byte>, p: Packet, block: Option<nat>)
  {
    && (exists last: u64 :: Allowed(p, block, last))
    && s <= Encode(p) && |s| < |Encode(p)|
  }

  /** Completing the bytes makes them a packet, if the scanner then accepts them. */
  lemma Completed(s: seq<byte>, more: seq<byte>, block: Option<nat>) returns (p: Packet)
    requires |s| >= 1 && !LikePsb(s + more) && !StopLess(s + more)
    requires var r := ScanHead(s + more, block); !r.pkt.Bad? && !r.pkt.Truncated? && |s| < r.len
    ensures Begins(s, p, block)
  {
    hide ScanHead, LikePsb, StopLess, Defined, Encode, TntPayload, Compressible;
    p := Accepted(s + more, block);
    assert s <= s + more;
    assert s <= Encode(p);
  }

  ghost function Ones(n: nat): (s: seq<byte>)
  {
    seq(n, _ => 128)
  }

  /** Enough bytes with the top bit set, and the low bit clear, complete anything. */
  lemma TruncatedBegins(s: seq<byte>, block: Option<nat>) returns (p: Packet)
    requires |s| >= 1 && ScanHead(s, block).pkt.Truncated? && !LikePsb(s)
    ensures Begins(s, p, block)
  {
    hide ScanHead, ScanExt, ScanCyc, Begins;
    if s == [0x02] {
      assert (s + [0x23])[1] == 0x23;
      ExtCompleted(s, [0x23], block);
      p := Completed(s, [0x23], block);
    } else if |s| == 2 && s[0] == 0x02 && s[1] == 0xc3 {
      var more := [0x88] + Ones(8);
      assert (s + more)[2] == 0x88;
      ExtCompleted(s, more, block);
      p := Completed(s, more, block);
    } else {
      var n := if block.Some? then block.value + 16 else 16;
      LongCompleted(s, n, block);
      p := Completed(s, Ones(n), block);
    }
  }

  lemma ExtCompleted(s: seq<byte>, more: seq<byte>, block: Option<nat>)
    requires |s| >= 1 && s[0] == 0x02 && |s + more| >= 2 && !LikePsb(s + more)
    requires (s == [0x02] && more == [0x23]) || (s == [0x02, 0xc3] && more == [0x88] + Ones(8))
    ensures var r := ScanHead(s + more, block); !r.pkt.Bad? && !r.pkt.Truncated? && |s| < r.len
    ensures !StopLess(s + more)
  {
    hide ScanHead, ScanExt;
    var t := s + more;
    ScanBranches(t, block);
    if s == [0x02] {
      assert t[1] == 0x23;
      ScanPlain(t);
    } else {
      assert t[1] == 0xc3 && t[2] == 0x88 && |t| == 11;
      ScanOther(t);
    }
  }

  lemma LongCompleted(s: seq<byte>, n: nat, block: Option<nat>)
    requires |s| >= 1 && ScanHead(s, block).pkt.Truncated? && !LikePsb(s)
    requires s != [0x02] && !(|s| == 2 && s[0] == 0x02 && s[1] == 0xc3)
    requires n == if block.Some? then block.value + 16 else 16
    ensures var t := s + Ones(n);
            var r := ScanHead(t, block);
            !LikePsb(t) && !StopLess(t) && !r.pkt.Bad? && !r.pkt.Truncated? && |s| < r.len
  {
    hide ScanHead, ScanExt, ScanCyc;
    var t := s + Ones(n);
    ScanBranches(s, block);
    ScanBranches(t, block);
    assert t[0] == s[0];
    if s[0] == 0x02 {
      assert |s| >= 2 && t[1] == s[1];
      ExtLonger(s, t);
    } else if s[0] % 4 == 3 && s[0] != 0x99 && s[0] != 0x59 && s[0] != 0x19 && !IsIpOpcode(s[0] % 32)
           && !(block.Some? && s[0] % 8 == 4) {
      CycLonger(s, t);
    }
  }

  lemma ExtLonger(s: seq<byte>, t: seq<byte>)
    requires |s| >= 2 && s[0] == 0x02 && s[1] != 0x82 && !(|s| == 2 && s[1] == 0xc3)
    requires ScanExt(s).pkt.Truncated? && |t| >= |s| + 16 && s <= t && forall i :: |s| <= i < |t| ==> t[i] == 128
    ensures var r := ScanExt(t); !r.pkt.Bad? && !r.pkt.Truncated? && |s| < r.len && !StopLess(t)
  {
    hide ScanExt, LeValue;
    if PlainOf(s[1]).Some? {
      ScanPlain(s);
      ScanPlain(t);
    } else {
      ScanOther(s);
      ScanOther(t);
      if s[1] == 0xa3 {
        assert t[7] == 128;
      }
    }
  }

  lemma CycLonger(s: seq<byte>, t: seq<byte>)
    requires |s| >= 1 && |t| > |s| && s <= t && t[|s|] == 128
    requires ScanCyc(s, 1, s[0] / 4 % 2 == 1).pkt.Truncated?
    ensures ScanCyc(t, 1, t[0] / 4 % 2 == 1) == Scan(Skip, |s| + 1)
  {
    hide ScanCyc;
    CycShape(s, 1, s[0] / 4 % 2 == 1);
    CycKinds(s, 1, s[0] / 4 % 2 == 1);
    CycReadBack(t, 1, |s| + 1);
  }

  // ---- and nothing else is

  /** Some packet that may stand there begins with `s` or is its beginning. */
  ghost predicate Readable(s: seq<byte>, block: Option<nat>)
  {
    exists p, last: u64 :: Allowed(p, block, last) && (Encode(p) <= s || s <= Encode(p))
  }

  /** A packet that agrees with `s` as far as both go is scanned like `s`, if `s` is long enough. */
  lemma ScannedAlike(p: Packet, last: u64, s: seq<byte>, block: Option<nat>)
    requires |s| >= 1 && Allowed(p, block, last) && (Encode(p) <= s || s <= Encode(p))
    ensures ScanHead(s, block).pkt.Truncated? || ScanHead(s, block) == Scan(KindOf(p), |Encode(p)|)
  {
    hide ScanHead, Defined, Encode, TntPayload, Compressible;
    if Encode(p) <= s {
      var rest := s[|Encode(p)|..];
      assert s == Encode(p) + rest;
      ScanReadBack(p, block, last, rest);
    } else {
      ScanReadBack(p, block, last, []);
      assert Encode(p) + [] == Encode(p) && Encode(p)[..|s|] == s;
      ScanPrefix(Encode(p), |s|, block);
    }
  }

  lemma ReadableNotBad(p: Packet, last: u64, s: seq<byte>, block: Option<nat>)
    requires |s| >= 1 && Allowed(p, block, last) && (Encode(p) <= s || s <= Encode(p))
    ensures !ScanHead(s, block).pkt.Bad?
  {
    hide ScanHead, Defined, Encode, TntPayload, Compressible;
    KindNotBad(p);
    ScannedAlike(p, last, s, block);
  }

  lemma KindNotBad(p: Packet)
    ensures !KindOf(p).Bad? && !KindOf(p).Truncated?
  {
  }

  lemma FitsReadable(p: Packet, s: seq<byte>, r: Scan, block: Option<nat>)
    requires Fits(p, s, r, block) || Begins(s, p, block)
    ensures Readable(s, block)
  {
    hide Defined, Encode, TntPayload, Compressible;
  }

  lemma LibertyNotBad(s: seq<byte>, block: Option<nat>)
    requires LikePsb(s) || StopLess(s)
    ensures !ScanHead(s, block).pkt.Bad?
  {
    hide ScanHead, ScanExt, LeValue;
    ScanBranches(s, block);
    ScanOther(s);
  }

  /**
    The scanner refuses exactly the bytes that no packet begins with and that begin no packet: for any
    buffer and block scope, liberties aside.
   */
  lemma BadExact(s: seq<byte>, block: Option<nat>)
    requires |s| >= 1
    ensures ScanHead(s, block).pkt.Bad? <==> !Readable(s, block) && !LikePsb(s) && !StopLess(s)
  {
    hide ScanHead, LikePsb, StopLess, Readable, Fits, Begins;
    var r := ScanHead(s, block);
    if LikePsb(s) || StopLess(s) {
      LibertyNotBad(s, block);
    } else if r.pkt.Bad? {
      if Readable(s, block) {
        SomeReadable(s, block);
      }
    } else if r.pkt.Truncated? {
      var p := TruncatedBegins(s, block);
      FitsReadable(p, s, r, block);
    } else {
      var p := Accepted(s, block);
      FitsReadable(p, s, r, block);
    }
  }

  lemma SomeReadable(s: seq<byte>, block: Option<nat>)
    requires |s| >= 1 && Readable(s, block)
    ensures !ScanHead(s, block).pkt.Bad?
  {
    hide ScanHead, Defined, Encode, TntPayload, Compressible;
    var p, last: u64 :| Allowed(p, block, last) && (Encode(p) <= s || s <= Encode(p));
    ReadableNotBad(p, last, s, block);
  }

  // ---- when the liberties matter

  /** A beginning that only looks like a PSB. */
  predicate FalsePsb(s: seq<byte>)
  {
    LikePsb(s) && !(PsbBytes() <= s || s <= PsbBytes())
  }

  lemma KindsTell(p: Packet)
    ensures KindOf(p) == Psb ==> p == PsbPkt
    ensures KindOf(p) != Tnt64(0)
  {
    hide TntPayload, Pow2;
    match p
    case LongTnt(o) => TntBound(o);
    case _ =>
  }

  lemma ScanLikePsb(s: seq<byte>, block: Option<nat>)
    requires LikePsb(s)
    ensures ScanHead(s, block) == if |s| < 16 then TRUNC else Scan(Psb, 16)
  {
    hide ScanHead, ScanExt;
    ScanBranches(s, block);
    ScanOther(s);
  }

  lemma ScanStopLess(s: seq<byte>, block: Option<nat>)
    requires StopLess(s)
    ensures ScanHead(s, block) == Scan(Tnt64(0), 8)
  {
    hide ScanHead, ScanExt, LeValue, LeBytes;
    ScanBranches(s, block);
    ScanOther(s);
    assert s[2..8] == seq(6, _ => 0);
    LeZeros(6);
    LeTruncates(0, 6);
  }

  lemma PsbAlone(p: Packet, last: u64, s: seq<byte>, block: Option<nat>)
    requires LikePsb(s) && Allowed(p, block, last) && (Encode(p) <= s || s <= Encode(p))
    ensures p == PsbPkt
  {
    hide ScanHead, Defined, Encode, TntPayload, Compressible, KindOf;
    KindsTell(p);
    KindNotBad(p);
    if Encode(p) <= s {
      var rest := s[|Encode(p)|..];
      assert s == Encode(p) + rest;
      ScanReadBack(p, block, last, rest);
      ScanLikePsb(s, block);
    } else {
      ScanReadBack(p, block, last, []);
      assert Encode(p) + [] == Encode(p);
      ScanLikePsb(Encode(p), block);
    }
  }

  lemma PsbPacket(block: Option<nat>)
    ensures Allowed(PsbPkt, block, 0) && Encode(PsbPkt) == PsbBytes()
  {
  }

  lemma PsbReadable(s: seq<byte>, block: Option<nat>)
    requires LikePsb(s)
    ensures Readable(s, block) <==> !FalsePsb(s)
  {
    hide Defined, Encode, TntPayload, Compressible, LikePsb, PsbBytes;
    PsbPacket(block);
    if p, last: u64 :| Allowed(p, block, last) && (Encode(p) <= s || s <= Encode(p)) {
      PsbAlone(p, last, s, block);
    }
  }

  lemma StopLessUnreadable(s: seq<byte>, block: Option<nat>)
    requires StopLess(s)
    ensures !Readable(s, block)
  {
    hide ScanHead, Defined, Encode, TntPayload, Compressible, KindOf, StopLess;
    if p, last: u64 :| Allowed(p, block, last) && (Encode(p) <= s || s <= Encode(p)) {
      assert |s| >= 1 by { NotEmpty(s); }
      ScannedAlike(p, last, s, block);
      ScanStopLess(s, block);
      KindsTell(p);
    }
  }

  lemma NotEmpty(s: seq<byte>)
    requires StopLess(s) || LikePsb(s)
    ensures |s| >= 2
  {
  }

  /**
    The scanner refuses exactly what is no packet, unless the bytes look like a PSB and are none, or are
    a long TNT without a stop bit.
   */
  lemma RefusesExact(s: seq<byte>, block: Option<nat>)
    requires |s| >= 1
    ensures (ScanHead(s, block).pkt.Bad? <==> !Readable(s, block)) <==> !FalsePsb(s) && !StopLess(s)
  {
    BadExact(s, block);
    if LikePsb(s) {
      PsbReadable(s, block);
    }
    if StopLess(s) {
      StopLessUnreadable(s, block);
    }
    hide ScanHead, Readable, StopLess, PsbBytes;
  }

  /** The opcode of a PSB and fourteen zeros scan as one; a long TNT with nothing in it scans as a packet. */
  lemma LibertiesTaken(block: Option<nat>)
    ensures var s: seq<byte> := [0x02, 0x82] + seq(14, _ => 0);
            ScanHead(s, block) == Scan(Psb, 16) && !Readable(s, block)
    ensures var s: seq<byte> := [0x02, 0xa3, 0, 0, 0, 0, 0, 0];
            ScanHead(s, block) == Scan(Tnt64(0), 8) && !Readable(s, block)
  {
    hide ScanHead, Readable;
    var s: seq<byte> := [0x02, 0x82] + seq(14, _ => 0);
    ScanLikePsb(s, block);
    assert s[2] == 0 && PsbBytes()[2] == 0x02;
    PsbReadable(s, block);
    var t: seq<byte> := [0x02, 0xa3, 0, 0, 0, 0, 0, 0];
    ScanStopLess(t, block);
    StopLessUnreadable(t, block);
  }

  /** A PSB is sixteen bytes of its two-byte opcode. */
  lemma PsbIs(i: nat)
    requires i < 16
    ensures |PsbBytes()| == 16 && PsbBytes()[i] == if i % 2 == 0 then 0x02 else 0x82
  {
  }

  /** Five is the first byte of no packet, so a trace that starts with it is lost up to a PSB. */
  lemma FiveIsLost(s: seq<byte>, ip: u64)
    requires s != [] && s[0] == 0x05
    ensures forall block :: ScanHead(s, block).pkt.Bad?
    ensures FindPsb(s, 1).None? ==> Decode(s, None, ip) == LOST
  {
    hide ScanExt, ScanCyc, FindPsb;
  }

  // ---- kernel addresses

  ghost predicate InKernel(ip: u64)
  {
    ip / 0x1_0000_0000_0000 == 0xffff
  }

  ghost function KernelOnly(ips: seq<u64>): (r: seq<u64>)
  {
    if ips == [] then [] else (if InKernel(ips[0]) then [ips[0]] else []) + KernelOnly(ips[1..])
  }

  lemma {:induction false} KernelOnlyAppend(a: seq<u64>, b: seq<u64>)
    ensures KernelOnly(a + b) == KernelOnly(a) + KernelOnly(b)
    decreases |a|
  {
    hide InKernel;
    if a == [] {
      assert a + b == b;
    } else {
      KernelOnlyAppend(a[1..], b);
      assert (a + b)[1..] == a[1..] + b;
      var head := if InKernel(a[0]) then [a[0]] else [];
      assert head + (KernelOnly(a[1..]) + KernelOnly(b)) == (head + KernelOnly(a[1..])) + KernelOnly(b);
    }
  }

  lemma OneKernel(ip: u64)
    ensures KernelOnly([ip]) == if ip >= KERNEL_BASE then [ip] else []
  {
    assert [ip][1..] == [];
  }

  /** The reported addresses are the instruction pointers whose top sixteen bits are set, in order. */
  lemma {:induction false} PcsAreKernel(s: seq<byte>, block: Option<nat>, ip: u64)
    ensures Decode(s, block, ip).pcs == KernelOnly(Decode(s, block, ip).ips)
    decreases |s|
  {
    hide ScanHead, LastIp, LeValue, FindPsb, Outcomes, KernelOnly;
    assert KernelOnly([]) == [] by { NoneKernel(); }
    if s != [] {
      var r := ScanHead(s, block);
      if r.pkt.Bad? {
        var q := FindPsb(s, 1);
        if q.Some? {
          assert q.value >= 1 by { FindAfter(s); }
          var later := Decode(s[q.value..], None, 0);
          PcsAreKernel(s[q.value..], None, 0);
          assert [] + later.pcs == later.pcs && [] + later.ips == later.ips;
        }
      } else if !r.pkt.Truncated? {
        var next := IpAfter(s, r, ip);
        PcsAreKernel(s[r.len..], BlockAfter(r.pkt, block), next);
        OneKernel(next);
        KernelOnlyAppend(Effect(s, r, next).ips, Decode(s[r.len..], BlockAfter(r.pkt, block), next).ips);
      }
    }
  }

  lemma NoneKernel()
    ensures KernelOnly([]) == []
  {
  }

  lemma FindAfter(s: seq<byte>)
    ensures FindPsb(s, 1).Some? ==> 1 <= FindPsb(s, 1).value < |s|
  {
  }
}
