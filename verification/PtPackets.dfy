/**
  Intel PT packets as the processor writes them (Intel SDM Vol. 3C, "Intel Processor Trace"), its
  last IP starting over at every PSB, and exactly when scanning such a stream recovers what was
  written although the decoders keep theirs.
 */
module PtPackets {
  import opened Prelude
  import opened PtScan
  import opened PtDecode

  datatype IpKind = Tip | Fup | TipPge | TipPgd

  /** Packets the decoders only skip. */
  datatype Plain =
    | PsbEnd | Pip | Cbr | Tma | TraceStop | Vmcs | ExStop(ip: bool) | Mwait | Pwre | Pwrx | Cfe | Evd | Mnt
    | Ptw(wide: bool, ip: bool) | Mode | Tsc | Mtc

  datatype Packet =
    | PadPkt
    | PsbPkt
    | OvfPkt
    | ShortTnt(outcomes: seq<bool>)
    | LongTnt(outcomes: seq<bool>)
    | IpPkt(kind: IpKind, enc: nat, ip: u64)
    | BbpPkt(kindByte: byte)
    | BepPkt(withIp: bool)
    | BipPkt(id: nat, item: seq<byte>)
    | CycPkt(first: byte, more: seq<byte>)
    | PlainPkt(plain: Plain, payload: seq<byte>)

  // ---- writing

  /** A TNT payload: the stop bit, then the outcomes, oldest first. */
  ghost function TntPayload(outcomes: seq<bool>): (p: nat)
    ensures Pow2(|outcomes|) <= p < 2 * Pow2(|outcomes|)
  {
    if outcomes == [] then 1
    else 2 * TntPayload(outcomes[..|outcomes| - 1]) + (if outcomes[|outcomes| - 1] then 1 else 0)
  }

  lemma TntBound(o: seq<bool>)
    ensures 1 <= TntPayload(o) < 2 * Pow2(|o|)
  {
  }

  lemma Halved(p: nat, b: bit)
    ensures (2 * p + b) / 2 == p && (2 * p + b) % 2 == b
  {
  }

  lemma {:induction false} TntRoundTrip(outcomes: seq<bool>)
    ensures Outcomes(TntPayload(outcomes)) == outcomes
  {
    hide Pow2;
    if outcomes != [] {
      var init := outcomes[..|outcomes| - 1];
      TntRoundTrip(init);
      TntBound(init);
      Halved(TntPayload(init), if outcomes[|outcomes| - 1] then 1 else 0);
      assert outcomes == init + [outcomes[|outcomes| - 1]];
    }
  }

  function IpOpcode(kind: IpKind): byte
  {
    match kind case Tip => 0x0d case Fup => 0x1d case TipPge => 0x11 case TipPgd => 0x01
  }

  function PlainOpcode(p: Plain): seq<byte>
  {
    match p
    case PsbEnd => [0x02, 0x23]
    case Pip => [0x02, 0x43]
    case Cbr => [0x02, 0x03]
    case Tma => [0x02, 0x73]
    case TraceStop => [0x02, 0x83]
    case Vmcs => [0x02, 0xc8]
    case ExStop(ip) => [0x02, if ip then 0xe2 else 0x62]
    case Mwait => [0x02, 0xc2]
    case Pwre => [0x02, 0x22]
    case Pwrx => [0x02, 0xa2]
    case Cfe => [0x02, 0x13]
    case Evd => [0x02, 0x53]
    case Mnt => [0x02, 0xc3, 0x88]
    case Ptw(wide, ip) => [0x02, 0x12 + (if wide then 0x20 else 0) + (if ip then 0x80 else 0)]
    case Mode => [0x99]
    case Tsc => [0x19]
    case Mtc => [0x59]
  }

  function PlainPayload(p: Plain): nat
  {
    match p
    case PsbEnd => 0
    case Pip => 6
    case Cbr => 2
    case Tma => 5
    case TraceStop => 0
    case Vmcs => 5
    case ExStop(_) => 0
    case Mwait => 10
    case Pwre => 2
    case Pwrx => 5
    case Cfe => 2
    case Evd => 7
    case Mnt => 8
    case Ptw(wide, _) => if wide then 8 else 4
    case Mode => 1
    case Tsc => 7
    case Mtc => 1
  }

  /** How many low bytes of the IP a compression choice writes. */
  function IpBytes(enc: nat): nat
  {
    match enc case 1 => 2 case 2 => 4 case 3 => 6 case 4 => 6 case 6 => 8 case _ => 0
  }

  /** The choices that let a receiver holding `last` rebuild `ip`. */
  predicate Compressible(last: u64, enc: nat, ip: u64)
  {
    match enc
    case 0 => true
    case 1 => ip / 0x1_0000 == last / 0x1_0000
    case 2 => ip / 0x1_0000_0000 == last / 0x1_0000_0000
    case 3 => ip < 0x8000_0000_0000 || ip >= 0xffff_8000_0000_0000
    case 4 => ip / 0x1_0000_0000_0000 == last / 0x1_0000_0000_0000
    case 6 => true
    case _ => false
  }

  /** A packet the architecture defines. */
  ghost predicate Defined(p: Packet)
  {
    match p
    case ShortTnt(o) => 1 <= |o| <= 6
    case LongTnt(o) => |o| <= 47
    case IpPkt(_, enc, _) => enc <= 4 || enc == 6
    case BipPkt(id, _) => id < 32
    case CycPkt(first, more) =>
      && first % 4 == 3 && |more| <= 8 && (first / 4 % 2 == 1 <==> more != [])
      && (forall i :: 0 <= i < |more| ==> (more[i] % 2 == 1 <==> i + 1 < |more|))
    case PlainPkt(k, payload) => |payload| == PlainPayload(k)
    case _ => true
  }

  /**
    A packet that may come next: block items only inside a block, short TNTs that look like block
    items only outside, and only IP compression the receiver can undo.
   */
  ghost predicate Allowed(p: Packet, block: Option<nat>, last: u64)
  {
    Defined(p) &&
    match p
    case ShortTnt(o) => block.Some? ==> 2 * TntPayload(o) % 8 != 4
    case IpPkt(_, enc, ip) => Compressible(last, enc, ip)
    case BipPkt(_, item) => block == Some(|item|)
    case _ => true
  }

  ghost function Encode(p: Packet): (s: seq<byte>)
    requires Defined(p)
    ensures |s| >= 1
  {
    match p
    case PadPkt => [0x00]
    case PsbPkt => PsbBytes()
    case OvfPkt => [0x02, 0xf3]
    case ShortTnt(o) => ShortFits(o); [2 * TntPayload(o)]
    case LongTnt(o) => [0x02, 0xa3] + LeBytes(TntPayload(o), 6)
    case IpPkt(kind, enc, ip) => [32 * enc + IpOpcode(kind)] + LeBytes(ip, IpBytes(enc))
    case BbpPkt(k) => [0x02, 0x63, k]
    case BepPkt(ip) => [0x02, if ip then 0xb3 else 0x33]
    case BipPkt(id, item) => [8 * id + 4] + item
    case CycPkt(first, more) => [first] + more
    case PlainPkt(k, payload) => PlainOpcode(k) + payload
  }

  lemma ShortFits(o: seq<bool>)
    requires 1 <= |o| <= 6
    ensures 2 <= TntPayload(o) < 128
  {
    Pow2Values();
    Pow2Monotone(1, |o|);
    Pow2Monotone(|o|, 6);
    assert Pow2(6) == 64;
  }

  // ---- reading one packet back

  /** What the scanner should say about a packet. */
  ghost function KindOf(p: Packet): (k: Pkt)
  {
    match p
    case PadPkt => Pad
    case PsbPkt => Psb
    case OvfPkt => Ovf
    case ShortTnt(o) => Tnt8(TntPayload(o))
    case LongTnt(o) => Tnt64(TntPayload(o))
    case IpPkt(kind, enc, _) => Ip(IpOpcode(kind), enc)
    case BbpPkt(k) => Bbp(k >= 0x80)
    case BepPkt(_) => Bep
    case _ => Skip
  }

  lemma Pow2At48()
    ensures Pow2(48) == 0x1_0000_0000_0000
  {
    Pow2Values();
    hide Pow2;
    Pow2Add(16, 16);
    Pow2Add(32, 16);
  }

  lemma Pow2Double(n: nat)
    ensures Pow2(n + 1) == 2 * Pow2(n)
  {
  }

  lemma LongFits(o: seq<bool>)
    requires |o| <= 47
    ensures TntPayload(o) < Pow256(6)
  {
    hide Pow256, TntPayload, Pow2;
    Pow256Values();
    Pow2At48();
    Pow2Double(47);
    Pow2Monotone(|o|, 47);
    TntBound(o);
  }

  lemma {:induction false} CycReadBack(s: seq<byte>, n: nat, k: nat)
    requires 1 <= n <= k <= |s| && k <= 9
    requires forall i :: n <= i < k ==> (s[i] % 2 == 1 <==> i + 1 < k)
    ensures ScanCyc(s, n, n < k) == Scan(Skip, k)
    decreases k - n
  {
    if n < k {
      CycReadBack(s, n + 1, k);
    }
  }

  /** Scanning at a packet recovers its kind and its exact length, whatever follows. */
  lemma ScanReadBack(p: Packet, block: Option<nat>, last: u64, rest: seq<byte>)
    requires Allowed(p, block, last)
    ensures ScanHead(Encode(p) + rest, block) == Scan(KindOf(p), |Encode(p)|)
  {
    hide ScanHead, LeBytes, TntPayload;
    match p
    case LongTnt(o) => LongReadBack(o, block, rest);
    case ShortTnt(o) => ShortReadBack(o, block, rest);
    case CycPkt(first, more) => CycPktReadBack(first, more, block, rest);
    case PlainPkt(k, payload) => PlainReadBack(k, payload, block, rest);
    case IpPkt(kind, enc, ip) => IpPktReadBack(kind, enc, ip, block, rest);
    case BipPkt(id, item) => BipReadBack(id, item, rest);
    case _ => FixedReadBack(p, block, rest);
  }

  lemma ShortReadBack(o: seq<bool>, block: Option<nat>, rest: seq<byte>)
    requires Allowed(ShortTnt(o), block, 0)
    ensures ScanHead(Encode(ShortTnt(o)) + rest, block) == Scan(Tnt8(TntPayload(o)), 1)
  {
    hide TntPayload, ScanExt, ScanCyc;
    ShortFits(o);
  }

  lemma BipReadBack(id: nat, item: seq<byte>, rest: seq<byte>)
    requires id < 32
    ensures ScanHead([8 * id + 4] + item + rest, Some(|item|)) == Scan(Skip, 1 + |item|)
  {
    hide ScanExt, ScanCyc;
  }

  lemma FixedReadBack(p: Packet, block: Option<nat>, rest: seq<byte>)
    requires p.PadPkt? || p.PsbPkt? || p.OvfPkt? || p.BbpPkt? || p.BepPkt?
    ensures ScanHead(Encode(p) + rest, block) == Scan(KindOf(p), |Encode(p)|)
  {
    hide ScanCyc;
  }

  lemma LongReadBack(o: seq<bool>, block: Option<nat>, rest: seq<byte>)
    requires |o| <= 47
    ensures ScanHead([0x02, 0xa3] + LeBytes(TntPayload(o), 6) + rest, block) == Scan(Tnt64(TntPayload(o)), 8)
  {
    hide LeBytes, LeValue, TntPayload, Pow256;
    var s := [0x02, 0xa3] + LeBytes(TntPayload(o), 6) + rest;
    LongFits(o);
    LeRoundTrip(TntPayload(o), 6);
    assert s[2..8] == LeBytes(TntPayload(o), 6);
  }

  lemma CycPktReadBack(first: byte, more: seq<byte>, block: Option<nat>, rest: seq<byte>)
    requires Defined(CycPkt(first, more))
    ensures ScanHead([first] + more + rest, block) == Scan(Skip, 1 + |more|)
  {
    var s := [first] + more + rest;
    assert forall i :: 0 <= i < |more| ==> s[i + 1] == more[i];
    CycReadBack(s, 1, 1 + |more|);
  }

  lemma IpPktReadBack(kind: IpKind, enc: nat, ip: u64, block: Option<nat>, rest: seq<byte>)
    requires enc <= 4 || enc == 6
    ensures ScanHead([32 * enc + IpOpcode(kind)] + LeBytes(ip, IpBytes(enc)) + rest, block)
         == Scan(Ip(IpOpcode(kind), enc), 1 + IpBytes(enc))
  {
    hide LeBytes, ScanExt, ScanCyc;
  }

  lemma PlainReadBack(k: Plain, payload: seq<byte>, block: Option<nat>, rest: seq<byte>)
    requires |payload| == PlainPayload(k)
    ensures ScanHead(PlainOpcode(k) + payload + rest, block) == Scan(Skip, |PlainOpcode(k)| + |payload|)
  {
  }

  lemma Rejoin(v: nat, m: nat)
    requires m > 0
    ensures v / m * m + v % m == v && v % m < m
  {
  }

  lemma Far(d: int, b: int)
    requires b > 0
    ensures d >= 1 ==> d * b >= b
    ensures d <= -1 ==> d * b <= -b
  {
  }

  /** The bytes of the last IP a compression choice leaves to the receiver. */
  function Upper(enc: nat, ip: u64): (r: nat)
  {
    match enc
    case 1 => ip / 0x1_0000
    case 2 => ip / 0x1_0000_0000
    case 4 => ip / 0x1_0000_0000_0000
    case _ => 0
  }

  /** What a receiver holding `held` makes of a compressed `ip`. */
  ghost function Rebuilt(held: u64, enc: nat, ip: u64): (r: u64)
    requires 0 < enc <= 4 || enc == 6
  {
    PayloadFits(enc, ip);
    LastIp(held, enc, LeValue(LeBytes(ip, IpBytes(enc))))
  }

  lemma PayloadFits(enc: nat, ip: u64)
    requires 0 < enc <= 4 || enc == 6
    ensures IpPayloadLen(enc) == Some(IpBytes(enc)) && LeValue(LeBytes(ip, IpBytes(enc))) < Pow256(IpBytes(enc))
  {
    hide LeValue, LeBytes, Pow256;
    Pow256Values();
    LeTruncates(ip, IpBytes(enc));
  }

  lemma RebuiltIs(held: u64, enc: nat, ip: u64)
    requires 0 < enc <= 4 || enc == 6
    ensures enc == 1 ==> Rebuilt(held, enc, ip) == held / 0x1_0000 * 0x1_0000 + ip % 0x1_0000
    ensures enc == 2 ==> Rebuilt(held, enc, ip) == held / 0x1_0000_0000 * 0x1_0000_0000 + ip % 0x1_0000_0000
    ensures enc == 4 ==>
              Rebuilt(held, enc, ip) == held / 0x1_0000_0000_0000 * 0x1_0000_0000_0000 + ip % 0x1_0000_0000_0000
    ensures enc == 3 && Compressible(held, enc, ip) ==> Rebuilt(held, enc, ip) == ip
    ensures enc == 6 ==> Rebuilt(held, enc, ip) == ip
  {
    hide LeValue, LeBytes, Pow256;
    Pow256Values();
    LeTruncates(ip, IpBytes(enc));
  }

  /** A compressed IP is rebuilt exactly when writer and receiver hold the same upper bytes. */
  lemma RebuiltExact(last: u64, held: u64, enc: nat, ip: u64)
    requires (0 < enc <= 4 || enc == 6) && Compressible(last, enc, ip)
    ensures Rebuilt(held, enc, ip) == ip <==> Upper(enc, held) == Upper(enc, last)
  {
    hide Rebuilt;
    RebuiltIs(held, enc, ip);
    if enc == 1 {
      UpperDecides(ip, held, 0x1_0000);
    } else if enc == 2 {
      UpperDecides(ip, held, 0x1_0000_0000);
    } else if enc == 4 {
      UpperDecides(ip, held, 0x1_0000_0000_0000);
    }
  }

  lemma UpperDecides(ip: nat, held: nat, m: nat)
    requires m > 0
    ensures held / m * m + ip % m == ip <==> held / m == ip / m
  {
    Rejoin(ip, m);
    var d := held / m - ip / m;
    assert d * m == held / m * m - ip / m * m;
    Far(d, m);
  }

  // ---- reading a stream back

  /** The writer's last IP: a PSB starts it over, and so does a lost stretch of trace. */
  ghost function LastAfter(p: Packet, last: u64): (ip: u64)
  {
    if p.PsbPkt? || p.OvfPkt? then 0 else if p.IpPkt? && p.enc != 0 then p.ip else last
  }

  /** The decoder's last IP: it goes on across a PSB. */
  ghost function HeldIp(p: Packet, held: u64): (ip: u64)
    requires Defined(p)
  {
    if p.OvfPkt? then 0 else if p.IpPkt? && p.enc != 0 then Rebuilt(held, p.enc, p.ip) else held
  }

  ghost function ScopeAfter(p: Packet, block: Option<nat>): (b: Option<nat>)
  {
    match p
    case BbpPkt(k) => Some(if k >= 0x80 then 8 else 4)
    case BepPkt(_) => None
    case _ => block
  }

  ghost predicate StreamAllowed(ps: seq<Packet>, block: Option<nat>, last: u64)
  {
    ps != [] ==>
      Allowed(ps[0], block, last) && StreamAllowed(ps[1..], ScopeAfter(ps[0], block), LastAfter(ps[0], last))
  }

  ghost function EncodeStream(ps: seq<Packet>, block: Option<nat>, last: u64): (s: seq<byte>)
    requires StreamAllowed(ps, block, last)
    decreases |ps|
  {
    if ps == [] then []
    else Encode(ps[0]) + EncodeStream(ps[1..], ScopeAfter(ps[0], block), LastAfter(ps[0], last))
  }

  /** What a packet tells an observer who takes its instruction pointer, if any, to be `ip`. */
  ghost function Telling(p: Packet, ip: u64): (o: Outcome)
    requires Defined(p)
  {
    var tnt := p.ShortTnt? || p.LongTnt?;
    NOTHING.(packets := [Encode(p)],
             ips := if p.IpPkt? && p.enc != 0 then [ip] else [],
             pcs := if p.IpPkt? && p.enc != 0 && ip >= KERNEL_BASE then [ip] else [],
             windows := if tnt then [p.outcomes] else [],
             held := if tnt then Some(p.outcomes) else if p.PsbPkt? || p.OvfPkt? then Some([]) else None,
             overflows := if p.OvfPkt? then 1 else 0)
  }

  /** What a packet says, read off the packet itself. */
  ghost function Says(p: Packet): (o: Outcome)
    requires Defined(p)
  {
    Telling(p, if p.IpPkt? then p.ip else 0)
  }

  ghost function StreamSays(ps: seq<Packet>): (o: Outcome)
    requires forall i :: 0 <= i < |ps| ==> Defined(ps[i])
  {
    if ps == [] then NOTHING else Then(Says(ps[0]), StreamSays(ps[1..]))
  }

  /** What a decoder holding `held` sees of it. */
  ghost function StreamSeen(ps: seq<Packet>, held: u64): (o: Outcome)
    requires forall i :: 0 <= i < |ps| ==> Defined(ps[i])
    decreases |ps|
  {
    if ps == [] then NOTHING
    else Then(Telling(ps[0], HeldIp(ps[0], held)), StreamSeen(ps[1..], HeldIp(ps[0], held)))
  }

  /** The pointer sent last, since the last lost stretch of trace: a PSB is no matter. */
  function SentAfter(p: Packet, sent: u64): (ip: u64)
  {
    if p.OvfPkt? then 0 else if p.IpPkt? && p.enc != 0 then p.ip else sent
  }

  /** Every compressed pointer leaves out bytes that the pointer sent before it had as well. */
  ghost predicate UpperAgree(ps: seq<Packet>, last: u64, sent: u64)
    decreases |ps|
  {
    ps != [] ==>
      && (ps[0].IpPkt? ==> Upper(ps[0].enc, last) == Upper(ps[0].enc, sent))
      && UpperAgree(ps[1..], LastAfter(ps[0], last), SentAfter(ps[0], sent))
  }

  lemma {:induction false} AllDefined(ps: seq<Packet>, block: Option<nat>, last: u64)
    requires StreamAllowed(ps, block, last)
    ensures forall i :: 0 <= i < |ps| ==> Defined(ps[i])
    decreases |ps|
  {
    if ps != [] {
      AllDefined(ps[1..], ScopeAfter(ps[0], block), LastAfter(ps[0], last));
      forall i | 0 <= i < |ps| ensures Defined(ps[i]) {
        assert i > 0 ==> ps[i] == ps[1..][i - 1];
      }
    }
  }

  /** One packet: what the decoder sees of it, and the state it moves to. */
  lemma PacketReadBack(p: Packet, block: Option<nat>, last: u64, held: u64, rest: seq<byte>)
    requires Allowed(p, block, last)
    ensures var s := Encode(p) + rest;
            var r := ScanHead(s, block);
            && r == Scan(KindOf(p), |Encode(p)|)
            && s[r.len..] == rest
            && BlockAfter(r.pkt, block) == ScopeAfter(p, block)
            && IpAfter(s, r, held) == HeldIp(p, held)
            && Effect(s, r, HeldIp(p, held)) == Telling(p, HeldIp(p, held))
  {
    hide ScanHead, LastIp, LeValue, LeBytes, Outcomes, TntPayload;
    ScanReadBack(p, block, last, rest);
    var s := Encode(p) + rest;
    assert s[..|Encode(p)|] == Encode(p) && s[|Encode(p)|..] == rest;
    match p
    case IpPkt(_, enc, ip) =>
      if enc != 0 {
        PayloadFits(enc, ip);
        assert s[1..1 + IpBytes(enc)] == LeBytes(ip, IpBytes(enc));
      }
    case ShortTnt(o) =>
      TntRoundTrip(o);
      ShortFits(o);
    case LongTnt(o) =>
      TntRoundTrip(o);
      TntBound(o);
    case _ =>
  }

  /** The bytes of any well-formed stream, decoded from any last IP, show what the fold says they show. */
  lemma {:induction false} StreamDecodes(ps: seq<Packet>, block: Option<nat>, last: u64, held: u64)
    requires StreamAllowed(ps, block, last)
    ensures forall i :: 0 <= i < |ps| ==> Defined(ps[i])
    ensures Decode(EncodeStream(ps, block, last), block, held) == StreamSeen(ps, held)
    decreases |ps|
  {
    hide ScanHead, LastIp, LeValue, Outcomes, Effect, IpAfter, BlockAfter, Resync, Encode, Allowed, Defined, Telling, Rebuilt;
    AllDefined(ps, block, last);
    if ps != [] {
      var p := ps[0];
      var rest := EncodeStream(ps[1..], ScopeAfter(p, block), LastAfter(p, last));
      PacketReadBack(p, block, last, held, rest);
      StreamDecodes(ps[1..], ScopeAfter(p, block), LastAfter(p, last), HeldIp(p, held));
    }
  }

  /** Same heads and same rests, or different lists of instruction pointers. */
  lemma TellingDiffers(p: Packet, ip: u64, a: Outcome, b: Outcome)
    requires Defined(p)
    ensures p.IpPkt? && p.enc != 0 && ip != p.ip ==> Then(Telling(p, ip), a).ips != Then(Says(p), b).ips
    ensures a.ips != b.ips && |Telling(p, ip).ips| == |Says(p).ips| ==> Then(Telling(p, ip), a).ips != Then(Says(p), b).ips
  {
    hide Encode, Defined;
    var x, y := Telling(p, ip).ips, Says(p).ips;
    assert (x + a.ips)[|x|..] == a.ips && (y + b.ips)[|y|..] == b.ips;
    if p.IpPkt? && p.enc != 0 {
      assert (x + a.ips)[0] == ip && (y + b.ips)[0] == p.ip;
    }
  }

  lemma {:induction false} SeenExact(ps: seq<Packet>, block: Option<nat>, last: u64, held: u64)
    requires StreamAllowed(ps, block, last) && forall i :: 0 <= i < |ps| ==> Defined(ps[i])
    ensures UpperAgree(ps, last, held) ==> StreamSeen(ps, held) == StreamSays(ps)
    ensures !UpperAgree(ps, last, held) ==> StreamSeen(ps, held).ips != StreamSays(ps).ips
    decreases |ps|
  {
    hide Encode, Rebuilt, Telling, Compressible;
    if ps != [] {
      var p := ps[0];
      var next := HeldIp(p, held);
      if p.IpPkt? && p.enc != 0 {
        RebuiltExact(last, held, p.enc, p.ip);
      }
      if next == SentAfter(p, held) {
        SeenExact(ps[1..], ScopeAfter(p, block), LastAfter(p, last), next);
      }
      TellingSame(p, next);
      TellingDiffers(p, next, StreamSeen(ps[1..], next), StreamSays(ps[1..]));
    }
  }

  lemma TellingSame(p: Packet, ip: u64)
    requires Defined(p)
    ensures |Telling(p, ip).ips| == |Says(p).ips|
    ensures (p.IpPkt? && p.enc != 0 ==> ip == p.ip) ==> Telling(p, ip) == Says(p)
  {
    hide Encode;
  }

  /**
    Scanning the bytes of any packet list the processor may write recovers every packet boundary,
    every instruction pointer under any valid compression and every TNT packet's outcomes in order,
    with nothing undecodable and nothing truncated, if and only if every compressed pointer leaves
    out bytes that the pointer sent before it had as well.
   */
  lemma StreamReadBack(ps: seq<Packet>, block: Option<nat>, last: u64, held: u64)
    requires StreamAllowed(ps, block, last)
    ensures forall i :: 0 <= i < |ps| ==> Defined(ps[i])
    ensures Decode(EncodeStream(ps, block, last), block, held) == StreamSays(ps) <==> UpperAgree(ps, last, held)
  {
    hide Decode, EncodeStream, StreamSeen, StreamSays, UpperAgree, StreamAllowed, Defined;
    StreamDecodes(ps, block, last, held);
    SeenExact(ps, block, last, held);
  }

  /** After every PSB the first pointer is written in full, as long as the two sides are `synced` before. */
  ghost predicate Rearmed(ps: seq<Packet>, synced: bool)
  {
    ps != [] ==>
      match ps[0]
      case PsbPkt => Rearmed(ps[1..], false)
      case OvfPkt => Rearmed(ps[1..], true)
      case IpPkt(_, enc, _) =>
        if enc == 0 then Rearmed(ps[1..], synced)
        else (synced || enc == 3 || enc == 6) && Rearmed(ps[1..], true)
      case _ => Rearmed(ps[1..], synced)
  }

  /** Then the decoder never notices that it keeps its last IP across a PSB. */
  lemma {:induction false} RearmedAgrees(ps: seq<Packet>, block: Option<nat>, last: u64, held: u64, synced: bool)
    requires StreamAllowed(ps, block, last) && Rearmed(ps, synced) && (synced ==> held == last)
    ensures UpperAgree(ps, last, held)
    decreases |ps|
  {
    hide Rebuilt, Compressible;
    if ps != [] {
      var p := ps[0];
      var synced' := if p.PsbPkt? then false else synced || p.OvfPkt? || (p.IpPkt? && p.enc != 0);
      RearmedAgrees(ps[1..], ScopeAfter(p, block), LastAfter(p, last), SentAfter(p, held), synced');
    }
  }

  /** A user address compressed after a PSB comes out as a kernel address. */
  lemma PsbKeepsLastIp()
    ensures var full, low := IpPkt(Tip, 6, 0xffff_ffff_8100_0000), IpPkt(Tip, 1, 0x1234);
            var ps := [full, PsbPkt, low];
            && StreamAllowed(ps, None, 0) && (forall i :: 0 <= i < |ps| ==> Defined(ps[i]))
            && StreamSays(ps).pcs == [0xffff_ffff_8100_0000]
            && Decode(EncodeStream(ps, None, 0), None, 0).pcs == [0xffff_ffff_8100_0000, 0xffff_ffff_8100_1234]
  {
    hide Encode, Rebuilt, EncodeStream, Decode;
    var kernel: u64 := 0xffff_ffff_8100_0000;
    var full, low := IpPkt(Tip, 6, kernel), IpPkt(Tip, 1, 0x1234);
    var ps := [full, PsbPkt, low];
    assert ps[1..] == [PsbPkt, low] && [PsbPkt, low][1..] == [low] && [low][1..] == [];
    assert StreamAllowed([low], None, 0);
    assert StreamAllowed([PsbPkt, low], None, kernel);
    StreamDecodes(ps, None, 0, 0);
    RebuiltExact(0, 0, 6, kernel);
    RebuiltLow(kernel);
    assert StreamSeen([low], kernel).pcs == [0xffff_ffff_8100_1234] + StreamSeen([], 0xffff_ffff_8100_1234).pcs;
    assert StreamSeen([PsbPkt, low], kernel).pcs == [] + StreamSeen([low], kernel).pcs;
    assert StreamSeen(ps, 0).pcs == [kernel] + StreamSeen([PsbPkt, low], kernel).pcs;
    assert StreamSays([low]).pcs == [] + StreamSays([]).pcs;
    assert StreamSays([PsbPkt, low]).pcs == [] + StreamSays([low]).pcs;
    assert StreamSays(ps).pcs == [kernel] + StreamSays([PsbPkt, low]).pcs;
  }

  lemma RebuiltLow(held: u64)
    requires held == 0xffff_ffff_8100_0000
    ensures Rebuilt(held, 1, 0x1234) == 0xffff_ffff_8100_1234
  {
    hide LeValue, LeBytes, Pow256;
    Pow256Values();
    LeTruncates(0x1234, 2);
  }
}
