/**
  The two Intel PT decoders of vock/src/mode/engine.rs, `tip_only_decode` and `PtDecoder::run`
  without kernel text, proved against one reference decoding of a trace.
 */
module PtDecode {
  import opened Prelude
  import opened PtScan

  const KERNEL_BASE: u64 := 0xffff_0000_0000_0000

  /** Last-IP decompression: which bytes of the last IP a payload replaces. */
  function LastIp(ip: u64, enc: nat, val: nat): (r: u64)
    requires IpPayloadLen(enc).Some? && enc != 0 && val < Pow256(IpPayloadLen(enc).value)
  {
    Pow256Values();
    match enc
    case 1 => ip / 0x1_0000 * 0x1_0000 + val
    case 2 => ip / 0x1_0000_0000 * 0x1_0000_0000 + val
    case 3 => if val >= 0x8000_0000_0000 then val + 0xffff_0000_0000_0000 else val
    case 4 => ip / 0x1_0000_0000_0000 * 0x1_0000_0000_0000 + val
    case _ => val
  }

  lemma Pow256Values()
    ensures Pow256(2) == 0x1_0000 && Pow256(4) == 0x1_0000_0000
    ensures Pow256(6) == 0x1_0000_0000_0000 && Pow256(8) == U64
  {
  }

  /**
    Branch outcomes of a TNT payload: the highest set bit is the stop bit, the bits below it are the
    outcomes, oldest first.
   */
  ghost function Outcomes(payload: nat): (s: seq<bool>)
  {
    if payload <= 1 then [] else Outcomes(payload / 2) + [payload % 2 == 1]
  }

  // ---- the reference decoding

  /** Everything a decoder observes in a trace. */
  datatype Outcome = Outcome(
    packets: seq<seq<byte>>,   // the packets, cut at their true boundaries
    ips: seq<u64>,             // every instruction pointer, in order
    pcs: seq<u64>,             // the kernel addresses among them
    windows: seq<seq<bool>>,   // branch outcomes, one window per TNT packet
    held: Option<seq<bool>>,   // the window left behind, if any packet touched it
    bad: nat,                  // undecodable bytes
    faults: nat,               // those, and TNT packets without a stop bit
    resyncs: nat, overflows: nat, truncated: bool)

  const NOTHING: Outcome := Outcome([], [], [], [], None, 0, 0, 0, 0, false)

  /** An undecodable byte drops the held window. */
  const LOST: Outcome := NOTHING.(bad := 1, faults := 1, held := Some([]))
  const RESYNCED: Outcome := LOST.(resyncs := 1)

  ghost function Then(a: Outcome, b: Outcome): (r: Outcome)
  {
    Outcome(a.packets + b.packets, a.ips + b.ips, a.pcs + b.pcs, a.windows + b.windows,
            if b.held.Some? then b.held else a.held,
            a.bad + b.bad, a.faults + b.faults, a.resyncs + b.resyncs, a.overflows + b.overflows,
            a.truncated || b.truncated)
  }

  ghost function IpAfter(s: seq<byte>, r: Scan, ip: u64): (ip': u64)
    requires r.pkt.Ip? ==> IpPayloadLen(r.pkt.enc).Some? && r.len == 1 + IpPayloadLen(r.pkt.enc).value <= |s|
  {
    if r.pkt.Ovf? then 0
    else if r.pkt.Ip? && r.pkt.enc != 0 then LastIp(ip, r.pkt.enc, LeValue(s[1..r.len]))
    else ip
  }

  ghost function BlockAfter(pkt: Pkt, block: Option<nat>): (b: Option<nat>)
  {
    match pkt
    case Bbp(wide) => Some(if wide then 8 else 4)
    case Bep => None
    case _ => block
  }

  ghost function PcsOf(r: Scan, ip': u64): (s: seq<u64>)
  {
    if r.pkt.Ip? && r.pkt.enc != 0 && ip' >= KERNEL_BASE then [ip'] else []
  }

  /** A TNT packet opens a window; a PSB or an overflow drops whatever is held. */
  ghost function HeldAfter(pkt: Pkt): (h: Option<seq<bool>>)
  {
    match pkt
    case Tnt8(p) => Some(Outcomes(p))
    case Tnt64(p) => Some(Outcomes(p))
    case Psb => Some([])
    case Ovf => Some([])
    case _ => None
  }

  /** What one accepted packet contributes; `ip'` is the last IP after it. */
  ghost function Effect(s: seq<byte>, r: Scan, ip': u64): (o: Outcome)
    requires r.len <= |s|
  {
    var tnt := r.pkt.Tnt8? || r.pkt.Tnt64?;
    NOTHING.(packets := [s[..r.len]],
             ips := if r.pkt.Ip? && r.pkt.enc != 0 then [ip'] else [],
             pcs := PcsOf(r, ip'),
             windows := if tnt then [Outcomes(r.pkt.payload)] else [],
             held := HeldAfter(r.pkt),
             overflows := if r.pkt.Ovf? then 1 else 0,
             faults := if tnt && r.pkt.payload == 0 then 1 else 0)
  }

  /** Decode a trace from packet boundary `s` with the given block scope and last IP. */
  ghost function Decode(s: seq<byte>, block: Option<nat>, ip: u64): (o: Outcome)
    decreases |s|
  {
    if s == [] then NOTHING
    else
      var r := ScanHead(s, block);
      if r.pkt.Truncated? then NOTHING.(truncated := true)
      else if r.pkt.Bad? then Resync(s)
      else
        var ip' := IpAfter(s, r, ip);
        Then(Effect(s, r, ip'), Decode(s[r.len..], BlockAfter(r.pkt, block), ip'))
  }

  /** After an undecodable byte nothing is trusted up to the next PSB, and nothing is remembered. */
  ghost function Resync(s: seq<byte>): (o: Outcome)
    requires s != []
    decreases |s|, 0
  {
    match FindPsb(s, 1)
    case None => LOST
    case Some(q) => Then(RESYNCED, Decode(s[q..], None, 0))
  }

  lemma ThenAssociative(a: Outcome, b: Outcome, c: Outcome)
    ensures Then(Then(a, b), c) == Then(a, Then(b, c))
  {
    assert a.packets + b.packets + c.packets == a.packets + (b.packets + c.packets);
    assert a.ips + b.ips + c.ips == a.ips + (b.ips + c.ips);
    assert a.pcs + b.pcs + c.pcs == a.pcs + (b.pcs + c.pcs);
    assert a.windows + b.windows + c.windows == a.windows + (b.windows + c.windows);
  }

  lemma ThenNothing(a: Outcome)
    ensures Then(a, NOTHING) == a && Then(NOTHING, a) == a
  {
  }

  // ---- decoding a prefix

  /** What was reported so far is never withdrawn, and no counter goes back. */
  ghost predicate Extends(a: Outcome, b: Outcome)
  {
    && a.packets <= b.packets && a.ips <= b.ips && a.pcs <= b.pcs && a.windows <= b.windows
    && a.bad <= b.bad && a.faults <= b.faults && a.resyncs <= b.resyncs && a.overflows <= b.overflows
  }

  /** Decoding any prefix of a trace reports a prefix of what decoding the whole trace reports. */
  lemma {:induction false} DecodePrefix(s: seq<byte>, n: nat, block: Option<nat>, ip: u64)
    requires n <= |s|
    ensures Extends(Decode(s[..n], block, ip), Decode(s, block, ip))
    decreases |s|
  {
    hide ScanHead, LastIp, FindPsb, LeValue, Outcomes, PcsOf;
    if n > 0 {
      var t, r := s[..n], ScanHead(s, block);
      ScanPrefix(s, n, block);
      if ScanHead(t, block).pkt.Truncated? {
      } else if r.pkt.Bad? {
        FindPsbPrefix(s, n, 1);
        var q := FindPsb(t, 1);
        if q.Some? {
          assert t[q.value..] == s[q.value..][..n - q.value];
          DecodePrefix(s[q.value..], n - q.value, None, 0);
        }
      } else {
        assert t[r.len..] == s[r.len..][..n - r.len];
        DecodePrefix(s[r.len..], n - r.len, BlockAfter(r.pkt, block), IpAfter(s, r, ip));
        PrefixStep(s, n, r, block, ip);
      }
    }
  }

  lemma PrefixStep(s: seq<byte>, n: nat, r: Scan, block: Option<nat>, ip: u64)
    requires 0 < n <= |s| && ScanHead(s, block) == r == ScanHead(s[..n], block)
    requires !r.pkt.Truncated? && !r.pkt.Bad?
    requires var b, i := BlockAfter(r.pkt, block), IpAfter(s, r, ip);
             Extends(Decode(s[..n][r.len..], b, i), Decode(s[r.len..], b, i))
    ensures Extends(Decode(s[..n], block, ip), Decode(s, block, ip))
  {
    hide ScanHead, LastIp, FindPsb, LeValue, Outcomes, PcsOf, Resync;
    var t, b, i := s[..n], BlockAfter(r.pkt, block), IpAfter(s, r, ip);
    assert t[1..r.len] == s[1..r.len] && t[..r.len] == s[..r.len];
    ExtendsThen(Effect(s, r, i), Decode(t[r.len..], b, i), Decode(s[r.len..], b, i));
  }

  lemma ExtendsThen(a: Outcome, b: Outcome, c: Outcome)
    requires Extends(b, c)
    ensures Extends(Then(a, b), Then(a, c))
  {
  }

  // ---- resynchronisation

  /** Scanning from the start of `s` accepts packets up to boundary `p`, in the given state there. */
  ghost predicate Reaches(s: seq<byte>, block: Option<nat>, ip: u64, p: nat, block': Option<nat>, ip': u64)
    decreases |s|
  {
    if p == 0 then block == block' && ip == ip'
    else
      s != [] &&
      var r := ScanHead(s, block);
      !r.pkt.Truncated? && !r.pkt.Bad? && r.len <= p &&
      Reaches(s[r.len..], BlockAfter(r.pkt, block), IpAfter(s, r, ip), p - r.len, block', ip')
  }

  /**
    When the byte at boundary `p` of a trace is undecodable and the next PSB is at `q`, decoding goes
    on as a fresh decode of the trace from `q`.
   */
  lemma {:induction false} ResyncIsFresh(s: seq<byte>, block: Option<nat>, ip: u64, p: nat, block': Option<nat>,
                                         ip': u64, q: nat) returns (before: Outcome)
    requires Reaches(s, block, ip, p, block', ip') && p < |s|
    requires ScanPacket(s, p, block').pkt.Bad? && FindPsb(s, p + 1) == Some(q)
    ensures Decode(s, block, ip) == Then(before, Decode(s[q..], None, 0))
    ensures before.bad == 1 && before.resyncs == 1 && !before.truncated
    decreases |s|
  {
    hide ScanHead, LastIp, FindPsb, LeValue, Outcomes, PcsOf;
    if p == 0 {
      before := RESYNCED;
      assert s[0..] == s;
    } else {
      var r := ScanHead(s, block);
      var t := s[r.len..];
      assert s[p..] == t[p - r.len..];
      FindPsbShift(s, r.len, p + 1);
      var rest := ResyncIsFresh(t, BlockAfter(r.pkt, block), IpAfter(s, r, ip), p - r.len, block', ip', q - r.len);
      assert t[q - r.len..] == s[q..];
      before := Then(Effect(s, r, IpAfter(s, r, ip)), rest);
      ThenAssociative(Effect(s, r, IpAfter(s, r, ip)), rest, Decode(s[q..], None, 0));
    }
  }

  // ---- the decoders

  function ShlBytes(b: nat, n: nat): (r: nat)
  {
    if n == 0 then b else 256 * ShlBytes(b, n - 1)
  }

  lemma {:induction false} LeAppend(s: seq<byte>, b: byte)
    ensures LeValue(s + [b]) == LeValue(s) + ShlBytes(b, |s|)
  {
    if s == [] {
      assert s + [b] == [b] && [b][1..] == [];
    } else {
      LeAppend(s[1..], b);
      assert (s + [b])[1..] == s[1..] + [b];
    }
  }

  /** The byte loop both decoders use to assemble an IP payload. */
  method ReadLe(data: seq<byte>, at: nat, n: nat) returns (v: nat)
    requires at + n <= |data|
    ensures v == LeValue(data[at..at + n])
  {
    v := 0;
    for i := 0 to n
      invariant v == LeValue(data[at..at + i])
    {
      LeAppend(data[at..at + i], data[at + i]);
      assert data[at..at + i] + [data[at + i]] == data[at..at + i + 1];
      v := v + ShlBytes(data[at + i], i);
    }
  }

  /** `PtStats`. */
  datatype Stats = Stats(badPackets: nat, resyncs: nat, overflows: nat, truncated: bool)

  /** The counters of a decoder that does not look at TNT payloads. */
  ghost function TipStats(o: Outcome): (t: Stats)
  {
    Stats(o.bad, o.resyncs, o.overflows, o.truncated)
  }

  /** The counters of the full decoder, which also counts TNT packets without a stop bit. */
  ghost function RunStats(o: Outcome): (t: Stats)
  {
    Stats(o.faults, o.resyncs, o.overflows, o.truncated)
  }

  /** Decoding `data` amounts to what was seen so far, then decoding from `pos`. */
  ghost predicate Progress(data: seq<byte>, pos: nat, block: Option<nat>, ip: u64, sofar: Outcome)
  {
    pos <= |data| && Then(sofar, Decode(data[pos..], block, ip)) == Decode(data, None, 0)
  }

  lemma Accept(data: seq<byte>, pos: nat, block: Option<nat>, ip: u64, sofar: Outcome)
    requires pos < |data| && Progress(data, pos, block, ip, sofar)
    requires var r := ScanPacket(data, pos, block); !r.pkt.Truncated? && !r.pkt.Bad?
    ensures var r := ScanPacket(data, pos, block);
            var ip' := IpAfter(data[pos..], r, ip);
            Progress(data, pos + r.len, BlockAfter(r.pkt, block), ip', Then(sofar, Effect(data[pos..], r, ip')))
  {
    hide ScanHead, LastIp, FindPsb, LeValue, Outcomes, PcsOf;
    var r := ScanPacket(data, pos, block);
    var ip' := IpAfter(data[pos..], r, ip);
    assert data[pos..][r.len..] == data[pos + r.len..];
    ThenAssociative(sofar, Effect(data[pos..], r, ip'), Decode(data[pos + r.len..], BlockAfter(r.pkt, block), ip'));
  }

  lemma DecodeBad(s: seq<byte>, block: Option<nat>, ip: u64)
    requires s != [] && ScanHead(s, block).pkt.Bad?
    ensures Decode(s, block, ip) == Resync(s)
  {
    hide ScanHead, Resync;
  }

  lemma DecodeEmpty(block: Option<nat>, ip: u64)
    ensures Decode([], block, ip) == NOTHING
  {
  }

  lemma Restart(data: seq<byte>, pos: nat, block: Option<nat>, ip: u64, sofar: Outcome)
    requires pos < |data| && Progress(data, pos, block, ip, sofar) && ScanPacket(data, pos, block).pkt.Bad?
    ensures match FindPsb(data, pos + 1)
            case None => Then(sofar, LOST) == Decode(data, None, 0)
            case Some(q) => Progress(data, q, None, 0, Then(sofar, RESYNCED))
  {
    hide ScanHead, FindPsb, Decode;
    DecodeBad(data[pos..], block, ip);
    FindPsbShift(data, pos, pos + 1);
    var q := FindPsb(data, pos + 1);
    if q.Some? {
      assert data[pos..][q.value - pos..] == data[q.value..];
      ThenAssociative(sofar, RESYNCED, Decode(data[q.value..], None, 0));
    }
  }

  lemma Finish(data: seq<byte>, block: Option<nat>, ip: u64, sofar: Outcome)
    requires Progress(data, |data|, block, ip, sofar)
    ensures sofar == Decode(data, None, 0)
  {
    hide Decode;
    DecodeEmpty(block, ip);
    assert data[|data|..] == [];
    ThenNothing(sofar);
  }

  /** `tip_only_decode`: the PC list, its length and the stream-health counters. */
  method TipOnlyDecode(data: seq<byte>) returns (out: seq<u64>, count: nat, stats: Stats)
    ensures out == Decode(data, None, 0).pcs && count == |out|
    ensures stats == TipStats(Decode(data, None, 0))
  {
    hide ScanHead, LastIp, FindPsb, LeValue, Outcomes, Decode;
    out, count := [], 0;
    stats := Stats(0, 0, 0, false);
    var lastIp: u64, pos: nat, block: Option<nat> := 0, 0, None;
    ghost var sofar := NOTHING;
    assert data[0..] == data;
    ThenNothing(Decode(data, None, 0));
    while pos < |data|
      invariant Progress(data, pos, block, lastIp, sofar)
      invariant out == sofar.pcs && count == |out| && stats == TipStats(sofar)
      decreases |data| - pos
    {
      var scan := ScanPacket(data, pos, block);
      if scan.pkt.Truncated? {
        stats := stats.(truncated := true);
        StopTruncated(data, pos, block, lastIp, sofar);
        return;
      }
      if scan.pkt.Bad? {
        Restart(data, pos, block, lastIp, sofar);
        stats := stats.(badPackets := stats.badPackets + 1);
        lastIp, block := 0, None;
        var next := FindPsb(data, pos + 1);
        if next.None? {
          return;
        }
        sofar := Then(sofar, RESYNCED);
        stats := stats.(resyncs := stats.resyncs + 1);
        pos := next.value;
        continue;
      }
      Accept(data, pos, block, lastIp, sofar);
      ghost var ip' := IpAfter(data[pos..], scan, lastIp);
      sofar := Then(sofar, Effect(data[pos..], scan, ip'));
      match scan.pkt {
        case Ip(_, enc) =>
          var ipBytes := IpPayloadLen(enc).value;
          if ipBytes > 0 {
            var ip := ReadLe(data, pos + 1, ipBytes);
            assert data[pos + 1..pos + 1 + ipBytes] == data[pos..][1..scan.len];
            lastIp := LastIp(lastIp, enc, ip);
            if lastIp >= KERNEL_BASE {
              out := out + [lastIp];
              count := count + 1;
            }
          }
        case Ovf =>
          lastIp := 0;
          stats := stats.(overflows := stats.overflows + 1);
        case Bbp(wide) =>
          block := Some(if wide then 8 else 4);
        case Bep =>
          block := None;
        case _ =>
      }
      pos := pos + scan.len;
    }
    Finish(data, block, lastIp, sofar);
  }

  lemma StopTruncated(data: seq<byte>, pos: nat, block: Option<nat>, ip: u64, sofar: Outcome)
    requires pos < |data| && Progress(data, pos, block, ip, sofar) && ScanPacket(data, pos, block).pkt.Truncated?
    ensures Decode(data, None, 0) == sofar.(truncated := true)
  {
  }

  // ---- where the two decoders' counters differ

  /** A long TNT packet whose payload has no stop bit. */
  ghost predicate Stopless(packet: seq<byte>)
  {
    packet == [0x02, 0xa3, 0, 0, 0, 0, 0, 0]
  }

  ghost function StoplessCount(packets: seq<seq<byte>>): (n: nat)
  {
    if packets == [] then 0 else (if Stopless(packets[0]) then 1 else 0) + StoplessCount(packets[1..])
  }

  lemma {:induction false} StoplessConcat(a: seq<seq<byte>>, b: seq<seq<byte>>)
    ensures StoplessCount(a + b) == StoplessCount(a) + StoplessCount(b)
  {
    if a == [] {
      assert a + b == b;
    } else {
      StoplessConcat(a[1..], b);
      assert (a + b)[1..] == a[1..] + b;
    }
  }

  lemma ZeroPayload(s: seq<byte>)
    requires |s| == 6
    ensures LeValue(s) == 0 <==> s == [0, 0, 0, 0, 0, 0]
  {
    assert s[1..][1..] == s[2..] && s[2..][1..] == s[3..] && s[3..][1..] == s[4..] && s[4..][1..] == s[5..];
    assert LeValue(s) == s[0] + 256 * LeValue(s[1..]);
    assert LeValue(s[1..]) == s[1] + 256 * LeValue(s[2..]);
    assert LeValue(s[2..]) == s[2] + 256 * LeValue(s[3..]);
    assert LeValue(s[3..]) == s[3] + 256 * LeValue(s[4..]);
    assert LeValue(s[4..]) == s[4] + 256 * LeValue(s[5..]);
    assert LeValue(s[5..]) == s[5];
  }

  lemma FaultOfPacket(s: seq<byte>, block: Option<nat>, ip': u64)
    requires s != [] && !ScanHead(s, block).pkt.Truncated? && !ScanHead(s, block).pkt.Bad?
    ensures var r := ScanHead(s, block); Effect(s, r, ip').faults == StoplessCount([s[..r.len]])
  {
    hide LeValue, Outcomes, ScanCyc;
    var r := ScanHead(s, block);
    assert StoplessCount([s[..r.len]]) == if Stopless(s[..r.len]) then 1 else 0;
    if r.pkt.Tnt64? {
      ZeroPayload(s[2..8]);
      assert s[..8] == [s[0], s[1]] + s[2..8];
    } else {
      assert r.len >= 2 ==> s[..r.len][0] == s[0] && s[..r.len][1] == s[1];
    }
  }

  /**
    `run` counts more bad packets than `tip_only_decode` by exactly the long TNT packets of the trace
    that have no stop bit.
   */
  lemma {:induction false} FaultsSplit(s: seq<byte>, block: Option<nat>, ip: u64)
    ensures var o := Decode(s, block, ip);
            RunStats(o) == TipStats(o).(badPackets := TipStats(o).badPackets + StoplessCount(o.packets))
    decreases |s|
  {
    hide ScanHead, Effect, IpAfter, BlockAfter, FindPsb;
    if s != [] {
      var r := ScanHead(s, block);
      if r.pkt.Truncated? {
      } else if r.pkt.Bad? {
        var q := FindPsb(s, 1);
        if q.Some? {
          FaultsSplit(s[q.value..], None, 0);
          StoplessConcat([], Decode(s[q.value..], None, 0).packets);
        }
      } else {
        var ip' := IpAfter(s, r, ip);
        var rest := Decode(s[r.len..], BlockAfter(r.pkt, block), ip');
        FaultsSplit(s[r.len..], BlockAfter(r.pkt, block), ip');
        FaultOfPacket(s, block, ip');
        EffectPlain(s, r, ip');
        StoplessConcat([s[..r.len]], rest.packets);
      }
    }
  }

  lemma EffectPlain(s: seq<byte>, r: Scan, ip': u64)
    requires r.len <= |s|
    ensures Effect(s, r, ip').bad == 0 && Effect(s, r, ip').packets == [s[..r.len]]
  {
  }

  // ---- TNT windows

  function Log2(p: nat): (n: nat)
    requires p > 0
  {
    if p == 1 then 0 else 1 + Log2(p / 2)
  }

  /** The outcomes held in `count` low bits, in the order a walk consumes them: highest bit first. */
  ghost function Window(bits: nat, count: nat): (s: seq<bool>)
  {
    if count == 0 then [] else [Shr(bits, count - 1) % 2 == 1] + Window(bits, count - 1)
  }

  lemma {:induction false} WindowLast(bits: nat, count: nat)
    requires count > 0
    ensures Window(bits, count) == Window(bits / 2, count - 1) + [bits % 2 == 1]
    decreases count
  {
    if count > 1 {
      WindowLast(bits, count - 1);
    }
  }

  /** Masking off the stop bit leaves exactly the packet's outcomes, oldest first. */
  lemma {:induction false} WindowOfPayload(p: nat)
    requires p > 0
    ensures Window(Low(p, Log2(p)), Log2(p)) == Outcomes(p)
  {
    if p > 1 {
      var k := Log2(p / 2);
      WindowOfPayload(p / 2);
      WindowLast(Low(p, k + 1), k + 1);
      assert Low(p, k + 1) / 2 == Low(p / 2, k) && Low(p, k + 1) % 2 == p % 2;
    }
  }

  lemma WindowEmpty(bits: nat)
    ensures Window(bits, 0) == []
  {
  }

  class PtDecoder {
    const trace: seq<byte>
    var pos: nat
    var ip: u64
    var tntBits: nat
    var tntCount: nat
    var block: Option<nat>
    var stats: Stats
    var out: seq<u64>
    var pcCount: nat
    ghost var windows: seq<seq<bool>>

    constructor (trace: seq<byte>)
      ensures this.trace == trace && out == []
    {
      this.trace := trace;
      pos, ip, tntBits, tntCount, block := 0, 0, 0, 0, None;
      stats := Stats(0, 0, 0, false);
      out, pcCount, windows := [], 0, [];
    }

    method EmitIp(ip: u64)
      modifies this`out, this`pcCount
      ensures out == old(out) + (if ip >= KERNEL_BASE then [ip] else [])
      ensures pcCount - old(pcCount) == |out| - |old(out)|
    {
      if ip >= KERNEL_BASE {
        out := out + [ip];
        pcCount := pcCount + 1;
      }
    }

    /** `pt_read_ip`: the number of payload bytes consumed, 0 for no payload, -1 past the end. */
    method ReadIp(enc: nat) returns (n: int)
      modifies this`pos, this`ip
      ensures IpPayloadLen(enc).None? || enc == 0 ==> n == 0 && pos == old(pos) && ip == old(ip)
      ensures IpPayloadLen(enc).Some? && enc != 0 ==>
                var k := IpPayloadLen(enc).value;
                if old(pos) + k > |trace| then n == -1 && pos == old(pos) && ip == old(ip)
                else n == k && pos == old(pos) + k && ip == LastIp(old(ip), enc, LeValue(trace[old(pos)..pos]))
    {
      hide LeValue;
      var bytes := match enc case 1 => 2 case 2 => 4 case 3 => 6 case 4 => 6 case 6 => 8 case _ => 0;
      if bytes == 0 {
        return 0;
      }
      if pos + bytes > |trace| {
        return -1;
      }
      var val := ReadLe(trace, pos, bytes);
      pos := pos + bytes;
      ip := LastIp(ip, enc, val);
      n := bytes;
    }

    method DropTnt()
      modifies this`tntBits, this`tntCount
      ensures tntBits == 0 && tntCount == 0
    {
      tntBits, tntCount := 0, 0;
    }

    /** `load_tnt` without kernel text: the held window becomes the packet's outcomes. */
    method LoadTnt(payload: nat)
      modifies this`tntBits, this`tntCount, this`stats, this`windows
      ensures Window(tntBits, tntCount) == Outcomes(payload)
      ensures windows == old(windows) + [Outcomes(payload)]
      ensures stats == if payload == 0 then old(stats).(badPackets := old(stats).badPackets + 1) else old(stats)
    {
      windows := windows + [Outcomes(payload)];
      if payload == 0 {
        stats := stats.(badPackets := stats.badPackets + 1);
        tntBits, tntCount := 0, 0;
        return;
      }
      var stop := Log2(payload);
      tntBits := Low(payload, stop);
      tntCount := stop;
      WindowOfPayload(payload);
    }

    /** The decoder's fields say what `sofar` says. */
    ghost predicate Agrees(sofar: Outcome, out0: seq<u64>)
      reads this
    {
      && out == out0 + sofar.pcs && pcCount == |sofar.pcs| && windows == sofar.windows
      && stats == RunStats(sofar)
      && Window(tntBits, tntCount) == if sofar.held.Some? then sofar.held.value else []
    }

    /** What `run` does with one accepted packet; `pt_read_ip` lands exactly on the scanned length. */
    method Act(scan: Scan, ghost sofar: Outcome, ghost out0: seq<u64>)
      requires pos < |trace| && scan == ScanPacket(trace, pos, block) && Agrees(sofar, out0)
      requires !scan.pkt.Truncated? && !scan.pkt.Bad?
      modifies this
      ensures pos == old(pos) + scan.len && block == BlockAfter(scan.pkt, old(block))
      ensures ip == IpAfter(trace[old(pos)..], scan, old(ip))
      ensures Agrees(Then(sofar, Effect(trace[old(pos)..], scan, ip)), out0)
    {
      hide ScanHead, LastIp, LeValue, Outcomes, Window;
      ghost var start := pos;
      match scan.pkt {
        case Tnt8(payload) =>
          pos := pos + scan.len;
          LoadTnt(payload);
        case Tnt64(payload) =>
          pos := pos + scan.len;
          LoadTnt(payload);
        case Ip(_, enc) =>
          if enc == 0 {
            pos := pos + scan.len;
            return;
          }
          assert trace[start + 1..start + scan.len] == trace[start..][1..scan.len];
          pos := pos + 1;
          var n := ReadIp(enc);
          assert n >= 0 && pos == start + scan.len;
          EmitIp(ip);
        case Psb =>
          pos := pos + scan.len;
          DropTnt();
          WindowEmpty(0);
        case Ovf =>
          pos := pos + scan.len;
          DropTnt();
          WindowEmpty(0);
          ip := 0;
          stats := stats.(overflows := stats.overflows + 1);
        case Bbp(wide) =>
          pos := pos + scan.len;
          block := Some(if wide then 8 else 4);
        case Bep =>
          pos := pos + scan.len;
          block := None;
        case Pad =>
          pos := pos + scan.len;
        case Skip =>
          pos := pos + scan.len;
        case Truncated => assert false;
        case Bad => assert false;
      }
    }

    /**
      `run`: exactly the PCs of `tip_only_decode`, and besides them every TNT packet's outcomes.  The
      counters differ from the tip-only ones by the long TNT packets that have no stop bit.
     */
    method Run() returns (count: nat)
      modifies this
      ensures out == old(out) + Decode(trace, None, 0).pcs && count == |Decode(trace, None, 0).pcs|
      ensures Agrees(Decode(trace, None, 0), old(out))
    {
      hide ScanHead, LastIp, FindPsb, LeValue, Outcomes, Decode, Window, Effect, IpAfter, BlockAfter;
      ghost var out0 := out;
      pos, ip, pcCount, block := 0, 0, 0, None;
      DropTnt();
      stats := Stats(0, 0, 0, false);
      windows := [];
      ghost var sofar := NOTHING;
      assert trace[0..] == trace;
      ThenNothing(Decode(trace, None, 0));
      WindowEmpty(0);
      while pos < |trace|
        invariant Progress(trace, pos, block, ip, sofar) && Agrees(sofar, out0)
        decreases |trace| - pos
      {
        var scan := ScanPacket(trace, pos, block);
        if scan.pkt.Truncated? {
          stats := stats.(truncated := true);
          StopTruncated(trace, pos, block, ip, sofar);
          return pcCount;
        }
        if scan.pkt.Bad? {
          Restart(trace, pos, block, ip, sofar);
          stats := stats.(badPackets := stats.badPackets + 1);
          DropTnt();
          ip, block := 0, None;
          var next := FindPsb(trace, pos + 1);
          if next.None? {
            return pcCount;
          }
          sofar := Then(sofar, RESYNCED);
          stats := stats.(resyncs := stats.resyncs + 1);
          pos := next.value;
          continue;
        }
        Accept(trace, pos, block, ip, sofar);
        ghost var effect := Effect(trace[pos..], scan, IpAfter(trace[pos..], scan, ip));
        Act(scan, sofar, out0);
        sofar := Then(sofar, effect);
      }
      Finish(trace, block, ip, sofar);
      count := pcCount;
    }
  }
}
