/**
  Reading coverage logs (vock/src/report/mod.rs): the line parser, and the reader thread that hands
  over line-aligned blocks while the files are still being read. Main results: `StreamedIsKept`, what
  streaming yields however the reads go, and `StreamedIsReadAll`, when that is all of each file.
 */
module LogReader {
  import opened Prelude

  const NEWLINE: byte := 10

  // ---- one line

  predicate Blank(c: byte)
  {
    c == 32 || c == 9 || c == 13
  }

  function SkipBlanks(s: seq<byte>): (r: seq<byte>)
  {
    if s != [] && Blank(s[0]) then SkipBlanks(s[1..]) else s
  }

  /** How many bytes come before the first blank. */
  function TokenLength(s: seq<byte>): (n: nat)
    ensures n <= |s|
  {
    if s == [] || Blank(s[0]) then 0 else 1 + TokenLength(s[1..])
  }

  function DigitValue(c: byte): (d: Option<nat>)
    ensures d.Some? ==> d.value < 16
  {
    if 48 <= c <= 57 then Some(c - 48)
    else if 97 <= c <= 102 then Some(c - 97 + 10)
    else if 65 <= c <= 70 then Some(c - 65 + 10)
    else None
  }

  /** The number a string of hexadecimal digits denotes. */
  ghost function HexValue(s: seq<byte>): (v: Option<nat>)
    decreases |s|
  {
    if s == [] then Some(0)
    else
      var high, low := HexValue(s[..|s| - 1]), DigitValue(s[|s| - 1]);
      if high.Some? && low.Some? then Some(high.value * 16 + low.value) else None
  }

  ghost function ParseHex(s: seq<byte>): (v: Option<nat>)
  {
    if s == [] || |s| > 16 then None else HexValue(s)
  }

  function StripPrefix(s: seq<byte>): (r: seq<byte>)
  {
    if |s| >= 2 && s[0] == 48 && (s[1] == 120 || s[1] == 88) then s[2..] else s
  }

  /** The address a line starts with, if it starts with one. */
  ghost function LinePcs(line: seq<byte>): (r: seq<nat>)
    ensures |r| <= 1
  {
    var body := SkipBlanks(line);
    var tok := body[..TokenLength(body)];
    if tok == [] then []
    else
      var pc := ParseHex(StripPrefix(tok));
      if pc.Some? then [pc.value] else []
  }

  // ---- a whole text

  function FirstNewline(s: seq<byte>): (k: nat)
    ensures k <= |s| && (k < |s| ==> s[k] == NEWLINE)
    ensures forall i :: 0 <= i < k ==> s[i] != NEWLINE
  {
    if s == [] || s[0] == NEWLINE then 0 else 1 + FirstNewline(s[1..])
  }

  ghost function Pcs(data: seq<byte>): (r: seq<nat>)
    decreases |data|
  {
    var k := FirstNewline(data);
    LinePcs(data[..k]) + (if k < |data| then Pcs(data[k + 1..]) else [])
  }

  method ParseHexBytes(hex: seq<byte>) returns (v: Option<nat>)
    ensures v == ParseHex(hex)
  {
    if hex == [] || |hex| > 16 {
      return None;
    }
    var acc: nat := 0;
    for i := 0 to |hex|
      invariant HexValue(hex[..i]) == Some(acc)
    {
      var d := DigitValue(hex[i]);
      assert hex[..i + 1][..i] == hex[..i];
      if d.None? {
        NotHex(hex, i);
        return None;
      }
      acc := acc * 16 + d.value;
    }
    assert hex[..|hex|] == hex;
    return Some(acc);
  }

  lemma {:induction false} NotHex(s: seq<byte>, i: nat)
    requires i < |s| && DigitValue(s[i]).None?
    ensures HexValue(s) == None
    decreases |s|
  {
    if i < |s| - 1 {
      NotHex(s[..|s| - 1], i);
    }
  }

  method LineAddress(line: seq<byte>) returns (r: seq<nat>)
    ensures r == LinePcs(line)
  {
    var tok := line;
    while tok != [] && Blank(tok[0])
      invariant SkipBlanks(tok) == SkipBlanks(line)
      decreases |tok|
    {
      tok := tok[1..];
    }
    var end := 0;
    while end < |tok| && !Blank(tok[end])
      invariant 0 <= end <= |tok| && TokenLength(tok) == end + TokenLength(tok[end..])
    {
      assert tok[end..][1..] == tok[end + 1..];
      end := end + 1;
    }
    tok := tok[..end];
    if tok == [] {
      return [];
    }
    var pc := ParseHexBytes(StripPrefix(tok));
    r := if pc.Some? then [pc.value] else [];
  }

  /** `parse_pcs`: append the addresses of `data` to `out`. */
  method ParsePcs(data: seq<byte>, out: seq<nat>) returns (r: seq<nat>)
    ensures r == out + Pcs(data)
  {
    hide LinePcs;
    r := out;
    var rest := data;
    while true
      invariant r + Pcs(rest) == out + Pcs(data)
      decreases |rest|
    {
      var k := FirstNewline(rest);
      var line := LineAddress(rest[..k]);
      if k == |rest| {
        assert LinePcs(rest[..k]) + [] == LinePcs(rest[..k]);
        r := r + line;
        break;
      }
      assert r + (line + Pcs(rest[k + 1..])) == (r + line) + Pcs(rest[k + 1..]);
      r := r + line;
      rest := rest[k + 1..];
    }
  }

  // ---- texts made of whole lines

  ghost predicate WholeLines(s: seq<byte>)
  {
    s == [] || s[|s| - 1] == NEWLINE
  }

  lemma FirstNewlineIs(s: seq<byte>, k: nat)
    requires k <= |s| && (k < |s| ==> s[k] == NEWLINE)
    requires forall i :: 0 <= i < k ==> s[i] != NEWLINE
    ensures FirstNewline(s) == k
  {
    var f := FirstNewline(s);
    if f < k {
      assert false;
    }
  }

  lemma NoBytes()
    ensures Pcs([]) == []
  {
    assert LinePcs([]) == [];
  }

  lemma PcsAt(data: seq<byte>, k: nat)
    requires k < |data| && data[k] == NEWLINE && forall i :: 0 <= i < k ==> data[i] != NEWLINE
    ensures Pcs(data) == LinePcs(data[..k]) + Pcs(data[k + 1..])
  {
    hide LinePcs, FirstNewline;
    FirstNewlineIs(data, k);
  }

  lemma Joined<T>(x: seq<T>, y: seq<T>, z: seq<T>)
    ensures (x + y) + z == x + (y + z)
  {
  }

  /** Addresses never straddle the end of a line. */
  lemma {:induction false} PcsAppend(a: seq<byte>, b: seq<byte>)
    requires WholeLines(a)
    ensures Pcs(a + b) == Pcs(a) + Pcs(b)
    decreases |a|
  {
    hide LinePcs, FirstNewline, Pcs;
    if a == [] {
      assert a + b == b;
      NoBytes();
    } else {
      var k := FirstNewline(a);
      assert k < |a|;
      PcsAt(a, k);
      PcsAt(a + b, k);
      assert (a + b)[..k] == a[..k] && (a + b)[k + 1..] == a[k + 1..] + b;
      PcsAppend(a[k + 1..], b);
      Joined(LinePcs(a[..k]), Pcs(a[k + 1..]), Pcs(b));
    }
  }

  // ---- reading in blocks

  /** The outcome of one read of an open file; an empty `Data` is its end. */
  datatype Read = Data(bytes: seq<byte>) | Interrupted | Failed

  /** How many leading bytes make up whole lines. */
  function Whole(s: seq<byte>): (n: nat)
    ensures n <= |s| && WholeLines(s[..n])
    ensures forall i :: n <= i < |s| ==> s[i] != NEWLINE
  {
    if s == [] || s[|s| - 1] == NEWLINE then assert s[..|s|] == s; |s|
    else assert forall m: nat :: m < |s| ==> s[..|s| - 1][..m] == s[..m]; Whole(s[..|s| - 1])
  }

  /**
    The blocks handed over for one file. The bytes waiting for the end of their line go into the
    next block before it is read, and are gone if that read brings nothing.
   */
  ghost function Blocks(events: seq<Read>, carry: seq<byte>): (r: seq<seq<byte>>)
    decreases |events|
  {
    if events == [] then []
    else match events[0]
      case Data(d) =>
        if d == [] then []
        else
          var w := Whole(carry + d);
          (if w > 0 then [(carry + d)[..w]] else []) + Blocks(events[1..], (carry + d)[w..])
      case Interrupted => Blocks(events[1..], [])
      case Failed => []
  }

  ghost function Content(events: seq<Read>): (r: seq<byte>)
    decreases |events|
  {
    if events == [] then []
    else (if events[0].Data? then events[0].bytes else []) + Content(events[1..])
  }

  /** A complete reading in which no interruption finds bytes waiting. */
  ghost predicate Calm(events: seq<Read>, carry: seq<byte>)
    decreases |events|
  {
    events == [] ||
    match events[0]
    case Data(d) => d != [] && Calm(events[1..], (carry + d)[Whole(carry + d)..])
    case Interrupted => carry == [] && Calm(events[1..], [])
    case Failed => false
  }

  ghost function Flat(blocks: seq<seq<byte>>): (r: seq<byte>)
  {
    if blocks == [] then [] else blocks[0] + Flat(blocks[1..])
  }

  lemma FlatAppend(b: seq<byte>, rest: seq<seq<byte>>)
    ensures Flat([b] + rest) == b + Flat(rest)
  {
    assert ([b] + rest)[1..] == rest;
  }

  ghost predicate AllWhole(blocks: seq<seq<byte>>)
  {
    forall i :: 0 <= i < |blocks| ==> WholeLines(blocks[i])
  }

  lemma WholeIs(s: seq<byte>, n: nat)
    requires n <= |s| && WholeLines(s[..n]) && forall i :: n <= i < |s| ==> s[i] != NEWLINE
    ensures Whole(s) == n
  {
    var w := Whole(s);
    assert n > 0 ==> s[..n][n - 1] == s[n - 1];
    assert w > 0 ==> s[..w][w - 1] == s[w - 1];
  }

  /** Joining text that ends a line moves the boundary along. */
  lemma WholeAppend(a: seq<byte>, b: seq<byte>)
    requires WholeLines(a)
    ensures Whole(a + b) == |a| + Whole(b)
  {
    var n := |a| + Whole(b);
    assert (a + b)[..n] == a + b[..Whole(b)];
    assert WholeLines(a + b[..Whole(b)]);
    forall i | n <= i < |a + b| ensures (a + b)[i] != NEWLINE {
      assert (a + b)[i] == b[i - |a|];
    }
    WholeIs(a + b, n);
  }

  lemma LeftHasNone(b: seq<byte>)
    ensures Whole(b[Whole(b)..]) == 0 && WholeLines(b[..Whole(b)])
  {
    var left := b[Whole(b)..];
    assert left[..0] == [];
    WholeIs(left, 0);
  }

  lemma NothingWhole()
    ensures Whole([]) == 0
  {
  }

  /** Without the bytes after its last line end. */
  ghost function Lines(text: seq<byte>): (r: seq<byte>)
  {
    text[..Whole(text)]
  }

  /**
    What is left of a file when every interruption, and the end of reading, takes the bytes after the
    last line end since the previous one; `run` has been read since then.
   */
  ghost function Kept(events: seq<Read>, run: seq<byte>): (r: seq<byte>)
    decreases |events|
  {
    if events == [] then Lines(run)
    else match events[0]
      case Data(d) => if d == [] then Lines(run) else Kept(events[1..], run + d)
      case Interrupted => Lines(run) + Kept(events[1..], [])
      case Failed => Lines(run)
  }

  lemma LinesOf(done: seq<byte>, carry: seq<byte>)
    requires WholeLines(done) && Whole(carry) == 0
    ensures Lines(done + carry) == done
  {
    WholeAppend(done, carry);
    assert (done + carry)[..|done|] == done;
  }

  lemma BlocksData(events: seq<Read>, carry: seq<byte>)
    requires events != [] && events[0].Data? && events[0].bytes != []
    ensures var b := carry + events[0].bytes;
            var later := Blocks(events[1..], b[Whole(b)..]);
            Blocks(events, carry) == if Whole(b) > 0 then [b[..Whole(b)]] + later else later
  {
    hide Whole;
  }

  lemma BlocksOther(events: seq<Read>, carry: seq<byte>)
    requires events == [] || !events[0].Data? || events[0].bytes == []
    ensures Blocks(events, carry) == if events != [] && events[0].Interrupted? then Blocks(events[1..], []) else []
  {
  }

  lemma KeptStep(events: seq<Read>, run: seq<byte>)
    ensures Kept(events, run)
         == if events != [] && events[0].Data? && events[0].bytes != [] then Kept(events[1..], run + events[0].bytes)
            else Lines(run) + (if events != [] && events[0].Interrupted? then Kept(events[1..], []) else [])
  {
    hide Lines;
  }

  /** However a file is read, interrupted or cut short, the blocks are exactly what is kept of it. */
  lemma {:induction false} BlocksKept(events: seq<Read>, done: seq<byte>, carry: seq<byte>)
    requires WholeLines(done) && Whole(carry) == 0
    ensures done + Flat(Blocks(events, carry)) == Kept(events, done + carry)
    ensures AllWhole(Blocks(events, carry))
    decreases |events|
  {
    hide Whole, WholeLines, Flat, Blocks, Lines, Kept;
    KeptStep(events, done + carry);
    if events != [] && events[0].Data? && events[0].bytes != [] {
      var b, rest := carry + events[0].bytes, events[1..];
      var w := Whole(b);
      BlocksData(events, carry);
      LeftHasNone(b);
      WholeJoined(done, b[..w]);
      BlocksKept(rest, done + b[..w], b[w..]);
      FlatAppend(b[..w], Blocks(rest, b[w..]));
      assert (done + b[..w]) + b[w..] == (done + carry) + events[0].bytes;
      Joined(done, b[..w], Flat(Blocks(rest, b[w..])));
      assert w == 0 ==> b[..w] == [];
    } else {
      BlocksOther(events, carry);
      LinesOf(done, carry);
      FlatNone();
      if events != [] && events[0].Interrupted? {
        NothingWhole();
        NothingBroken();
        BlocksKept(events[1..], [], []);
        NoneBefore([]);
        NoneBefore(Flat(Blocks(events[1..], [])));
      }
    }
  }

  lemma NoneBefore(a: seq<byte>)
    ensures [] + a == a
  {
  }

  lemma WholeJoined(a: seq<byte>, b: seq<byte>)
    requires WholeLines(a) && WholeLines(b)
    ensures WholeLines(a + b)
  {
  }

  lemma FlatNone()
    ensures Flat([]) == []
  {
  }

  lemma NothingBroken()
    ensures WholeLines([])
  {
  }

  lemma CalmStep(events: seq<Read>, carry: seq<byte>)
    requires events != [] && Calm(events, carry)
    ensures events[0].Data? ==> events[0].bytes != []
    ensures events[0].Data? ==> var b := carry + events[0].bytes; Calm(events[1..], b[Whole(b)..])
    ensures !events[0].Data? ==> events[0].Interrupted? && carry == [] && Calm(events[1..], [])
    ensures Content(events) == (if events[0].Data? then events[0].bytes else []) + Content(events[1..])
  {
    hide Whole;
  }

  /** A calm reading keeps the whole lines of the file. */
  lemma {:induction false} CalmKept(events: seq<Read>, done: seq<byte>, carry: seq<byte>)
    requires WholeLines(done) && Whole(carry) == 0 && Calm(events, carry)
    ensures Kept(events, done + carry) == Lines(done + carry + Content(events))
    decreases |events|
  {
    hide Whole, WholeLines, Lines, Kept, Calm;
    KeptStep(events, done + carry);
    if events == [] {
      assert done + carry + [] == done + carry;
    } else {
      CalmStep(events, carry);
      var rest := events[1..];
      if events[0].Data? {
        var d := events[0].bytes;
        var b := carry + d;
        var w := Whole(b);
        LeftHasNone(b);
        WholeJoined(done, b[..w]);
        CalmKept(rest, done + b[..w], b[w..]);
        Recut(done, carry, d, w);
        Joined(done + carry, d, Content(rest));
      } else {
        NothingWhole();
        NothingBroken();
        CalmKept(rest, [], []);
        LinesOf(done, carry);
        NoneBefore([]);
        NoneBefore(Content(rest));
        LinesAppend(done, Content(rest));
        assert done + carry == done;
      }
    }
  }

  lemma Recut(done: seq<byte>, carry: seq<byte>, d: seq<byte>, w: nat)
    requires w <= |carry + d|
    ensures var b := carry + d; done + b[..w] + b[w..] == done + carry + d
  {
  }

  lemma LinesAppend(a: seq<byte>, b: seq<byte>)
    requires WholeLines(a)
    ensures Lines(a + b) == a + Lines(b)
  {
    WholeAppend(a, b);
    assert (a + b)[..|a| + Whole(b)] == a + b[..Whole(b)];
  }

  /** However a calm reading is cut up, the blocks are the whole lines of the file. */
  lemma BlocksOfContent(events: seq<Read>, carry: seq<byte>)
    requires Calm(events, carry) && Whole(carry) == 0
    ensures var text := carry + Content(events); Flat(Blocks(events, carry)) == text[..Whole(text)]
    ensures AllWhole(Blocks(events, carry))
  {
    hide Whole, WholeLines, Flat, Blocks, Kept, Calm;
    NothingBroken();
    BlocksKept(events, [], carry);
    CalmKept(events, [], carry);
    assert [] + carry + Content(events) == carry + Content(events);
  }

  ghost function PcsOf(blocks: seq<seq<byte>>): (r: seq<nat>)
  {
    if blocks == [] then [] else Pcs(blocks[0]) + PcsOf(blocks[1..])
  }

  lemma {:induction false} PcsOfBlocks(blocks: seq<seq<byte>>)
    requires AllWhole(blocks)
    ensures PcsOf(blocks) == Pcs(Flat(blocks))
  {
    hide Pcs, WholeLines;
    if blocks == [] {
      NoBytes();
    } else {
      PcsOfBlocks(blocks[1..]);
      PcsAppend(blocks[0], Flat(blocks[1..]));
    }
  }

  /** One file, however it is read: streaming yields the addresses of what is kept. */
  lemma StreamedKept(events: seq<Read>)
    ensures PcsOf(Blocks(events, [])) == Pcs(Kept(events, []))
  {
    hide Pcs, Whole, WholeLines, Blocks, PcsOf, Kept, AllWhole, Flat;
    NothingWhole();
    NothingBroken();
    BlocksKept(events, [], []);
    NoneBefore([]);
    NoneBefore(Flat(Blocks(events, [])));
    PcsOfBlocks(Blocks(events, []));
  }

  /** What a file has after its last line end. */
  ghost function Tail(content: seq<byte>): (r: seq<byte>)
  {
    content[Whole(content)..]
  }

  /** One file: streaming yields a prefix of what is there, all but the addresses of the tail. */
  lemma StreamedFile(events: seq<Read>)
    requires Calm(events, [])
    ensures Pcs(Content(events)) == PcsOf(Blocks(events, [])) + Pcs(Tail(Content(events)))
  {
    hide Pcs, Whole, Blocks, PcsOf, Calm, AllWhole;
    var text := Content(events);
    NothingWhole();
    BlocksOfContent(events, []);
    assert [] + text == text;
    PcsOfBlocks(Blocks(events, []));
    var w := Whole(text);
    assert WholeLines(text[..w]) by { LeftHasNone(text); }
    assert text == text[..w] + text[w..];
    PcsAppend(text[..w], text[w..]);
  }

  // ---- all the files

  /** A file that cannot be opened, or the reads it takes. */
  datatype File = Missing | Opened(events: seq<Read>)

  ghost function Streamed(files: seq<File>): (r: seq<nat>)
  {
    if files == [] then []
    else (if files[0].Opened? then PcsOf(Blocks(files[0].events, [])) else []) + Streamed(files[1..])
  }

  ghost function ReadAll(files: seq<File>): (r: seq<nat>)
  {
    if files == [] then []
    else (if files[0].Opened? then Pcs(Content(files[0].events)) else []) + ReadAll(files[1..])
  }

  ghost function AllKept(files: seq<File>): (r: seq<nat>)
  {
    if files == [] then []
    else (if files[0].Opened? then Pcs(Kept(files[0].events, [])) else []) + AllKept(files[1..])
  }

  /** For all files and all reads, streaming gives the addresses of what is kept of each file. */
  lemma {:induction false} StreamedIsKept(files: seq<File>)
    ensures Streamed(files) == AllKept(files)
    decreases |files|
  {
    hide Pcs, PcsOf, Blocks, Kept;
    if files != [] {
      StreamedIsKept(files[1..]);
      if files[0].Opened? {
        StreamedKept(files[0].events);
      }
    }
  }

  ghost predicate AllCalm(files: seq<File>)
  {
    forall i :: 0 <= i < |files| && files[i].Opened? ==> Calm(files[i].events, [])
  }

  ghost predicate NoTailPcs(files: seq<File>)
  {
    forall i :: 0 <= i < |files| && files[i].Opened? ==> Pcs(Tail(Content(files[i].events))) == []
  }

  /**
    However the reads cut the files up, streaming gives exactly the addresses of `read_all_pcs` if and
    only if no file holds an address after its last line end.
   */
  lemma {:induction false} StreamedIsReadAll(files: seq<File>)
    requires AllCalm(files)
    ensures |Streamed(files)| <= |ReadAll(files)|
    ensures Streamed(files) == ReadAll(files) <==> NoTailPcs(files)
    decreases |files|
  {
    hide Pcs, PcsOf, Blocks, Content, Tail, Calm;
    if files != [] {
      var rest := files[1..];
      StreamedIsReadAll(rest);
      assert NoTailPcs(files) <==>
        NoTailPcs(rest) && (files[0].Opened? ==> Pcs(Tail(Content(files[0].events))) == []) by {
        assert files == [files[0]] + rest;
      }
      if files[0].Opened? {
        var e := files[0].events;
        StreamedFile(e);
        JoinEqual(PcsOf(Blocks(e, [])), Pcs(Tail(Content(e))), Streamed(rest), ReadAll(rest));
      } else {
        assert Streamed(files) == Streamed(rest) && ReadAll(files) == ReadAll(rest);
      }
    }
  }

  lemma JoinEqual(x: seq<nat>, tail: seq<nat>, y: seq<nat>, z: seq<nat>)
    requires |y| <= |z|
    ensures x + y == (x + tail) + z <==> tail == [] && y == z
  {
    if tail == [] {
      assert x + tail == x;
      assert (x + y)[|x|..] == y && (x + z)[|x|..] == z;
    }
  }

  /** Logs that end their last line lose nothing. */
  lemma TerminatedIsExact(files: seq<File>)
    requires AllCalm(files)
    requires forall i :: 0 <= i < |files| && files[i].Opened? ==> WholeLines(Content(files[i].events))
    ensures Streamed(files) == ReadAll(files)
  {
    hide Pcs, Calm, Content;
    forall i | 0 <= i < |files| && files[i].Opened? ensures Pcs(Tail(Content(files[i].events))) == [] {
      var text := Content(files[i].events);
      assert text[..|text|] == text;
      WholeIs(text, |text|);
      assert Tail(text) == [];
      NoBytes();
    }
    StreamedIsReadAll(files);
  }

  // ---- the reader thread

  ghost function AllBlocks(files: seq<File>): (r: seq<seq<byte>>)
  {
    if files == [] then []
    else (if files[0].Opened? then Blocks(files[0].events, []) else []) + AllBlocks(files[1..])
  }

  lemma {:induction false} PcsOfAppend(x: seq<seq<byte>>, y: seq<seq<byte>>)
    ensures PcsOf(x + y) == PcsOf(x) + PcsOf(y)
    decreases |x|
  {
    hide Pcs;
    if x == [] {
      assert x + y == y;
    } else {
      assert (x + y)[1..] == x[1..] + y;
      PcsOfAppend(x[1..], y);
      assert Pcs(x[0]) + (PcsOf(x[1..]) + PcsOf(y)) == (Pcs(x[0]) + PcsOf(x[1..])) + PcsOf(y);
    }
  }

  lemma {:induction false} StreamedBlocks(files: seq<File>)
    ensures PcsOf(AllBlocks(files)) == Streamed(files)
    decreases |files|
  {
    hide Pcs, Blocks;
    if files != [] {
      StreamedBlocks(files[1..]);
      PcsOfAppend(if files[0].Opened? then Blocks(files[0].events, []) else [], AllBlocks(files[1..]));
      assert [] + AllBlocks(files[1..]) == AllBlocks(files[1..]);
    }
  }

  method AfterLastNewline(block: seq<byte>) returns (n: nat)
    ensures n == Whole(block)
  {
    n := |block|;
    while n > 0 && block[n - 1] != NEWLINE
      invariant n <= |block|
      invariant forall i :: n <= i < |block| ==> block[i] != NEWLINE
    {
      n := n - 1;
    }
    WholeIs(block, n);
  }

  /** `spawn_reader`: everything it sends, in order. Nothing is ever waiting when a file ends. */
  method SendBlocks(files: seq<File>) returns (sent: seq<seq<byte>>)
    ensures sent == AllBlocks(files)
  {
    hide Blocks, Whole;
    sent := [];
    var carry: seq<byte> := [];
    for f := 0 to |files|
      invariant carry == []
      invariant sent + AllBlocks(files[f..]) == AllBlocks(files)
    {
      assert files[f..][0] == files[f] && files[f..][1..] == files[f + 1..];
      if files[f].Opened? {
        ghost var before := sent;
        sent, carry := SendFile(files[f].events, sent, carry);
        Joined(before, Blocks(files[f].events, []), AllBlocks(files[f + 1..]));
        if carry != [] {
          carry := carry + [NEWLINE];
          sent := sent + [carry];
          carry := [];
        }
      } else {
        assert [] + AllBlocks(files[f + 1..]) == AllBlocks(files[f + 1..]);
      }
    }
    assert files[|files|..] == [];
    assert sent + [] == sent;
  }

  /** The read loop for one file. */
  method SendFile(events: seq<Read>, sent: seq<seq<byte>>, carried: seq<byte>)
    returns (sent': seq<seq<byte>>, carry: seq<byte>)
    ensures sent' == sent + Blocks(events, carried) && carry == []
  {
    hide Whole;
    sent', carry := sent, carried;
    var i := 0;
    assert events[0..] == events;
    while true
      invariant 0 <= i <= |events|
      invariant sent' + Blocks(events[i..], carry) == sent + Blocks(events, carried)
      decreases |events| - i
    {
      var block := carry;
      carry := [];
      if i == |events| {
        assert sent' + [] == sent';
        break;
      }
      ghost var rest := events[i + 1..];
      assert events[i..][0] == events[i] && events[i..][1..] == rest;
      var event := events[i];
      i := i + 1;
      if event.Failed? || (event.Data? && event.bytes == []) {
        assert sent' + [] == sent';
        break;
      }
      if event.Data? {
        block := block + event.bytes;
        var w := AfterLastNewline(block);
        carry := block[w..];
        if w > 0 {
          Joined(sent', [block[..w]], Blocks(rest, carry));
          sent' := sent' + [block[..w]];
        } else {
          assert [] + Blocks(rest, carry) == Blocks(rest, carry);
        }
      }
    }
  }

  // ---- what is lost

  /** A file cut off inside a line: its last address is read whole but never streamed. */
  lemma UnterminatedIsLost()
    ensures var files := [Opened([Data([48, 120, 97])])];
            AllCalm(files) && ReadAll(files) == [10] && Streamed(files) == []
  {
    var text: seq<byte> := [48, 120, 97];
    var events := [Data(text)];
    var files := [Opened(events)];
    assert [] + text == text && text[..2] == [48, 120] && text[..1] == [48] && text[..0] == [];
    assert forall i :: 0 <= i < |text| ==> text[i] != NEWLINE;
    WholeIs(text, 0);
    assert events[1..] == [] && files[1..] == [];
    assert Blocks(events, []) == [] + Blocks([], text);
    assert Content(events) == text + Content([]);
    assert Streamed(files) == [] + Streamed([]);
    PcText(text);
  }

  lemma PcText(text: seq<byte>)
    requires text == [48, 120, 97]
    ensures Pcs(text) == [10] && text + [] == text
  {
    FirstNewlineIs(text, 3);
    assert text[..3] == text;
    assert text[1..] == [120, 97] && text[1..][1..] == [97] && text[1..][1..][1..] == [];
    assert TokenLength([97]) == 1 && TokenLength([120, 97]) == 2;
    assert TokenLength(text) == 3;
    assert StripPrefix(text) == [97];
    assert [97][..0] == [];
    var digit: seq<byte> := [97];
    assert HexValue(digit[..0]) == Some(0);
    assert HexValue(digit) == Some(10);
  }

  /** A read interrupted inside a line: the bytes waiting for its end are gone. */
  lemma InterruptedIsLost(text: seq<byte>)
    requires text != [] && forall i :: 0 <= i < |text| ==> text[i] != NEWLINE
    ensures var files := [Opened([Data(text), Interrupted, Data([NEWLINE])])];
            Streamed(files) == [] && ReadAll(files) == Pcs(text) && !AllCalm(files)
  {
    hide Pcs, PcsOf, Blocks, Content, Calm;
    var events := [Data(text), Interrupted, Data([NEWLINE])];
    var files := [Opened(events)];
    assert files[1..] == [];
    InterruptedEvents(text);
    LoneNewline();
    EndedLine(text);
    assert Streamed([]) == [] && ReadAll([]) == [];
    assert Pcs(text) + [] == Pcs(text);
    assert !Calm(files[0].events, []);
  }

  lemma InterruptedEvents(text: seq<byte>)
    requires text != [] && forall i :: 0 <= i < |text| ==> text[i] != NEWLINE
    ensures var events := [Data(text), Interrupted, Data([NEWLINE])];
            && Blocks(events, []) == Blocks([Data([NEWLINE])], [])
            && Content(events) == text + [NEWLINE] && !Calm(events, [])
  {
    var last := Data([NEWLINE]);
    var tail := [Interrupted, last];
    var events := [Data(text)] + tail;
    assert events == [Data(text), Interrupted, last];
    assert [] + text == text && text[0..] == text;
    WholeIs(text, 0);
    hide Whole;
    assert events[1..] == tail && tail[1..] == [last] && [last][1..] == [];
    assert Blocks(tail, text) == Blocks([last], []) by { hide Content, Calm; }
    assert Blocks(events, []) == [] + Blocks(tail, text) by { hide Content, Calm; }
    assert !Calm(tail, text) by { hide Content, Blocks; }
    assert Content([last]) == [NEWLINE] by { hide Blocks, Calm; assert [NEWLINE] + Content([]) == [NEWLINE]; }
    assert Content(tail) == [NEWLINE] by { hide Blocks, Calm; }
    assert Content(events) == text + [NEWLINE] by { hide Blocks, Calm; }
  }

  lemma LoneNewline()
    ensures var last := Data([NEWLINE]); PcsOf(Blocks([last], [])) == []
  {
    hide LinePcs;
    var nl: seq<byte> := [NEWLINE];
    assert [] + nl == nl && nl[..1] == nl && nl[1..] == [];
    WholeIs(nl, 1);
    assert [Data(nl)][1..] == [];
    assert Blocks([Data(nl)], []) == [nl] + [];
    assert [nl][1..] == [];
    FirstNewlineIs(nl, 0);
    assert nl[..0] == [];
    NoBytes();
    assert Pcs(nl) == LinePcs([]) + Pcs([]);
    assert Pcs([]) == LinePcs([][..0]) + [];
    assert PcsOf([nl]) == Pcs(nl) + PcsOf([]);
  }

  lemma EndedLine(text: seq<byte>)
    requires forall i :: 0 <= i < |text| ==> text[i] != NEWLINE
    ensures Pcs(text + [NEWLINE]) == Pcs(text)
  {
    hide LinePcs;
    var t := text + [NEWLINE];
    FirstNewlineIs(t, |text|);
    FirstNewlineIs(text, |text|);
    assert t[..|text|] == text && text[..|text|] == text && t[|text| + 1..] == [];
    NoBytes();
  }
}
