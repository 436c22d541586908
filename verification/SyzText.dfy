/**
  The textual form of syzkaller arguments: the grammar the parser of vock/src/fuzz/prog_decode.rs
  accepts, as functions on the text that is left, and a printer for argument trees.

  Text is ASCII.  Compressed blobs (`"$..."`) go through the parameter `unpack`.
 */
module SyzText {
  import opened Prelude
  import opened SyzLayout

  const ENCODING_ADDR_BASE: u64 := 0x7f00_0000_0000
  const MAX_DEPTH: nat := 64

  // ---- characters

  /** Latin-1 white space. */
  predicate IsWs(c: char)
  {
    c == ' ' || '\t' <= c <= '\r' || c == 0x85 as char || c == 0xA0 as char
  }

  predicate IsSep(c: char)
  {
    c == ',' || c == ')' || c == '}' || c == ']' || c == '=' || c == ' ' || c == '\t' || c == '\0'
  }

  function Digit(c: char): (r: Option<nat>)
    ensures r.Some? ==> r.value < 16
  {
    if '0' <= c <= '9' then Some(c as int - '0' as int)
    else if 'a' <= c <= 'f' then Some(c as int - 'a' as int + 10)
    else if 'A' <= c <= 'F' then Some(c as int - 'A' as int + 10)
    else None
  }

  predicate IsDigitOf(c: char, radix: nat)
  {
    Digit(c).Some? && Digit(c).value < radix
  }

  function DigitOf(c: char, radix: nat): (d: nat)
    requires IsDigitOf(c, radix)
    ensures d < radix
  {
    Digit(c).value
  }

  /** The byte an ASCII character stands for. */
  function CharByte(c: char): byte
  {
    c as int % 256
  }

  // ---- lexing

  function Peek(s: string): (c: char)
  {
    if s == [] then '\0' else s[0]
  }

  function EatWs(s: string): (r: string)
    ensures |r| <= |s| && (r != [] ==> !IsWs(r[0])) && (s != [] && !IsWs(s[0]) ==> r == s)
  {
    if s != [] && IsWs(s[0]) then EatWs(s[1..]) else s
  }

  function TrimEnd(s: string): (r: string)
  {
    if s != [] && IsWs(s[|s| - 1]) then TrimEnd(s[..|s| - 1]) else s
  }

  function Trim(s: string): (r: string)
  {
    TrimEnd(EatWs(s))
  }

  /** How far a bare token or an opaque suffix reaches. */
  function TokenLen(s: string): (n: nat)
    ensures n <= |s|
  {
    if s == [] || IsSep(s[0]) then 0 else 1 + TokenLen(s[1..])
  }

  /** How far a quoted or bracketed body reaches; a backslash hides the character after it. */
  function BodyLen(s: string, close: char): (n: nat)
    ensures n <= |s|
  {
    if s == [] || s[0] == close then 0
    else if s[0] == '\\' && |s| > 1 then 2 + BodyLen(s[2..], close)
    else 1 + BodyLen(s[1..], close)
  }

  /** What follows the closing character, or nothing if it is missing. */
  function AfterBody(s: string, close: char): (r: string)
    ensures |r| <= |s| && (s != [] ==> |r| < |s|)
  {
    var n := BodyLen(s, close);
    if n < |s| then s[n + 1..] else []
  }

  predicate StartsWith(s: string, p: string)
  {
    p <= s
  }

  // ---- numbers

  function Scaled(v: nat, radix: nat): (r: nat)
  {
    if radix == 8 then 8 * v else if radix == 10 then 10 * v else 16 * v
  }

  /** The value of a digit string in radix 8, 10 or 16. */
  function Value(s: string, radix: nat): (v: nat)
    requires radix == 8 || radix == 10 || radix == 16
    requires forall i :: 0 <= i < |s| ==> IsDigitOf(s[i], radix)
  {
    if s == [] then 0 else Scaled(Value(s[..|s| - 1], radix), radix) + DigitOf(s[|s| - 1], radix)
  }

  /** Rust's `u64::from_str_radix`, which accepts a leading plus sign. */
  function FromRadix(s: string, radix: nat): (r: Option<u64>)
    requires radix == 8 || radix == 10 || radix == 16
  {
    var t := if |s| > 1 && s[0] == '+' then s[1..] else s;
    if t != [] && (forall i :: 0 <= i < |t| ==> IsDigitOf(t[i], radix)) && Value(t, radix) < U64
    then Some(Value(t, radix)) else None
  }

  /** `neg.parse::<i64>()`, negated and cast back to 64 bits. */
  function Negated(s: string): (r: Option<u64>)
  {
    var minus := |s| > 1 && s[0] == '-';
    var t := if |s| > 1 && (s[0] == '+' || s[0] == '-') then s[1..] else s;
    if t != [] && (forall i :: 0 <= i < |t| ==> IsDigitOf(t[i], 10)) then
      var v := Value(t, 10);
      if minus then (if v <= 0x8000_0000_0000_0000 then Some(v) else None)
      else if v < 0x8000_0000_0000_0000 then Some(if v == 0 then 0 else U64 - v) else None
    else None
  }

  /** `parse_int`: hexadecimal, negative, octal or decimal. */
  function ParseInt(s0: string): (r: Option<u64>)
  {
    var s := Trim(s0);
    if s == [] then None
    else if StartsWith(s, "0x") || StartsWith(s, "0X") then FromRadix(s[2..], 16)
    else if s[0] == '-' then Negated(s[1..])
    else if |s| > 1 && s[0] == '0' && (forall i :: 0 <= i < |s| ==> '0' <= s[i] <= '7') then FromRadix(s[1..], 8)
    else FromRadix(s, 10)
  }

  function DigitsLen(s: string): (n: nat)
    ensures n <= |s| && forall i :: 0 <= i < n ==> IsDigitOf(s[i], 10)
  {
    if s == [] || !IsDigitOf(s[0], 10) then 0 else 1 + DigitsLen(s[1..])
  }

  predicate IsAlnum(c: char)
  {
    '0' <= c <= '9' || 'a' <= c <= 'z' || 'A' <= c <= 'Z'
  }

  function AlnumLen(s: string): (n: nat)
    ensures n <= |s|
  {
    if s == [] || !IsAlnum(s[0]) then 0 else 1 + AlnumLen(s[1..])
  }

  function OrZero(v: Option<u64>): u64
  {
    if v.Some? then v.value else 0
  }

  /** An optional `<mark><integer>` part: its value (0 if absent or unreadable) and what follows. */
  function Part(s: string, mark: char): (r: (u64, string))
  {
    if s != [] && s[0] == mark then
      var n := AlnumLen(s[1..]);
      (OrZero(ParseInt(s[1..][..n])), s[1..][n..])
    else (0, s)
  }

  /** `parse_res_ref`: `rN[/div][+add]`, nothing else. */
  function ParseResRef(w: string): (r: Option<Arg>)
  {
    if w == [] || w[0] != 'r' then None
    else
      var n := DigitsLen(w[1..]);
      if n == 0 then None
      else
        var idx := FromRadix(w[1..][..n], 10);
        if idx.None? then None
        else
          var (div, t1) := Part(w[1..][n..], '/');
          var (add, t2) := Part(t1, '+');
          if t2 != [] then None else Some(Res(idx.value, div, add))
  }

  // ---- byte literals

  /** Escapes as `unescape` reads them. */
  function Unescape(s: string): (r: seq<byte>)
  {
    if s == [] then []
    else if s[0] == '\\' && |s| > 1 then
      match s[1]
      case 'n' => [10] + Unescape(s[2..])
      case 't' => [9] + Unescape(s[2..])
      case 'r' => [13] + Unescape(s[2..])
      case 'a' => [7] + Unescape(s[2..])
      case 'b' => [8] + Unescape(s[2..])
      case 'f' => [12] + Unescape(s[2..])
      case 'v' => [11] + Unescape(s[2..])
      case 'x' =>
        if |s| > 3 && Digit(s[2]).Some? && Digit(s[3]).Some?
        then [16 * Digit(s[2]).value + Digit(s[3]).value] + Unescape(s[4..])
        else [CharByte(s[1])] + Unescape(s[2..])
      case c => [CharByte(c)] + Unescape(s[2..])
    else [CharByte(s[0])] + Unescape(s[1..])
  }

  /** Two hexadecimal digits a byte. */
  function HexPairs(s: string): (r: seq<byte>)
    requires forall i :: 0 <= i < |s| ==> IsDigitOf(s[i], 16)
  {
    if |s| < 2 then [] else [16 * DigitOf(s[0], 16) + DigitOf(s[1], 16)] + HexPairs(s[2..])
  }

  /** `decode_hex_bytes`. */
  function HexLiteral(s: string, unpack: string -> seq<byte>): (r: seq<byte>)
  {
    if s != [] && s[0] == '$' then unpack(s[1..])
    else if s != [] && |s| % 2 == 0 && (forall i :: 0 <= i < |s| ==> IsDigitOf(s[i], 16)) then HexPairs(s)
    else Unescape(s)
  }

  // ---- the grammar

  /** A bare token. */
  function TokenArg(w: string): (a: Arg)
  {
    if w == "nil" || w == "AUTO" then Nil
    else if StartsWith(w, "csum") then Csum
    else
      var r := ParseResRef(w);
      if r.Some? then r.value
      else
        var v := ParseInt(w);
        if v.Some? then Int(v.value) else Nil
  }

  function ParseWord(s0: string): (r: (Arg, string))
    ensures |r.1| <= |s0|
  {
    var s := EatWs(s0);
    var n := TokenLen(s);
    var w := Trim(s[..n]);
    if w == [] then (Nil, if n < |s| then s[n + 1..] else [])
    else (TokenArg(w), s[n..])
  }

  /** `"..."/0x20`: an explicit buffer size is skipped. */
  function SkipSize(s: string): (r: string)
    ensures |r| <= |s|
  {
    if Peek(s) == '/' then s[1..][TokenLen(s[1..])..] else s
  }

  /** Rust's `body.split('/').next()`. */
  function BeforeSlash(s: string): (r: string)
  {
    if s == [] || s[0] == '/' then [] else [s[0]] + BeforeSlash(s[1..])
  }

  /** The address part of a pointer: arena-relative, or the AUTO sentinel. */
  function PtrAddr(s: string): (r: (u64, string))
    ensures |r.1| <= |s|
  {
    if StartsWith(s, "AUTO") then (AUTO_ADDR, s[4..])
    else
      var t := EatWs(s);
      if Peek(t) == '(' then
        var body := t[1..][..BodyLen(t[1..], ')')];
        var v := ParseInt(Trim(BeforeSlash(body)));
        var text := if v.Some? then v.value else ENCODING_ADDR_BASE;
        ((text - ENCODING_ADDR_BASE) % U64, AfterBody(t[1..], ')'))
      else (0, t)
  }

  /** `<rN=>`: the slot a label names, if it names one. */
  function LabelSlot(name: string): (r: Option<nat>)
  {
    var t := Trim(name);
    if t == [] || t[0] != 'r' then None else FromRadix(t[1..], 10)
  }

  function NameLen(s: string): (n: nat)
    ensures n <= |s|
  {
    if s == [] || s[0] == '=' || IsSep(s[0]) then 0 else 1 + NameLen(s[1..])
  }

  /** A label head `<...=>` at the front of `s`. */
  predicate HasLabel(s: string)
  {
    s != [] && s[0] == '<' &&
    var n := BodyLen(s[1..], '>');
    n > 0 && s[1..][n - 1] == '='
  }

  /** `arg`: one argument at nesting depth `d`, and the text after it. */
  function ParseArg(s0: string, d: nat, unpack: string -> seq<byte>): (r: (Arg, string))
    ensures |r.1| <= |s0|
    decreases |s0|, 2
  {
    var s := EatWs(s0);
    if d >= MAX_DEPTH then (Nil, s[TokenLen(s)..])
    else ParseInner(s, d + 1, unpack)
  }

  function ParseInner(s: string, d: nat, unpack: string -> seq<byte>): (r: (Arg, string))
    ensures |r.1| <= |s|
    decreases |s|, 1
  {
    if HasLabel(s) then
      var n := BodyLen(s[1..], '>');
      var (inner, rest) := ParseArg(AfterBody(s[1..], '>'), d, unpack);
      var slot := LabelSlot(s[1..][..n - 1]);
      (if slot.Some? then Out(slot.value, inner) else inner, rest)
    else
      match Peek(s)
      case '&' => ParsePtr(s[1..], d, unpack)
      case '{' => var (fs, rest) := ParseList(s[1..], '}', d, unpack); (Struct(fs), rest)
      case '[' => var (fs, rest) := ParseList(s[1..], ']', d, unpack); (Array(fs), rest)
      case '@' =>
        var t := EatWs(s[1..][NameLen(s[1..])..]);
        if Peek(t) == '=' then var (c, rest) := ParseArg(t[1..], d, unpack); (Union(c), rest)
        else (Nil, t)
      case '"' =>
        var n := BodyLen(s[1..], '"');
        (Data(HexLiteral(s[1..][..n], unpack)), SkipSize(AfterBody(s[1..], '"')))
      case '\'' =>
        var n := BodyLen(s[1..], '\'');
        (Data(Unescape(s[1..][..n])), SkipSize(AfterBody(s[1..], '\'')))
      case _ => ParseWord(s)
  }

  function ParsePtr(s: string, d: nat, unpack: string -> seq<byte>): (r: (Arg, string))
    ensures |r.1| <= |s|
    decreases |s|, 3
  {
    var (addr, t0) := PtrAddr(s);
    var t := EatWs(t0);
    if Peek(t) == '=' then
      var u := EatWs(t[1..]);
      var v := if StartsWith(u, "ANY=") then u[4..] else u;
      if StartsWith(v, "nil") then (Ptr(addr, None), v[3..])
      else var (inner, rest) := ParseArg(v, d, unpack); (Ptr(addr, Some(inner)), rest)
    else (Ptr(addr, None), t)
  }

  /** `list`: arguments up to `close`, which is NUL for the outermost list. */
  function ParseList(s0: string, close: char, d: nat, unpack: string -> seq<byte>): (r: (seq<Arg>, string))
    ensures |r.1| <= |s0|
    decreases |s0|, 3
  {
    var s := EatWs(s0);
    if s == [] then ([], s)
    else if s[0] == close then ([], s[1..])
    else
      var (a, r1) := ParseArg(s, d, unpack);
      var t := EatWs(r1);
      if Peek(t) == ',' then var (fs, rest) := ParseList(t[1..], close, d, unpack); ([a] + fs, rest)
      else if Peek(t) == close then ([a], if t == [] then [] else t[1..])
      else
        var u := if |t| == |s| then t[1..] else t;
        var (fs, rest) := ParseList(u, close, d, unpack);
        ([a] + fs, rest)
  }
}
