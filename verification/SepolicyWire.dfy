/** The byte format of a policy batch, as values: commands, their encoding and their decoding. */
module SepolicyWire {
  import opened Basics

  type Bytes = seq<Byte>

  const CMD_NORMAL_PERM := 1
  const CMD_XPERM := 2
  const CMD_TYPE_STATE := 3
  const CMD_TYPE := 4
  const CMD_TYPE_ATTR := 5
  const CMD_ATTR := 6
  const CMD_TYPE_TRANSITION := 7
  const CMD_TYPE_CHANGE := 8
  const CMD_GENFSCON := 9

  /** One argument as the kernel sees it: ALL (NULL) or a C string. */
  datatype Arg = ALL | Str(s: Bytes)

  datatype Command = Command(cmd: U32, subcmd: U32, args: seq<Arg>)

  /** The kernel's table of argument counts. */
  function KernelArgc(cmd: U32): Option<nat> {
    if cmd == CMD_NORMAL_PERM then Some(4)
    else if cmd == CMD_XPERM then Some(5)
    else if cmd == CMD_TYPE_STATE then Some(1)
    else if cmd == CMD_TYPE || cmd == CMD_TYPE_ATTR then Some(2)
    else if cmd == CMD_ATTR then Some(1)
    else if cmd == CMD_TYPE_TRANSITION then Some(5)
    else if cmd == CMD_TYPE_CHANGE then Some(4)
    else if cmd == CMD_GENFSCON then Some(3)
    else None
  }

  // ---------- encoding ----------

  /** A 32-bit value in memory order (little endian). */
  function U32Bytes(v: U32): (b: Bytes)
    ensures |b| == 4
  {
    [v % 0x100, v / 0x100 % 0x100, v / 0x1_0000 % 0x100, v / 0x100_0000]
  }

  function EncodeArg(a: Arg): Bytes
    requires ValidArg(a)
  {
    match a
    case ALL => U32Bytes(0) + [0]
    case Str(s) => U32Bytes(|s|) + s + [0]
  }

  function EncodeArgs(args: seq<Arg>): Bytes
    requires forall i :: 0 <= i < |args| ==> ValidArg(args[i])
  {
    if args == [] then [] else EncodeArg(args[0]) + EncodeArgs(args[1..])
  }

  function EncodeCommand(c: Command): Bytes
    requires ValidCommand(c)
  {
    U32Bytes(c.cmd) + U32Bytes(c.subcmd) + EncodeArgs(c.args)
  }

  function Encode(cs: seq<Command>): Bytes
    requires ValidCommands(cs)
  {
    if cs == [] then [] else EncodeCommand(cs[0]) + Encode(cs[1..])
  }

  /** A string argument is a nonempty C string whose length fits the length field. */
  ghost predicate ValidArg(a: Arg) {
    a.Str? ==> 0 < |a.s| < 0x1_0000_0000 && 0 !in a.s
  }

  ghost predicate ValidCommand(c: Command) {
    && KernelArgc(c.cmd) == Some(|c.args|)
    && forall i :: 0 <= i < |c.args| ==> ValidArg(c.args[i])
  }

  ghost predicate ValidCommands(cs: seq<Command>) {
    forall i :: 0 <= i < |cs| ==> ValidCommand(cs[i])
  }

  // ---------- decoding ----------

  function ReadU32(b: Bytes): U32
    requires |b| >= 4
  {
    b[0] as int + 0x100 * (b[1] as int) + 0x1_0000 * (b[2] as int) + 0x100_0000 * (b[3] as int)
  }

  /** One string argument and what follows it. */
  function DecodeArg(b: Bytes): (res: Option<(Arg, Bytes)>)
    ensures res.Some? ==> |res.value.1| + 5 <= |b|
  {
    if |b| < 4 then
      None
    else
      var len := ReadU32(b);
      var r := b[4..];
      if len >= |r| || 0 in r[..len] || r[len] != 0 then None
      else Some((if len == 0 then ALL else Str(r[..len]), r[len + 1..]))
  }

  function DecodeArgs(b: Bytes, n: nat): (res: Option<(seq<Arg>, Bytes)>)
    ensures res.Some? ==> |res.value.0| == n && |res.value.1| <= |b|
  {
    if n == 0 then
      Some(([], b))
    else
      match DecodeArg(b)
      case None => None
      case Some((a, r)) =>
        match DecodeArgs(r, n - 1)
        case None => None
        case Some((args, r')) => Some(([a] + args, r'))
  }

  function DecodeCommand(b: Bytes): (res: Option<(Command, Bytes)>)
    ensures res.Some? ==> |res.value.1| + 8 <= |b|
  {
    if |b| < 8 then
      None
    else
      var cmd, subcmd := ReadU32(b), ReadU32(b[4..]);
      match KernelArgc(cmd)
      case None => None
      case Some(n) =>
        match DecodeArgs(b[8..], n)
        case None => None
        case Some((args, r)) => Some((Command(cmd, subcmd, args), r))
  }

  function Decode(b: Bytes): Option<seq<Command>>
    decreases |b|
  {
    if b == [] then
      Some([])
    else
      match DecodeCommand(b)
      case None => None
      case Some((c, r)) =>
        match Decode(r)
        case None => None
        case Some(cs) => Some([c] + cs)
  }

  // ---------- one field at a time ----------

  lemma U32RoundTrip(v: U32, rest: Bytes)
    ensures ReadU32(U32Bytes(v) + rest) == v
  {
    var a := v / 0x100;
    var b := a / 0x100;
    var c := b / 0x100;
    assert b == v / 0x1_0000 && c == v / 0x100_0000;
    var t := U32Bytes(v) + rest;
    assert t[0] == v % 0x100 && t[1] == a % 0x100 && t[2] == b % 0x100 && t[3] == c;
  }

  lemma U32BytesOfRead(b: Bytes)
    requires |b| >= 4
    ensures U32Bytes(ReadU32(b)) == b[..4]
  {
    Digits(b[0], b[1], b[2], b[3]);
    assert b[..4] == [b[0], b[1], b[2], b[3]];
  }

  lemma Digits(w: Byte, x: Byte, y: Byte, z: Byte)
    ensures var v := w + 0x100 * x + 0x1_0000 * y + 0x100_0000 * z;
            v % 0x100 == w && v / 0x100 % 0x100 == x && v / 0x1_0000 % 0x100 == y && v / 0x100_0000 == z
  {
    var a := x + 0x100 * y + 0x1_0000 * z;
    LowDigit(w, a);
    LowDigit(x, y + 0x100 * z);
    LowDigit(y, z);
    NestedQuotients(w + 0x100 * a);
  }

  lemma LowDigit(low: Byte, high: nat)
    ensures (low + 0x100 * high) % 0x100 == low && (low + 0x100 * high) / 0x100 == high
  {
  }

  lemma NestedQuotients(v: nat)
    ensures v / 0x1_0000 == v / 0x100 / 0x100 && v / 0x100_0000 == v / 0x100 / 0x100 / 0x100
  {
  }

  lemma ArgRoundTrip(a: Arg, rest: Bytes)
    requires ValidArg(a)
    ensures DecodeArg(EncodeArg(a) + rest) == Some((a, rest))
  {
    hide U32Bytes, ReadU32;
    var s := if a.Str? then a.s else [];
    var b := EncodeArg(a) + rest;
    assert b == U32Bytes(|s|) + (s + [0] + rest);
    U32RoundTrip(|s|, s + [0] + rest);
    assert b[4..] == s + [0] + rest;
    assert b[4..][..|s|] == s && b[4..][|s| + 1..] == rest;
  }

  lemma ArgOfDecode(b: Bytes)
    requires DecodeArg(b).Some?
    ensures var (a, r) := DecodeArg(b).value; ValidArg(a) && b == EncodeArg(a) + r
  {
    hide U32Bytes, ReadU32;
    var (a, r) := DecodeArg(b).value;
    var len := ReadU32(b);
    U32BytesOfRead(b);
    assert b == b[..4] + b[4..];
    assert b[4..] == b[4..][..len] + [0] + r;
  }

  lemma {:induction false} ArgsRoundTrip(args: seq<Arg>, rest: Bytes)
    requires forall i :: 0 <= i < |args| ==> ValidArg(args[i])
    ensures DecodeArgs(EncodeArgs(args) + rest, |args|) == Some((args, rest))
  {
    hide U32Bytes, ReadU32, EncodeArg, DecodeArg;
    if args == [] {
      assert EncodeArgs(args) + rest == rest;
    } else {
      var tail := EncodeArgs(args[1..]) + rest;
      assert EncodeArgs(args) + rest == EncodeArg(args[0]) + tail;
      ArgRoundTrip(args[0], tail);
      ArgsRoundTrip(args[1..], rest);
      assert [args[0]] + args[1..] == args;
    }
  }

  lemma {:induction false} ArgsOfDecode(b: Bytes, n: nat)
    requires DecodeArgs(b, n).Some?
    ensures var (args, r) := DecodeArgs(b, n).value;
            && |args| == n && (forall i :: 0 <= i < |args| ==> ValidArg(args[i]))
            && b == EncodeArgs(args) + r
    decreases n
  {
    hide U32Bytes, ReadU32, EncodeArg, DecodeArg;
    if n > 0 {
      ArgOfDecode(b);
      var (a, r) := DecodeArg(b).value;
      ArgsOfDecode(r, n - 1);
      var (args, r') := DecodeArgs(r, n - 1).value;
      assert ([a] + args)[1..] == args;
      assert EncodeArg(a) + (EncodeArgs(args) + r') == (EncodeArg(a) + EncodeArgs(args)) + r';
    } else {
      assert b == [] + b;
    }
  }

  lemma CommandRoundTrip(c: Command, rest: Bytes)
    requires ValidCommand(c)
    ensures DecodeCommand(EncodeCommand(c) + rest) == Some((c, rest))
  {
    hide U32Bytes, ReadU32, EncodeArgs, DecodeArgs;
    var b := EncodeCommand(c) + rest;
    var tail := EncodeArgs(c.args) + rest;
    assert b == U32Bytes(c.cmd) + (U32Bytes(c.subcmd) + tail);
    U32RoundTrip(c.cmd, U32Bytes(c.subcmd) + tail);
    assert b[4..] == U32Bytes(c.subcmd) + tail;
    U32RoundTrip(c.subcmd, tail);
    assert b[8..] == tail;
    ArgsRoundTrip(c.args, rest);
  }

  lemma CommandOfDecode(b: Bytes)
    requires DecodeCommand(b).Some?
    ensures var (c, r) := DecodeCommand(b).value;
            ValidCommand(c) && b == EncodeCommand(c) + r
  {
    hide U32Bytes, ReadU32, EncodeArgs, DecodeArgs;
    var (c, r) := DecodeCommand(b).value;
    ArgsOfDecode(b[8..], |c.args|);
    HeaderOfDecode(b);
    var args := EncodeArgs(c.args);
    assert b == (U32Bytes(c.cmd) + U32Bytes(c.subcmd)) + (args + r);
    assert b == ((U32Bytes(c.cmd) + U32Bytes(c.subcmd)) + args) + r;
  }

  lemma HeaderOfDecode(b: Bytes)
    requires |b| >= 8
    ensures b == U32Bytes(ReadU32(b)) + U32Bytes(ReadU32(b[4..])) + b[8..]
  {
    U32BytesOfRead(b);
    U32BytesOfRead(b[4..]);
    assert b[4..][..4] == b[4..8];
    assert b == b[..4] + b[4..8] + b[8..];
  }

  // ---------- whole batches ----------

  lemma {:induction false} DecodeOfEncode(cs: seq<Command>)
    requires ValidCommands(cs)
    ensures Decode(Encode(cs)) == Some(cs)
  {
    hide EncodeCommand, DecodeCommand;
    if cs != [] {
      CommandRoundTrip(cs[0], Encode(cs[1..]));
      DecodeOfEncode(cs[1..]);
      assert [cs[0]] + cs[1..] == cs;
    }
  }

  lemma {:induction false} EncodeOfDecode(b: Bytes)
    requires Decode(b).Some?
    ensures ValidCommands(Decode(b).value) && Encode(Decode(b).value) == b
    decreases |b|
  {
    hide EncodeCommand, DecodeCommand;
    if b != [] {
      CommandOfDecode(b);
      var (c, r) := DecodeCommand(b).value;
      EncodeOfDecode(r);
      var cs := Decode(r).value;
      assert ([c] + cs)[1..] == cs;
    }
  }

  /** Encoding and decoding are mutually inverse: a payload is accepted as some list of commands
    * exactly when it is that list's encoding. */
  lemma DecodeIffEncode(b: Bytes, cs: seq<Command>)
    ensures Decode(b) == Some(cs) <==> ValidCommands(cs) && Encode(cs) == b
  {
    if Decode(b) == Some(cs) {
      EncodeOfDecode(b);
    }
    if ValidCommands(cs) && Encode(cs) == b {
      DecodeOfEncode(cs);
    }
  }

  /** For example, the bytes of the command that allows su everything of class process. */
  lemma WireExample()
    ensures var c := Command(1, 1, [Str([115, 117]), ALL, Str([112]), ALL]);
            && ValidCommand(c)
            && EncodeCommand(c) == [1, 0, 0, 0] + [1, 0, 0, 0] +
                                   ([2, 0, 0, 0, 115, 117, 0] + ([0, 0, 0, 0, 0] +
                                     ([1, 0, 0, 0, 112, 0] + [0, 0, 0, 0, 0])))
    ensures U32Bytes(0x1234_5678) == [0x78, 0x56, 0x34, 0x12]
  {
    var c := Command(1, 1, [Str([115, 117]), ALL, Str([112]), ALL]);
    assert ValidCommand(c);
    assert EncodeCommand(c) == U32Bytes(1) + U32Bytes(1) + EncodeArgs(c.args);
    hide *;
    WordExample(0, [0, 0, 0, 0]);
    WordExample(1, [1, 0, 0, 0]);
    WordExample(2, [2, 0, 0, 0]);
    WordExample(0x1234_5678, [0x78, 0x56, 0x34, 0x12]);
    ArgExamples();
    FourArgs(c.args);
  }

  lemma ArgExamples()
    ensures EncodeArg(Str([115, 117])) == [2, 0, 0, 0, 115, 117, 0] && EncodeArg(Str([112])) == [1, 0, 0, 0, 112, 0]
    ensures EncodeArg(ALL) == [0, 0, 0, 0, 0]
  {
    WordExample(0, [0, 0, 0, 0]);
    WordExample(1, [1, 0, 0, 0]);
    WordExample(2, [2, 0, 0, 0]);
    hide U32Bytes;
  }

  lemma WordExample(v: U32, b: Bytes)
    requires |b| == 4
    requires v == b[0] as int + 0x100 * (b[1] as int) + 0x1_0000 * (b[2] as int) + 0x100_0000 * (b[3] as int)
    ensures U32Bytes(v) == b
  {
    U32BytesOfRead(b);
    assert b[..4] == b;
  }

  lemma FourArgs(args: seq<Arg>)
    requires |args| == 4 && forall i :: 0 <= i < 4 ==> ValidArg(args[i])
    ensures EncodeArgs(args) ==
            EncodeArg(args[0]) + (EncodeArg(args[1]) + (EncodeArg(args[2]) + EncodeArg(args[3])))
  {
    hide EncodeArg, ValidArg;
    var b, c, d := args[1..], args[2..], args[3..];
    assert b[1..] == c && c[1..] == d && d[1..] == [];
    assert EncodeArgs(d) == EncodeArg(args[3]) + [] == EncodeArg(args[3]);
    assert EncodeArgs(c) == EncodeArg(args[2]) + EncodeArgs(d);
    assert EncodeArgs(b) == EncodeArg(args[1]) + EncodeArgs(c);
    assert EncodeArgs(args) == EncodeArg(args[0]) + EncodeArgs(b);
  }
}
