/** The daemon's serializer and the kernel's cursor over a batch. */
module SepolicyBatch {
  import opened Basics
  import opened SepolicyWire

  // ---------- the daemon's statements ----------

  const SEPOLICY_MAX_LEN := 128
  const STAR: Bytes := [42]

  /** A policy string, or all, or nothing. One holds the C string in its fixed buffer. */
  datatype PolicyObject = NoneObj | AllObj | One(buf: Bytes)

  datatype AtomicStatement = AtomicStatement(cmd: U32, subcmd: U32, sepol: seq<PolicyObject>)

  /** The bytes before the first NUL. */
  function CStr(s: Bytes): Bytes {
    if s == [] || s[0] == 0 then [] else [s[0]] + CStr(s[1..])
  }

  /** PolicyObject::from_str */
  function FromStr(s: Bytes): PolicyObject {
    if s == STAR then AllObj
    else if |s| < SEPOLICY_MAX_LEN then One(CStr(s))
    else NoneObj
  }

  /** What the kernel reads for an object: no string and an empty string are both ALL. */
  function ArgOf(o: PolicyObject): Arg {
    if o.One? && o.buf != [] then Str(o.buf) else ALL
  }

  /** Statements as the parser builds them: seven objects, each made by FromStr or left out. */
  ghost predicate WfStatement(st: AtomicStatement) {
    && |st.sepol| == 7
    && forall i :: 0 <= i < 7 ==> st.sepol[i].One? ==> |st.sepol[i].buf| < SEPOLICY_MAX_LEN && 0 !in st.sepol[i].buf
  }

  /** expected_argc, the daemon's table; negative for an unknown command. */
  function ExpectedArgc(cmd: U32): int {
    if cmd == 1 then 4
    else if cmd == 2 then 5
    else if cmd == 3 then 1
    else if cmd == 4 || cmd == 5 then 2
    else if cmd == 6 then 1
    else if cmd == 7 then 5
    else if cmd == 8 then 4
    else if cmd == 9 then 3
    else -1
  }

  /** The command a statement stands for. */
  function CommandOf(st: AtomicStatement): Command
    requires |st.sepol| == 7 && 0 <= ExpectedArgc(st.cmd) <= 7
  {
    Command(st.cmd, st.subcmd, seq(ExpectedArgc(st.cmd), i requires 0 <= i < 7 => ArgOf(st.sepol[i])))
  }

  ghost predicate KnownCommands(sts: seq<AtomicStatement>) {
    forall i :: 0 <= i < |sts| ==> ExpectedArgc(sts[i].cmd) >= 0
  }

  ghost predicate WfStatements(sts: seq<AtomicStatement>) {
    forall i :: 0 <= i < |sts| ==> WfStatement(sts[i])
  }

  ghost function CommandsOf(sts: seq<AtomicStatement>): (cs: seq<Command>)
    requires WfStatements(sts) && KnownCommands(sts)
    ensures |cs| == |sts|
  {
    if sts == [] then [] else CommandsOf(sts[..|sts| - 1]) + [CommandOf(sts[|sts| - 1])]
  }

  // ---------- facts about the daemon's objects ----------

  lemma {:induction false} CStrIsC(s: Bytes)
    ensures 0 !in CStr(s) && |CStr(s)| <= |s|
    ensures CStr(s) == s <==> 0 !in s
  {
    if s != [] && s[0] != 0 {
      CStrIsC(s[1..]);
      assert s == [s[0]] + s[1..];
    }
  }

  /** A text operand reaches the kernel as that same string exactly when it is not empty, not `*`,
    * contains no NUL and is shorter than the buffer; anything else but a NUL inside becomes ALL. */
  lemma TextSurvives(s: Bytes)
    ensures ArgOf(FromStr(s)) == Str(s) <==> s != [] && s != STAR && 0 !in s && |s| < SEPOLICY_MAX_LEN
    ensures s == [] || s == STAR || |s| >= SEPOLICY_MAX_LEN ==> ArgOf(FromStr(s)) == ALL
    ensures FromStr(s).One? ==> |FromStr(s).buf| < SEPOLICY_MAX_LEN && 0 !in FromStr(s).buf
  {
    CStrIsC(s);
  }

  /** For example, a text of 128 letters becomes ALL, and one with a NUL inside is cut there. */
  lemma TextsThatChange()
    ensures ArgOf(FromStr(seq(128, _ => 97))) == ALL
    ensures ArgOf(FromStr([97, 0, 98])) == Str([97])
  {
    assert CStr([97, 0, 98]) == [97] + CStr([0, 98]);
  }

  /** The two argument-count tables, written separately, agree. */
  lemma ArgcAgree(cmd: U32)
    ensures KernelArgc(cmd) == if ExpectedArgc(cmd) >= 0 then Some(ExpectedArgc(cmd)) else None
    ensures ExpectedArgc(cmd) <= 5
    ensures 1 <= cmd <= 9 <==> ExpectedArgc(cmd) >= 0
    ensures 1 <= cmd <= 9 ==> ExpectedArgc(cmd) == [4, 5, 1, 2, 2, 1, 5, 4, 3][cmd - 1]
  {
  }

  lemma CommandOfValid(st: AtomicStatement)
    requires WfStatement(st) && ExpectedArgc(st.cmd) >= 0
    ensures ValidCommand(CommandOf(st))
  {
  }

  lemma {:induction false} CommandsOfAt(sts: seq<AtomicStatement>, i: nat)
    requires WfStatements(sts) && KnownCommands(sts) && i < |sts|
    ensures CommandsOf(sts)[i] == CommandOf(sts[i])
  {
    if i < |sts| - 1 {
      CommandsOfAt(sts[..|sts| - 1], i);
    }
  }

  /** One more statement of a list. */
  lemma CommandsOfSnoc(sts: seq<AtomicStatement>, i: nat)
    requires i < |sts| && WfStatements(sts)
    ensures WfStatement(sts[i]) && WfStatements(sts[..i]) && WfStatements(sts[..i + 1])
    ensures KnownCommands(sts[..i + 1]) <==> KnownCommands(sts[..i]) && ExpectedArgc(sts[i].cmd) >= 0
    ensures KnownCommands(sts) ==> ExpectedArgc(sts[i].cmd) >= 0
    ensures KnownCommands(sts[..i + 1]) ==>
              CommandsOf(sts[..i + 1]) == CommandsOf(sts[..i]) + [CommandOf(sts[i])]
  {
    var a, b := sts[..i], sts[..i + 1];
    assert forall j :: 0 <= j < i ==> a[j] == sts[j] && b[j] == sts[j];
    assert b[i] == sts[i] && b[..i] == a;
    assert ExpectedArgc(sts[i].cmd) < 0 ==> ExpectedArgc(b[i].cmd) < 0;
  }

  lemma NoCommands()
    ensures WfStatements([]) && KnownCommands([]) && CommandsOf([]) == []
    ensures ValidCommands([]) && Encode([]) == []
  {
  }

  lemma {:induction false} EncodeSnoc(cs: seq<Command>, c: Command)
    requires ValidCommands(cs) && ValidCommand(c)
    ensures ValidCommands(cs + [c]) && Encode(cs + [c]) == Encode(cs) + EncodeCommand(c)
  {
    hide EncodeCommand;
    if cs == [] {
      assert ([] + [c])[1..] == [];
    } else {
      assert (cs + [c])[1..] == cs[1..] + [c];
      EncodeSnoc(cs[1..], c);
      assert EncodeCommand(cs[0]) + (Encode(cs[1..]) + EncodeCommand(c)) ==
             (EncodeCommand(cs[0]) + Encode(cs[1..])) + EncodeCommand(c);
    }
  }

  lemma {:induction false} EncodeArgsSnoc(args: seq<Arg>, a: Arg)
    requires ValidArg(a) && forall i :: 0 <= i < |args| ==> ValidArg(args[i])
    ensures EncodeArgs(args + [a]) == EncodeArgs(args) + EncodeArg(a)
  {
    hide EncodeArg;
    if args == [] {
      assert ([] + [a])[1..] == [];
    } else {
      assert (args + [a])[1..] == args[1..] + [a];
      EncodeArgsSnoc(args[1..], a);
      assert EncodeArg(args[0]) + (EncodeArgs(args[1..]) + EncodeArg(a)) ==
             (EncodeArg(args[0]) + EncodeArgs(args[1..])) + EncodeArg(a);
    }
  }

  /** The payload vector and the functions that append to it. */
  class Serializer {
    var payload: Bytes

    constructor ()
      ensures payload == []
    {
      payload := [];
    }

    /** append_u32 */
    method AppendU32(v: U32)
      modifies this
      ensures payload == old(payload) + U32Bytes(v)
    {
      payload := payload + [v % 0x100];
      payload := payload + [v / 0x100 % 0x100];
      payload := payload + [v / 0x1_0000 % 0x100];
      payload := payload + [v / 0x100_0000];
    }

    /** append_policy_object */
    method AppendPolicyObject(o: PolicyObject)
      requires ValidArg(ArgOf(o))
      modifies this
      ensures payload == old(payload) + EncodeArg(ArgOf(o))
    {
      var value := if o.One? then o.buf else [];
      AppendU32(|value|);
      if |value| > 0 {
        payload := payload + value;
      }
      payload := payload + [0];
    }

    /** The argument loop of serialize_statement. */
    method AppendArgs(objects: seq<PolicyObject>, ghost args: seq<Arg>)
      requires |args| == |objects|
      requires forall i :: 0 <= i < |args| ==> args[i] == ArgOf(objects[i]) && ValidArg(args[i])
      modifies this
      ensures payload == old(payload) + EncodeArgs(args)
    {
      hide EncodeArg, ValidArg, ArgOf;
      for i := 0 to |objects|
        invariant payload == old(payload) + EncodeArgs(args[..i])
      {
        AppendPolicyObject(objects[i]);
        EncodeArgsSnoc(args[..i], args[i]);
        assert args[..i + 1] == args[..i] + [args[i]];
      }
      assert args[..|args|] == args;
    }

    /** serialize_statement */
    method SerializeStatement(st: AtomicStatement) returns (ok: bool)
      requires WfStatement(st)
      modifies this
      ensures ok <==> ExpectedArgc(st.cmd) >= 0
      ensures !ok ==> payload == old(payload)
      ensures ok ==> ValidCommand(CommandOf(st)) && payload == old(payload) + EncodeCommand(CommandOf(st))
    {
      hide U32Bytes, EncodeArgs;
      var argc := ExpectedArgc(st.cmd);
      if argc < 0 {
        return false;
      }
      CommandOfValid(st);
      AppendU32(st.cmd);
      AppendU32(st.subcmd);
      AppendArgs(st.sepol[..argc], CommandOf(st).args);
      return true;
    }

    /** serialize_statements */
    method SerializeStatements(sts: seq<AtomicStatement>) returns (ok: bool)
      requires WfStatements(sts)
      modifies this
      ensures ok <==> KnownCommands(sts)
      ensures ok ==> ValidCommands(CommandsOf(sts)) && payload == Encode(CommandsOf(sts))
    {
      payload := [];
      ghost var cs: seq<Command> := [];
      NoCommands();
      hide *;
      assert sts[..0] == [];
      for i := 0 to |sts|
        invariant WfStatements(sts[..i]) && KnownCommands(sts[..i]) && cs == CommandsOf(sts[..i])
        invariant ValidCommands(cs) && payload == Encode(cs)
      {
        CommandsOfSnoc(sts, i);
        var done := SerializeStatement(sts[i]);
        if !done {
          return false;
        }
        EncodeSnoc(cs, CommandOf(sts[i]));
        cs := cs + [CommandOf(sts[i])];
      }
      assert sts[..|sts|] == sts;
      return true;
    }
  }

  // ---------- the kernel's cursor ----------

  lemma DecodeArgsStep(b: Bytes, n: nat)
    requires n > 0 && DecodeArg(b).Some?
    ensures var (a, r) := DecodeArg(b).value;
            match DecodeArgs(b, n)
            case None => DecodeArgs(r, n - 1) == None
            case Some((args, r')) => args[0] == a && DecodeArgs(r, n - 1) == Some((args[1..], r'))
  {
    var (a, r) := DecodeArg(b).value;
    if DecodeArgs(r, n - 1).Some? {
      assert ([a] + DecodeArgs(r, n - 1).value.0)[1..] == DecodeArgs(r, n - 1).value.0;
    }
  }

  /** struct sepol_batch_cursor */
  class BatchCursor {
    const buf: array<Byte>
    var cur: nat

    constructor (buf: array<Byte>)
      ensures this.buf == buf && cur == 0 && Valid() && Rest() == buf[..]
    {
      this.buf := buf;
      cur := 0;
    }

    ghost predicate Valid()
      reads this
    {
      cur <= buf.Length
    }

    ghost function Rest(): (b: Bytes)
      requires Valid()
      reads this, buf
      ensures |b| == Remaining()
    {
      buf[cur..]
    }

    /** sepol_remaining */
    function Remaining(): nat
      requires Valid()
      reads this
    {
      buf.Length - cur
    }

    method ReadU32At(at: nat) returns (v: U32)
      requires Valid() && at + 4 <= Remaining()
      ensures v == ReadU32(Rest()[at..])
    {
      v := buf[cur + at] as int + 0x100 * (buf[cur + at + 1] as int) + 0x1_0000 * (buf[cur + at + 2] as int)
        + 0x100_0000 * (buf[cur + at + 3] as int);
    }

    /** memchr(cursor->cur, '\0', len) != NULL */
    method MemchrNul(len: nat) returns (found: bool)
      requires Valid() && len <= Remaining()
      ensures found <==> 0 in Rest()[..len]
    {
      var i := 0;
      while i < len
        invariant i <= len && 0 !in Rest()[..i]
      {
        if buf[cur + i] == 0 {
          assert Rest()[..len][i] == 0;
          return true;
        }
        assert Rest()[..i + 1] == Rest()[..i] + [Rest()[i]];
        i := i + 1;
      }
      return false;
    }

    /** sepol_read_cmd_header */
    method ReadCmdHeader() returns (ret: int, cmd: U32, subcmd: U32)
      requires Valid()
      modifies this
      ensures Valid()
      ensures ret == if |old(Rest())| < 8 then -EINVAL else 0
      ensures ret == 0 ==> cmd == ReadU32(old(Rest())) && subcmd == ReadU32(old(Rest())[4..])
                           && Rest() == old(Rest())[8..]
    {
      if Remaining() < 8 {
        return -EINVAL, 0, 0;
      }
      cmd := ReadU32At(0);
      subcmd := ReadU32At(4);
      cur := cur + 8;
      ret := 0;
    }

    /** sepol_read_string */
    method ReadString() returns (ret: int, out: Arg)
      requires Valid()
      modifies this
      ensures Valid()
      ensures match DecodeArg(old(Rest()))
              case None => ret == -EINVAL
              case Some((a, r)) => ret == 0 && out == a && Rest() == r
    {
      if Remaining() < 4 {
        return -EINVAL, ALL;
      }
      var len := ReadU32At(0);
      cur := cur + 4;
      ghost var r := Rest();
      assert r == old(Rest())[4..];
      if len >= Remaining() {
        return -EINVAL, ALL;
      }
      var nul := MemchrNul(len);
      if nul || buf[cur + len] != 0 {
        return -EINVAL, ALL;
      }
      var str := buf[cur..cur + len];
      assert str == r[..len];
      cur := cur + len + 1;
      ret, out := 0, if len == 0 then ALL else Str(str);
    }

    /** The header, argument count check and argument loop of the batch loop. */
    method ReadCommand() returns (ret: int, c: Command)
      requires Valid()
      modifies this
      ensures Valid()
      ensures match DecodeCommand(old(Rest()))
              case None => ret == -EINVAL
              case Some((c', r)) => ret == 0 && c == c' && Rest() == r
    {
      hide ReadU32, DecodeArg, DecodeArgs;
      var cmd, subcmd;
      ret, cmd, subcmd := ReadCmdHeader();
      c := Command(0, 0, []);
      if ret < 0 {
        return;
      }
      var argc := KernelArgc(cmd);
      if argc.None? {
        return -EINVAL, c;
      }
      var args;
      ret, args := ReadArgs(argc.value);
      if ret < 0 {
        return;
      }
      c := Command(cmd, subcmd, args);
    }

    /** The argument loop. */
    method ReadArgs(argc: nat) returns (ret: int, args: seq<Arg>)
      requires Valid()
      modifies this
      ensures Valid()
      ensures match DecodeArgs(old(Rest()), argc)
              case None => ret == -EINVAL
              case Some((all, r)) => ret == 0 && args == all && Rest() == r
    {
      hide DecodeArg;
      ghost var body := Rest();
      args := [];
      for i := 0 to argc
        invariant Valid() && |args| == i
        invariant match DecodeArgs(body, argc)
                  case None => DecodeArgs(Rest(), argc - i) == None
                  case Some((all, r)) => DecodeArgs(Rest(), argc - i) == Some((all[i..], r)) && args == all[..i]
      {
        var a;
        ghost var before := Rest();
        ret, a := ReadString();
        if ret < 0 {
          return;
        }
        DecodeArgsStep(before, argc - i);
        args := args + [a];
      }
      ret := 0;
    }
  }

  // ---------- whole batches ----------

  /** Decoding the rest after a prefix of commands has been read. */
  lemma {:induction false} DecodeAfter(b: Bytes, done: seq<Command>, rest: Bytes)
    requires ValidCommands(done) && b == Encode(done) + rest
    ensures Decode(b) == match Decode(rest) case None => None case Some(cs) => Some(done + cs)
    decreases |done|
  {
    hide EncodeCommand, DecodeCommand;
    if done == [] {
      assert b == rest;
      assert Decode(rest).Some? ==> [] + Decode(rest).value == Decode(rest).value;
    } else {
      var tail := Encode(done[1..]) + rest;
      assert b == EncodeCommand(done[0]) + tail;
      CommandRoundTrip(done[0], tail);
      DecodeAfter(tail, done[1..], rest);
      if Decode(rest).Some? {
        assert [done[0]] + (done[1..] + Decode(rest).value) == done + Decode(rest).value;
      }
    }
  }

  lemma EncodeNonEmpty(cs: seq<Command>)
    requires ValidCommands(cs)
    ensures cs != [] ==> |Encode(cs)| > 0
  {
  }
}
