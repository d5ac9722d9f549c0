/** JSON values and their printed text. */
module Json {

  /** Numbers are integers here; an object's members are kept in the order std::map iterates over them. */
  datatype Value =
    | Null
    | Bool(b: bool)
    | Number(n: int)
    | String(s: string)
    | Array(a: seq<Value>)
    | Object(o: seq<Member>)

  datatype Member = Member(key: string, value: Value)

  // ---- Strings ----

  const BACKSPACE := 8 as char
  const FORM_FEED := 12 as char

  function HexDigit(d: int): (c: char)
    requires 0 <= d < 16
    ensures '0' <= c <= '9' || 'a' <= c <= 'f'
  {
    "0123456789abcdef"[d]
  }

  /** How one character is written. */
  function Escape(c: char): string {
    if c == '\"' then "\\\""
    else if c == '\\' then "\\\\"
    else if c == BACKSPACE then "\\b"
    else if c == FORM_FEED then "\\f"
    else if c == '\n' then "\\n"
    else if c == '\r' then "\\r"
    else if c == '\t' then "\\t"
    else if c < ' ' then "\\u00" + [HexDigit(c as int / 16), HexDigit(c as int % 16)]
    else [c]
  }

  function EscapeAll(s: string): string {
    if s == "" then "" else Escape(s[0]) + EscapeAll(s[1..])
  }

  /** escape_string */
  function Quote(s: string): string {
    "\"" + (EscapeAll(s) + "\"")
  }

  // ---- Numbers ----

  function NatText(n: nat): (t: string)
    ensures t != "" && forall i :: 0 <= i < |t| ==> '0' <= t[i] <= '9'
  {
    if n < 10 then [('0' as int + n) as char] else NatText(n / 10) + [('0' as int + n % 10) as char]
  }

  function IntText(n: int): string {
    if n < 0 then "-" + NatText(-n) else NatText(n)
  }

  function StripZeros(t: string): string {
    if t != "" && t[|t| - 1] == '0' then StripZeros(t[..|t| - 1]) else t
  }

  /** std::to_string prints six decimals; the zeros at the end and then the point are removed. */
  function NumberText(n: int): string {
    var t := StripZeros(IntText(n) + ".000000");
    if t != "" && t[|t| - 1] == '.' then t[..|t| - 1] else t
  }

  lemma NumberTextIsInt(n: int)
    ensures NumberText(n) == IntText(n)
  {
    var t := IntText(n) + ".";
    Stripped(t, 6);
    assert IntText(n) + ".000000" == t + seq(6, _ => '0');
  }

  lemma {:induction false} Stripped(t: string, k: nat)
    requires t != "" && t[|t| - 1] != '0'
    ensures StripZeros(t + seq(k, _ => '0')) == t
  {
    var u := t + seq(k, _ => '0');
    if k == 0 {
      assert u == t;
    } else {
      assert u[..|u| - 1] == t + seq(k - 1, _ => '0');
      Stripped(t, k - 1);
    }
  }

  // ---- Values ----

  function Spaces(n: nat): string {
    seq(n, _ => ' ')
  }

  /** The start of a fresh line at some level; nothing in compact form. */
  function NewLine(indent: int, level: nat): string {
    if indent >= 0 then "\n" + Spaces(level * indent) else ""
  }

  /** What stands between element i of n and the next element or the closing bracket. */
  function Gap(n: nat, i: nat, indent: int, level: nat): string
    requires i < n
  {
    if i == n - 1 then NewLine(indent, level)
    else if indent >= 0 then "," + NewLine(indent, level + 1)
    else ", "
  }

  /** dump */
  function Dump(v: Value, indent: int, level: nat): string
    decreases v
  {
    match v
    case Null => "null"
    case Bool(b) => if b then "true" else "false"
    case Number(n) => NumberText(n)
    case String(s) => Quote(s)
    case Array(a) => if a == [] then "[]" else "[" + (NewLine(indent, level + 1) + Elements(v, 0, indent, level))
    case Object(o) => if o == [] then "{}" else "{" + (NewLine(indent, level + 1) + Members(v, 0, indent, level))
  }

  /** The elements of an array from number i on, and its closing bracket. */
  function Elements(v: Value, i: nat, indent: int, level: nat): (t: string)
    requires v.Array? && i <= |v.a|
    ensures t != "" && (i == |v.a| ==> t == "]")
    decreases v, |v.a| - i
  {
    if i == |v.a| then "]"
    else Dump(v.a[i], indent, level + 1) + (Gap(|v.a|, i, indent, level) + Elements(v, i + 1, indent, level))
  }

  function Colon(indent: int): string {
    ":" + if indent >= 0 then " " else ""
  }

  /** The members of an object from number i on, and its closing brace. */
  function Members(v: Value, i: nat, indent: int, level: nat): (t: string)
    requires v.Object? && i <= |v.o|
    ensures t != "" && (i == |v.o| ==> t == "}")
    decreases v, |v.o| - i
  {
    if i == |v.o| then "}"
    else Quote(v.o[i].key) + (Colon(indent) + (Dump(v.o[i].value, indent, level + 1) +
           (Gap(|v.o|, i, indent, level) + Members(v, i + 1, indent, level))))
  }

  // ---- std::map<std::string, Value> ----

  /** The order of std::string. */
  predicate Less(x: string, y: string) {
    y != "" && (x == "" || x[0] < y[0] || (x[0] == y[0] && Less(x[1..], y[1..])))
  }

  predicate Sorted(o: seq<Member>) {
    forall i, j :: 0 <= i < j < |o| ==> Less(o[i].key, o[j].key)
  }

  /** o[key] = value */
  function Put(o: seq<Member>, key: string, value: Value): seq<Member> {
    if o == [] || Less(key, o[0].key) then [Member(key, value)] + o
    else if o[0].key == key then [Member(key, value)] + o[1..]
    else [o[0]] + Put(o[1..], key, value)
  }

  /** Every object in v, however deep, is a std::map. */
  ghost predicate Wf(v: Value) {
    match v
    case Array(a) => forall i :: 0 <= i < |a| ==> Wf(a[i])
    case Object(o) => Sorted(o) && forall i :: 0 <= i < |o| ==> Wf(o[i].value)
    case _ => true
  }

  lemma {:induction false} LessAsymmetric(x: string, y: string)
    requires Less(x, y)
    ensures !Less(y, x) && x != y
  {
    if x != "" && x[0] == y[0] {
      LessAsymmetric(x[1..], y[1..]);
    }
  }

  lemma {:induction false} LessTransitive(x: string, y: string, z: string)
    requires Less(x, y) && Less(y, z)
    ensures Less(x, z)
  {
    if x != "" && x[0] == y[0] == z[0] {
      LessTransitive(x[1..], y[1..], z[1..]);
    }
  }

  lemma {:induction false} LessTotal(x: string, y: string)
    ensures Less(x, y) || x == y || Less(y, x)
  {
    if x != "" && y != "" && x[0] == y[0] {
      LessTotal(x[1..], y[1..]);
      assert x == [x[0]] + x[1..] && y == [y[0]] + y[1..];
    }
  }

  /** Putting a member keeps the map in order and touches only its own key. */
  lemma {:induction false} PutSorted(o: seq<Member>, key: string, value: Value)
    requires Sorted(o)
    ensures Sorted(Put(o, key, value))
    ensures forall m :: m in Put(o, key, value) <==> m == Member(key, value) || (m in o && m.key != key)
  {
    if o != [] {
      forall m | m in o[1..]
        ensures Less(o[0].key, m.key)
      {
      }
      if Less(key, o[0].key) {
        forall m | m in o
          ensures Less(key, m.key) && m.key != key
        {
          if m != o[0] {
            LessTransitive(key, o[0].key, m.key);
          }
          LessAsymmetric(key, m.key);
        }
      } else if o[0].key == key {
        forall m | m in o[1..]
          ensures m.key != key
        {
          LessAsymmetric(key, m.key);
        }
      } else {
        LessTotal(key, o[0].key);
        PutSorted(o[1..], key, value);
        var p := Put(o[1..], key, value);
        forall j | 0 <= j < |p|
          ensures Less(o[0].key, p[j].key)
        {
          assert p[j] in p;
        }
      }
    }
  }

  /** A key above all others goes to the end. */
  lemma {:induction false} PutLast(o: seq<Member>, key: string, value: Value)
    requires forall m :: m in o ==> Less(m.key, key)
    ensures Put(o, key, value) == o + [Member(key, value)]
  {
    if o != [] {
      assert o[0] in o;
      LessAsymmetric(o[0].key, key);
      PutLast(o[1..], key, value);
      assert o == [o[0]] + o[1..];
    }
  }

  // ---- What survives printing and parsing ----

  /** What the parser makes of one printed character: it knows the escapes of the quote, the backslash,
    * newline and tab, and drops the backslash of every other. */
  function MangleChar(c: char): string {
    if c == BACKSPACE then "b"
    else if c == FORM_FEED then "f"
    else if c == '\r' then "r"
    else if c == '\n' || c == '\t' || c >= ' ' then [c]
    else "u00" + [HexDigit(c as int / 16), HexDigit(c as int % 16)]
  }

  function MangleText(s: string): string {
    if s == "" then "" else MangleChar(s[0]) + MangleText(s[1..])
  }

  function Mangle(v: Value): Value
    decreases v
  {
    match v
    case String(s) => String(MangleText(s))
    case Array(a) => Array(seq(|a|, i requires 0 <= i < |a| => Mangle(a[i])))
    case Object(o) => Object(MangleMembers(v, |o|))
    case _ => v
  }

  /** The map after the first n members have been put. */
  function MangleMembers(v: Value, n: nat): seq<Member>
    requires v.Object? && n <= |v.o|
    decreases v, n
  {
    if n == 0 then []
    else Put(MangleMembers(v, n - 1), MangleText(v.o[n - 1].key), Mangle(v.o[n - 1].value))
  }

  /** The only characters below the space are newline and tab. */
  predicate CleanText(s: string) {
    forall i :: 0 <= i < |s| ==> s[i] >= ' ' || s[i] == '\n' || s[i] == '\t'
  }

  ghost predicate Clean(v: Value) {
    match v
    case String(s) => CleanText(s)
    case Array(a) => forall i :: 0 <= i < |a| ==> Clean(a[i])
    case Object(o) => forall m :: m in o ==> CleanText(m.key) && Clean(m.value)
    case _ => true
  }

  lemma {:induction false} MangleTextClean(s: string)
    ensures CleanText(MangleText(s))
    ensures CleanText(s) ==> MangleText(s) == s
  {
    if s != "" {
      MangleTextClean(s[1..]);
      assert CleanText(MangleChar(s[0]));
      if CleanText(s) {
        assert CleanText(s[1..]) && s == [s[0]] + s[1..];
      }
    }
  }

  /** What comes back is always clean and always a proper map. */
  lemma {:induction false} MangleClean(v: Value)
    ensures Clean(Mangle(v)) && Wf(Mangle(v))
    decreases v
  {
    match v
    case String(s) => MangleTextClean(s);
    case Array(a) =>
      forall i | 0 <= i < |a|
        ensures Clean(Mangle(a[i])) && Wf(Mangle(a[i]))
      {
        MangleClean(a[i]);
      }
    case Object(o) =>
      forall i | 0 <= i < |o|
        ensures Clean(Mangle(o[i].value)) && Wf(Mangle(o[i].value))
      {
        MangleClean(o[i].value);
      }
      MangleMembersClean(v, |o|);
      CleanObject(MangleMembers(v, |o|));
    case _ =>
  }

  ghost predicate CleanMember(m: Member) {
    CleanText(m.key) && Clean(m.value) && Wf(m.value)
  }

  ghost predicate CleanMembers(o: seq<Member>) {
    forall m :: m in o ==> CleanMember(m)
  }

  lemma PutClean(o: seq<Member>, m: Member)
    requires Sorted(o) && CleanMembers(o) && CleanMember(m)
    ensures Sorted(Put(o, m.key, m.value)) && CleanMembers(Put(o, m.key, m.value))
  {
    PutSorted(o, m.key, m.value);
    hide Put, Sorted, CleanMember;
  }

  lemma NoMembers(v: Value)
    requires v.Object?
    ensures MangleMembers(v, 0) == [] && Sorted(MangleMembers(v, 0)) && CleanMembers(MangleMembers(v, 0))
  {
  }

  lemma MangleMembersUnfold(v: Value, n: nat)
    requires v.Object? && 0 < n <= |v.o|
    ensures MangleMembers(v, n) ==
            Put(MangleMembers(v, n - 1), MangleText(v.o[n - 1].key), Mangle(v.o[n - 1].value))
  {
    hide Put, MangleText, Mangle;
  }

  lemma MangledMemberClean(key: string, value: Value)
    requires Clean(Mangle(value)) && Wf(Mangle(value))
    ensures CleanMember(Member(MangleText(key), Mangle(value)))
  {
    hide Clean, Wf, Mangle, CleanText;
    MangleTextClean(key);
  }

  lemma {:induction false} MangleMembersClean(v: Value, n: nat)
    requires v.Object? && n <= |v.o|
    requires forall i :: 0 <= i < n ==> Clean(Mangle(v.o[i].value)) && Wf(Mangle(v.o[i].value))
    ensures Sorted(MangleMembers(v, n)) && CleanMembers(MangleMembers(v, n))
    decreases n
  {
    hide *;
    if n == 0 {
      NoMembers(v);
    } else {
      var m := v.o[n - 1];
      MangleMembersClean(v, n - 1);
      MangledMemberClean(m.key, m.value);
      MangleMembersUnfold(v, n);
      PutClean(MangleMembers(v, n - 1), Member(MangleText(m.key), Mangle(m.value)));
    }
  }

  lemma CleanObject(o: seq<Member>)
    requires Sorted(o) && CleanMembers(o)
    ensures Clean(Object(o)) && Wf(Object(o))
  {
    assert forall i :: 0 <= i < |o| ==> o[i] in o;
  }

  /** A clean value is left alone. */
  lemma {:induction false} MangleOfClean(v: Value)
    requires Wf(v) && Clean(v)
    ensures Mangle(v) == v
    decreases v
  {
    match v
    case String(s) => MangleTextClean(s);
    case Array(a) =>
      forall i | 0 <= i < |a|
        ensures Mangle(a[i]) == a[i]
      {
        MangleOfClean(a[i]);
      }
      assert Mangle(v).a == a;
    case Object(o) =>
      forall i | 0 <= i < |o|
        ensures Mangle(o[i].value) == o[i].value
      {
        CleanMemberFacts(v, i);
        MangleOfClean(o[i].value);
      }
      MangleMembersOfClean(v, |o|);
      assert o[..|o|] == o;
    case _ =>
  }

  lemma CleanMemberFacts(v: Value, i: nat)
    requires v.Object? && i < |v.o| && Wf(v) && Clean(v)
    ensures CleanText(v.o[i].key) && Clean(v.o[i].value) && Wf(v.o[i].value)
    ensures forall m :: m in v.o[..i] ==> Less(m.key, v.o[i].key)
  {
    assert v.o[i] in v.o;
  }

  lemma PutNextMember(o: seq<Member>, n: nat)
    requires 0 < n <= |o| && forall m :: m in o[..n - 1] ==> Less(m.key, o[n - 1].key)
    ensures Put(o[..n - 1], o[n - 1].key, o[n - 1].value) == o[..n]
  {
    hide Put, Less;
    PutLast(o[..n - 1], o[n - 1].key, o[n - 1].value);
    assert o[..n] == o[..n - 1] + [o[n - 1]];
  }

  lemma {:induction false} MangleMembersOfClean(v: Value, n: nat)
    requires v.Object? && n <= |v.o| && Wf(v) && Clean(v)
    requires forall i :: 0 <= i < n ==> Mangle(v.o[i].value) == v.o[i].value
    ensures MangleMembers(v, n) == v.o[..n]
    decreases n
  {
    hide *;
    if n == 0 {
      NoMembers(v);
    } else {
      var m := v.o[n - 1];
      CleanMemberFacts(v, n - 1);
      MangleMembersOfClean(v, n - 1);
      MangleTextClean(m.key);
      MangleMembersUnfold(v, n);
      PutNextMember(v.o, n);
    }
  }

  /** Exactly the clean values survive. */
  lemma SurvivesIffClean(v: Value)
    requires Wf(v)
    ensures Mangle(v) == v <==> Clean(v)
  {
    if Clean(v) {
      MangleOfClean(v);
    }
    MangleClean(v);
  }

  /** A carriage return comes back as a letter, and two keys may come back as one. */
  lemma LostCharacters()
    ensures Mangle(String("\r")) == String("r")
    ensures var v := Object([Member("\r", Bool(true)), Member("r", Bool(false))]);
            Wf(v) && Mangle(v) == Object([Member("r", Bool(false))])
  {
    var v := Object([Member("\r", Bool(true)), Member("r", Bool(false))]);
    assert MangleText("\r") == "r" && MangleText("r") == "r";
    assert MangleMembers(v, 1) == Put(MangleMembers(v, 0), "r", Bool(true)) == [Member("r", Bool(true))];
    assert MangleMembers(v, 2) == Put(MangleMembers(v, 1), "r", Bool(false)) == [Member("r", Bool(false))];
  }

  /** How an array is printed, indented by two: each element on a line of its own. */
  lemma ArrayExample()
    ensures Dump(Array([Number(-10), Bool(true)]), 2, 0) ==
            "[" + ("\n  " + ("-10" + (",\n  " + ("true" + ("\n" + "]")))))
  {
    hide *;
    var v := Array([Number(-10), Bool(true)]);
    Scalars();
    Layout(2);
    DumpsArray(v, 2, 0);
    DumpsElement(v, 0, 2, 0);
    DumpsElement(v, 1, 2, 0);
    NoMore(v, 2, 0);
  }

  /** How an object is printed in compact form. */
  lemma ObjectExample()
    ensures Dump(Object([Member("a\n", Null), Member("b", String("\\"))]), -1, 0) ==
            "{" + ("" + ("\"a\\n\"" + (":" + ("null" + (", " +
              ("\"b\"" + (":" + ("\"\\\\\"" + ("" + "}")))))))))
  {
    hide *;
    var v := Object([Member("a\n", Null), Member("b", String("\\"))]);
    Quotes();
    Scalars();
    Layout(-1);
    DumpsMember(v, 1, -1, 0);
    DumpsMember(v, 0, -1, 0);
    DumpsObject(v, -1, 0);
    NoMore(v, -1, 0);
  }

  /** Zero has no sign, and an indentation of zero still breaks the line. */
  lemma ZeroExamples()
    ensures NumberText(0) == "0" && NumberText(-1) == "-1" && NumberText(100) == "100"
    ensures NewLine(0, 3) == "\n" && NewLine(-1, 3) == "" && NewLine(1, 3) == "\n   "
  {
    NumberTextIsInt(0);
    NumberTextIsInt(-1);
    NumberTextIsInt(100);
    assert NatText(10) == NatText(1) + "0" == "10";
    assert NatText(100) == NatText(10) + "0" == "100";
    hide NumberText, NatText;
    assert Spaces(0) == "" && Spaces(3) == "   ";
  }

  lemma Scalars()
    ensures Dump(Number(-10), 2, 1) == "-10" && Dump(Bool(true), 2, 1) == "true" && Dump(Null, -1, 1) == "null"
    ensures Dump(String("\\"), -1, 1) == Quote("\\")
  {
    NumberTextIsInt(-10);
    assert NatText(10) == NatText(1) + "0" == "10";
    hide NumberText, Quote;
  }

  lemma Quotes()
    ensures Quote("a\n") == "\"a\\n\"" && Quote("b") == "\"b\"" && Quote("\\") == "\"\\\\\""
  {
    assert EscapeAll("\n") == "\\n" && EscapeAll("\\") == "\\\\" && EscapeAll("b") == "b";
    assert "a\n"[1..] == "\n" && EscapeAll("a\n") == "a" + EscapeAll("\n");
    hide EscapeAll;
  }

  lemma Layout(indent: int)
    requires indent == 2 || indent == -1
    ensures NewLine(indent, 1) == (if indent == 2 then "\n  " else "") && Colon(-1) == ":"
    ensures Gap(2, 0, indent, 0) == (if indent == 2 then ",\n  " else ", ")
    ensures Gap(2, 1, indent, 0) == (if indent == 2 then "\n" else "")
  {
    assert Spaces(2) == "  " && Spaces(0) == "";
    assert Colon(-1) == ":" + "" == ":";
  }

  lemma NoMore(v: Value, indent: int, level: nat)
    ensures v.Array? ==> Elements(v, |v.a|, indent, level) == "]"
    ensures v.Object? ==> Members(v, |v.o|, indent, level) == "}"
  {
  }

  lemma DumpsArray(v: Value, indent: int, level: nat)
    requires v.Array? && v.a != []
    ensures Dump(v, indent, level) == "[" + (NewLine(indent, level + 1) + Elements(v, 0, indent, level))
  {
  }

  lemma DumpsElement(v: Value, i: nat, indent: int, level: nat)
    requires v.Array? && i < |v.a|
    ensures Elements(v, i, indent, level) ==
            Dump(v.a[i], indent, level + 1) + (Gap(|v.a|, i, indent, level) + Elements(v, i + 1, indent, level))
  {
  }

  lemma DumpsMember(v: Value, i: nat, indent: int, level: nat)
    requires v.Object? && i < |v.o|
    ensures Members(v, i, indent, level) ==
            Quote(v.o[i].key) + (Colon(indent) + (Dump(v.o[i].value, indent, level + 1) +
              (Gap(|v.o|, i, indent, level) + Members(v, i + 1, indent, level))))
  {
  }

  lemma DumpsObject(v: Value, indent: int, level: nat)
    requires v.Object? && v.o != []
    ensures Dump(v, indent, level) == "{" + (NewLine(indent, level + 1) + Members(v, 0, indent, level))
  {
  }
}
