/** The JSON parser, on printed text. */
module JsonParser {
  import opened Json

  /** isspace in the C locale */
  predicate IsSpace(c: char) {
    c == ' ' || 9 as char <= c <= 13 as char
  }

  /** Space, tab, newline, vertical tab, form feed and carriage return. */
  lemma SpacesAre(c: char)
    ensures IsSpace(c) <==> c in {' ', '\t', '\n', 11 as char, 12 as char, '\r'}
  {
  }

  predicate IsDigit(c: char) {
    '0' <= c <= '9'
  }

  predicate IsNumberChar(c: char) {
    IsDigit(c) || c == '-' || c == '.'
  }

  predicate AllDigits(t: string) {
    t != "" && forall i :: 0 <= i < |t| ==> IsDigit(t[i])
  }

  predicate IsInteger(t: string) {
    t != "" && AllDigits(if t[0] == '-' then t[1..] else t)
  }

  /** std::stod on an optional minus sign and digits. */
  function Stod(t: string): (n: int)
    requires IsInteger(t)
  {
    if t[0] == '-' then 0 - DigitsValue(t[1..]) else DigitsValue(t)
  }

  function DigitsValue(t: string): nat
    requires AllDigits(t)
  {
    var digit := t[|t| - 1];
    assert IsDigit(digit);
    if |t| == 1 then digit as int - '0' as int
    else 10 * DigitsValue(t[..|t| - 1]) + (digit as int - '0' as int)
  }

  lemma {:induction false} DigitsOfNat(n: nat)
    ensures AllDigits(NatText(n)) && DigitsValue(NatText(n)) == n
  {
    if n >= 10 {
      var t := NatText(n);
      DigitsOfNat(n / 10);
      assert t[..|t| - 1] == NatText(n / 10);
    }
  }

  /** The whole text t stands at position p. */
  ghost predicate At(str: string, p: nat, t: string) {
    p + |t| <= |str| && str[p..p + |t|] == t
  }

  ghost predicate Blank(str: string, p: nat, q: nat) {
    p <= q <= |str| && forall i :: p <= i < q ==> IsSpace(str[i])
  }

  /** A number that ends at p has really ended there. */
  ghost predicate Delimited(str: string, p: nat) {
    p >= |str| || !IsNumberChar(str[p])
  }

  lemma AtSplit(str: string, p: nat, t: string, u: string)
    ensures At(str, p, t + u) <==> At(str, p, t) && At(str, p + |t|, u)
  {
    var n := p + |t| + |u|;
    if n <= |str| {
      assert str[p..n] == str[p..p + |t|] + str[p + |t|..n];
      assert (t + u)[..|t|] == t && (t + u)[|t|..] == u;
      assert str[p..n][..|t|] == str[p..p + |t|] && str[p..n][|t|..] == str[p + |t|..n];
    }
  }

  lemma AtFirst(str: string, p: nat, t: string)
    requires At(str, p, t) && t != ""
    ensures p < |str| && str[p] == t[0] && Blank(str, p, p)
  {
    assert str[p] == str[p..p + |t|][0];
  }

  lemma AtChars(str: string, p: nat, t: string)
    requires At(str, p, t)
    ensures forall i :: p <= i < p + |t| ==> str[i] in t
  {
    forall i | p <= i < p + |t|
      ensures str[i] in t
    {
      assert str[i] == str[p..p + |t|][i - p];
    }
  }

  /** What the body of a string literal that starts at p stands for, and where the parser is after it. */
  function Scan(str: string, p: nat): (string, nat)
    requires p <= |str|
    ensures p <= Scan(str, p).1 <= |str|
    decreases |str| - p
  {
    if p == |str| then ("", p)
    else if str[p] == '\"' then ("", p + 1)
    else if str[p] == '\\' then
      if p + 1 == |str| then ("", p + 1)
      else
        var r := Scan(str, p + 2);
        ([Unescape(str[p + 1])] + r.0, r.1)
    else
      var r := Scan(str, p + 1);
      ([str[p]] + r.0, r.1)
  }

  function Unescape(c: char): char {
    if c == 'n' then '\n' else if c == 't' then '\t' else c
  }

  lemma Assoc(a: string, b: string, c: string)
    ensures (a + b) + c == a + (b + c)
  {
  }

  lemma ScanQuote(str: string, p: nat)
    requires p < |str| && str[p] == '\"'
    ensures Scan(str, p) == ("", p + 1)
  {
  }

  /** Scanning a printed string. */
  lemma {:induction false} ScanPrinted(str: string, p: nat, s: string)
    requires At(str, p, EscapeAll(s) + "\"")
    ensures Scan(str, p) == (MangleText(s), p + |EscapeAll(s)| + 1)
    decreases |s|
  {
    hide Scan, Escape, MangleChar, At;
    if s == "" {
      assert EscapeAll(s) == "" && MangleText(s) == "" && EscapeAll(s) + "\"" == "\"";
      hide *;
      AtFirst(str, p, "\"");
      ScanQuote(str, p);
      assert Scan(str, p) == (MangleText(s), p + |EscapeAll(s)| + 1);
    } else {
      var t, rest := Escape(s[0]), EscapeAll(s[1..]) + "\"";
      assert EscapeAll(s) == t + EscapeAll(s[1..]);
      assert MangleText(s) == MangleChar(s[0]) + MangleText(s[1..]);
      hide *;
      Assoc(t, EscapeAll(s[1..]), "\"");
      AtSplit(str, p, t, rest);
      ScanPrinted(str, p + |t|, s[1..]);
      ScanChar(str, p, s[0]);
      assert Scan(str, p) == (MangleText(s), p + |EscapeAll(s)| + 1);
    }
  }

  predicate Plain(t: string) {
    forall i :: 0 <= i < |t| ==> t[i] != '\"' && t[i] != '\\'
  }

  lemma {:induction false} ScanPlain(str: string, p: nat, t: string)
    requires At(str, p, t) && Plain(t)
    ensures var r := Scan(str, p + |t|);
            Scan(str, p) == (t + r.0, r.1)
    decreases |t|
  {
    var r := Scan(str, p + |t|);
    if t == "" {
      assert t + r.0 == r.0;
    } else {
      assert t == t[..1] + t[1..];
      AtSplit(str, p, t[..1], t[1..]);
      ScanPlain(str, p + 1, t[1..]);
      assert str[p] == str[p..p + 1][0] == t[0];
      assert [t[0]] + (t[1..] + r.0) == t + r.0;
    }
  }

  /** The parser reads an escape as one character and takes the rest of it as it stands. */
  lemma EscapeForm(c: char)
    ensures var t := Escape(c);
            if |t| == 1 then Plain(t) && MangleChar(c) == t
            else |t| >= 2 && t[0] == '\\' && Plain(t[2..]) && MangleChar(c) == [Unescape(t[1])] + t[2..]
  {
  }

  /** Scanning one printed character. */
  lemma ScanChar(str: string, p: nat, c: char)
    requires At(str, p, Escape(c))
    ensures p + |Escape(c)| <= |str|
    ensures var r := Scan(str, p + |Escape(c)|);
            Scan(str, p) == (MangleChar(c) + r.0, r.1)
  {
    hide Escape, MangleChar, Unescape, Plain;
    var t := Escape(c);
    EscapeForm(c);
    if |t| == 1 {
      ScanPlain(str, p, t);
    } else {
      assert t == t[..2] + t[2..];
      AtSplit(str, p, t[..2], t[2..]);
      assert str[p] == str[p..p + 2][0] == '\\' && str[p + 1] == str[p..p + 2][1] == t[1];
      ScanPlain(str, p + 2, t[2..]);
      var r := Scan(str, p + |t|);
      assert [Unescape(t[1])] + (t[2..] + r.0) == MangleChar(c) + r.0;
    }
  }

  /** The first character of a printed value decides how the parser reads it. */
  lemma Head(v: Value, indent: int, level: nat)
    ensures var t := Dump(v, indent, level);
            t != "" &&
            match v
            case Null => t == "null"
            case Bool(b) => t == if b then "true" else "false"
            case Number(n) => t == IntText(n) && (t[0] == '-' || IsDigit(t[0]))
            case String(s) => t == Quote(s)
            case Array(_) => t[0] == '['
            case Object(_) => t[0] == '{'
  {
    if v.Number? {
      NumberTextIsInt(v.n);
    }
  }

  predicate AllSpace(t: string) {
    forall i :: 0 <= i < |t| ==> IsSpace(t[i])
  }

  lemma BlankText(str: string, p: nat, t: string)
    requires At(str, p, t) && AllSpace(t)
    ensures Blank(str, p, p + |t|)
  {
    forall i | p <= i < p + |t|
      ensures IsSpace(str[i])
    {
      assert str[i] == str[p..p + |t|][i - p] == t[i - p];
    }
  }

  lemma NewLineBlank(indent: int, level: nat)
    ensures AllSpace(NewLine(indent, level))
  {
  }

  lemma GapForm(n: nat, i: nat, indent: int, level: nat)
    requires i < n
    ensures var g := Gap(n, i, indent, level);
            if i == n - 1 then AllSpace(g) else g != "" && g[0] == ',' && AllSpace(g[1..])
  {
    NewLineBlank(indent, level);
    NewLineBlank(indent, level + 1);
    hide NewLine;
    if i < n - 1 && indent >= 0 {
      assert Gap(n, i, indent, level)[1..] == NewLine(indent, level + 1);
    }
  }

  /** What follows an element: a comma and blanks, or only blanks up to the closing bracket. */
  lemma GapThen(str: string, p: nat, n: nat, i: nat, indent: int, level: nat, t: string)
    requires i < n && t != "" && At(str, p, Gap(n, i, indent, level) + t)
    requires i == n - 1 ==> t[0] == ']' || t[0] == '}'
    ensures var q := p + |Gap(n, i, indent, level)|;
            && p < |str| && q < |str| && Delimited(str, p) && At(str, q, t) && str[q] == t[0]
            && (if i < n - 1 then str[p] == ',' && Blank(str, p + 1, q) else Blank(str, p, q))
  {
    hide At, Blank, Gap;
    var g := Gap(n, i, indent, level);
    GapForm(n, i, indent, level);
    AtSplit(str, p, g, t);
    AtFirst(str, p + |g|, t);
    if i < n - 1 {
      assert g == "," + g[1..];
      AtSplit(str, p, ",", g[1..]);
      AtFirst(str, p, ",");
      BlankText(str, p + 1, g[1..]);
    } else {
      BlankText(str, p, g);
      if g != "" {
        AtFirst(str, p, g);
      }
    }
  }

  /** Reading a printed integer. */
  lemma StodOfInt(n: int)
    ensures IsInteger(IntText(n)) && Stod(IntText(n)) == n
    ensures forall c :: c in IntText(n) ==> IsNumberChar(c)
  {
    DigitsOfNat(if n < 0 then -n else n);
    hide NatText, DigitsValue;
    if n < 0 {
      assert IntText(n)[1..] == NatText(-n);
    } else {
      assert IsDigit(NatText(n)[0]);
    }
  }

  /** The string read when s has been read before position p. */
  ghost function ScanOn(str: string, p: nat, s: string): (string, nat)
    requires p <= |str|
  {
    (s + Scan(str, p).0, Scan(str, p).1)
  }

  lemma StartScan(str: string, p: nat)
    requires p <= |str|
    ensures ScanOn(str, p, "") == Scan(str, p)
  {
    assert "" + Scan(str, p).0 == Scan(str, p).0;
  }

  lemma ScanStep(str: string, p: nat, s: string)
    requires p < |str|
    ensures ScanOn(str, p, s) ==
            if str[p] == '\"' || (str[p] == '\\' && p + 1 == |str|) then (s, p + 1)
            else if str[p] == '\\' then ScanOn(str, p + 2, s + [Unescape(str[p + 1])])
            else ScanOn(str, p + 1, s + [str[p]])
  {
    hide Unescape;
    if str[p] == '\"' || (str[p] == '\\' && p + 1 == |str|) {
      assert s + "" == s;
    } else if str[p] == '\\' {
      var c := Unescape(str[p + 1]);
      assert s + ([c] + Scan(str, p + 2).0) == (s + [c]) + Scan(str, p + 2).0;
    } else {
      assert s + ([str[p]] + Scan(str, p + 1).0) == (s + [str[p]]) + Scan(str, p + 1).0;
    }
  }

  lemma ScanEnd(str: string, p: nat, s: string)
    requires p == |str|
    ensures ScanOn(str, p, s) == (s, p)
  {
    assert s + "" == s;
  }

  class Parser {
    const str: string
    var pos: nat

    constructor (s: string)
      ensures str == s && pos == 0
    {
      str := s;
      pos := 0;
    }

    /** skip_whitespace */
    method SkipWhitespace()
      requires pos <= |str|
      modifies `pos
      ensures Blank(str, old(pos), pos) && (pos == |str| || !IsSpace(str[pos]))
      ensures forall q: nat :: Blank(str, old(pos), q) && (q == |str| || !IsSpace(str[q])) ==> pos == q
    {
      while pos < |str| && IsSpace(str[pos])
        invariant Blank(str, old(pos), pos)
      {
        pos := pos + 1;
      }
    }

    /** parse_string */
    method ParseString() returns (s: string)
      requires pos < |str|
      modifies `pos
      ensures (s, pos) == Scan(str, old(pos) + 1)
    {
      s := "";
      pos := pos + 1;
      ghost var start := pos;
      StartScan(str, pos);
      hide Scan, ScanOn, Unescape;
      while pos < |str|
        invariant start <= pos <= |str|
        invariant Scan(str, start) == ScanOn(str, pos, s)
      {
        ScanStep(str, pos, s);
        var c := str[pos];
        pos := pos + 1;
        if c == '\"' {
          return;
        }
        if c == '\\' {
          if pos >= |str| {
            return;
          }
          var next := str[pos];
          pos := pos + 1;
          s := s + [Unescape(next)];
        } else {
          s := s + [c];
        }
      }
      ScanEnd(str, pos, s);
    }

    /** parse_number */
    method ParseNumber(ghost n: int) returns (r: Value)
      requires At(str, pos, IntText(n)) && Delimited(str, pos + |IntText(n)|)
      modifies `pos
      ensures r == Number(n) && pos == old(pos) + |IntText(n)|
    {
      StodOfInt(n);
      hide Stod, IntText, IsNumberChar, IsInteger;
      ghost var t := IntText(n);
      ghost var end := pos + |t|;
      var start := pos;
      AtChars(str, start, t);
      while pos < |str| && IsNumberChar(str[pos])
        invariant start <= pos <= end
      {
        pos := pos + 1;
      }
      assert pos == end;
      assert str[start..pos] == t;
      r := Number(Stod(str[start..pos]));
    }

    /** parse_value, on a printed value that starts at position at. */
    method ParseValue(ghost v: Value, ghost at: nat, ghost indent: int, ghost level: nat) returns (r: Value)
      requires Blank(str, pos, at) && At(str, at, Dump(v, indent, level))
      requires Delimited(str, at + |Dump(v, indent, level)|)
      modifies `pos
      ensures r == Mangle(v) && pos == at + |Dump(v, indent, level)|
      decreases v, 1
    {
      hide Dump, At, EscapeAll, MangleText, IntText;
      ghost var t := Dump(v, indent, level);
      Head(v, indent, level);
      AtFirst(str, at, t);
      SkipWhitespace();
      assert pos == at;
      var c := str[pos];
      if c == 'n' {
        pos := pos + 4;
        return Null;
      }
      if c == 't' {
        pos := pos + 4;
        return Bool(true);
      }
      if c == 'f' {
        pos := pos + 5;
        return Bool(false);
      }
      if c == '\"' {
        AtSplit(str, at, "\"", EscapeAll(v.s) + "\"");
        assert t == "\"" + (EscapeAll(v.s) + "\"");
        ScanPrinted(str, at + 1, v.s);
        var s := ParseString();
        return String(s);
      }
      if c == '[' {
        r := ParseArray(v, indent, level);
        return;
      }
      if c == '{' {
        r := ParseObject(v, indent, level);
        return;
      }
      r := ParseNumber(v.n);
    }

    /** The end of an element in either kind of list. */
    method PassGap(ghost n: nat, ghost i: nat, ghost indent: int, ghost level: nat, ghost t: string)
      requires i < n && t != "" && At(str, pos, Gap(n, i, indent, level) + t)
      requires i == n - 1 ==> t[0] == ']' || t[0] == '}'
      modifies `pos
      ensures Blank(str, pos, old(pos) + |Gap(n, i, indent, level)|)
      ensures pos <= old(pos) + |Gap(n, i, indent, level)| < |str|
      ensures At(str, old(pos) + |Gap(n, i, indent, level)|, t)
    {
      ghost var q := pos + |Gap(n, i, indent, level)|;
      GapThen(str, pos, n, i, indent, level, t);
      SkipWhitespace();
      assert pos == if i < n - 1 then old(pos) else q;
      if pos < |str| && str[pos] == ',' {
        pos := pos + 1;
      }
    }

    /** parse_array */
    method ParseArray(ghost v: Value, ghost indent: int, ghost level: nat) returns (r: Value)
      requires v.Array? && At(str, pos, Dump(v, indent, level))
      modifies `pos
      ensures r == Mangle(v) && pos == old(pos) + |Dump(v, indent, level)|
      decreases v, 0
    {
      hide *;
      ghost var mangled := MangledElements(v);
      var a: seq<Value> := [];
      ghost var i: nat, q: nat, end := 0, 0, pos + |Dump(v, indent, level)|;
      q := OpenArray(str, pos, v, indent, level);
      pos := pos + 1;
      while pos < |str|
        invariant i <= |v.a| && a == mangled[..i]
        invariant Blank(str, pos, q) && At(str, q, Elements(v, i, indent, level))
        invariant pos <= q < |str| && q + |Elements(v, i, indent, level)| == end
        decreases |v.a| - i
      {
        ElementHead(str, q, v, i, indent, level);
        SkipWhitespace();
        assert pos == q;
        if pos >= |str| || str[pos] == ']' {
          if pos < |str| {
            pos := pos + 1;
          }
          assert i == |v.a| && mangled[..i] == mangled;
          return Array(a);
        }
        var value := ParseValue(v.a[i], q, indent, level + 1);
        PassGap(|v.a|, i, indent, level, Elements(v, i + 1, indent, level));
        assert mangled[..i + 1] == mangled[..i] + [mangled[i]];
        a := a + [value];
        q := q + |Dump(v.a[i], indent, level + 1)| + |Gap(|v.a|, i, indent, level)|;
        i := i + 1;
      }
      assert false;
    }

    /** parse_object */
    method ParseObject(ghost v: Value, ghost indent: int, ghost level: nat) returns (r: Value)
      requires v.Object? && At(str, pos, Dump(v, indent, level))
      modifies `pos
      ensures r == Mangle(v) && pos == old(pos) + |Dump(v, indent, level)|
      decreases v, 0
    {
      hide Dump, Members, Gap, At, Blank, Delimited, Scan, MangleText, Put;
      var o: seq<Member> := [];
      ghost var i: nat, q: nat, end := 0, 0, pos + |Dump(v, indent, level)|;
      q := OpenObject(str, pos, v, indent, level);
      pos := pos + 1;
      while pos < |str|
        invariant i <= |v.o| && o == MangleMembers(v, i)
        invariant Blank(str, pos, q) && At(str, q, Members(v, i, indent, level))
        invariant pos <= q < |str| && q + |Members(v, i, indent, level)| == end
        decreases |v.o| - i
      {
        ghost var at := MemberHead(str, q, v, i, indent, level);
        SkipWhitespace();
        assert pos == q;
        if pos >= |str| || str[pos] == '}' {
          if pos < |str| {
            pos := pos + 1;
          }
          assert i == |v.o|;
          return Object(o);
        }
        var key := ParseString();
        SkipWhitespace();
        if pos < |str| && str[pos] == ':' {
          pos := pos + 1;
        }
        var value := ParseValue(v.o[i].value, at, indent, level + 1);
        o := Put(o, key, value);
        PassGap(|v.o|, i, indent, level, Members(v, i + 1, indent, level));
        q := at + |Dump(v.o[i].value, indent, level + 1)| + |Gap(|v.o|, i, indent, level)|;
        i := i + 1;
      }
      assert false;
    }
  }

  /** After an opening bracket there are blanks up to the text t. */
  lemma Opened(str: string, p: nat, bracket: string, nl: string, t: string)
    requires |bracket| == 1 && t != "" && AllSpace(nl) && At(str, p, bracket + (nl + t))
    ensures var q := p + 1 + |nl|;
            q < |str| && Blank(str, p + 1, q) && At(str, q, t)
  {
    hide At, Blank, AllSpace;
    AtSplit(str, p, bracket, nl + t);
    AtSplit(str, p + 1, nl, t);
    AtFirst(str, p + 1 + |nl|, t);
    BlankText(str, p + 1, nl);
  }

  lemma OpenArray(str: string, p: nat, v: Value, indent: int, level: nat) returns (q: nat)
    requires v.Array? && At(str, p, Dump(v, indent, level))
    ensures p + 1 <= q < |str| && Blank(str, p + 1, q) && At(str, q, Elements(v, 0, indent, level))
    ensures q + |Elements(v, 0, indent, level)| == p + |Dump(v, indent, level)|
  {
    var nl := if v.a == [] then "" else NewLine(indent, level + 1);
    var t := Elements(v, 0, indent, level);
    assert Dump(v, indent, level) == "[" + (nl + t);
    NewLineBlank(indent, level + 1);
    hide *;
    assert AllSpace(nl) by {
      NoText();
    }
    Opened(str, p, "[", nl, t);
    q := p + 1 + |nl|;
  }

  lemma OpenObject(str: string, p: nat, v: Value, indent: int, level: nat) returns (q: nat)
    requires v.Object? && At(str, p, Dump(v, indent, level))
    ensures p + 1 <= q < |str| && Blank(str, p + 1, q) && At(str, q, Members(v, 0, indent, level))
    ensures q + |Members(v, 0, indent, level)| == p + |Dump(v, indent, level)|
  {
    var nl := if v.o == [] then "" else NewLine(indent, level + 1);
    var t := Members(v, 0, indent, level);
    assert Dump(v, indent, level) == "{" + (nl + t);
    NewLineBlank(indent, level + 1);
    hide *;
    assert AllSpace(nl) by {
      NoText();
    }
    Opened(str, p, "{", nl, t);
    q := p + 1 + |nl|;
  }

  lemma NoText()
    ensures AllSpace("")
  {
  }

  lemma MangledElements(v: Value) returns (m: seq<Value>)
    requires v.Array?
    ensures Mangle(v) == Array(m) && |m| == |v.a|
    ensures forall k :: 0 <= k < |v.a| ==> m[k] == Mangle(v.a[k])
  {
    m := Mangle(v).a;
  }

  /** At the start of an element, or at the closing bracket. */
  lemma ElementHead(str: string, q: nat, v: Value, i: nat, indent: int, level: nat)
    requires v.Array? && i <= |v.a| && At(str, q, Elements(v, i, indent, level))
    ensures q < |str| && !IsSpace(str[q]) && Blank(str, q, q) && (str[q] == ']' <==> i == |v.a|)
    ensures i < |v.a| ==>
      var t := Dump(v.a[i], indent, level + 1);
      && At(str, q, t) && Delimited(str, q + |t|)
      && At(str, q + |t|, Gap(|v.a|, i, indent, level) + Elements(v, i + 1, indent, level))
      && q + |t| + |Gap(|v.a|, i, indent, level)| + |Elements(v, i + 1, indent, level)| ==
         q + |Elements(v, i, indent, level)|
  {
    hide At, Blank, Gap, Dump;
    if i == |v.a| {
      AtFirst(str, q, "]");
    } else {
      var t, g, rest :=
        Dump(v.a[i], indent, level + 1), Gap(|v.a|, i, indent, level), Elements(v, i + 1, indent, level);
      assert Elements(v, i, indent, level) == t + (g + rest);
      AtSplit(str, q, t, g + rest);
      Head(v.a[i], indent, level + 1);
      AtFirst(str, q, t);
      GapThen(str, q + |t|, |v.a|, i, indent, level, rest);
    }
  }

  /** At the start of a member, or at the closing brace; at is where the member's value starts. */
  lemma MemberHead(str: string, q: nat, v: Value, i: nat, indent: int, level: nat) returns (at: nat)
    requires v.Object? && i <= |v.o| && At(str, q, Members(v, i, indent, level))
    ensures q < |str| && !IsSpace(str[q]) && (str[q] == '}' <==> i == |v.o|)
    ensures i < |v.o| ==>
      var (key, p) := Scan(str, q + 1);
      var t := Dump(v.o[i].value, indent, level + 1);
      && key == MangleText(v.o[i].key)
      && p < |str| && str[p] == ':' && Blank(str, p, p) && Blank(str, p + 1, at)
      && At(str, at, t) && Delimited(str, at + |t|)
      && At(str, at + |t|, Gap(|v.o|, i, indent, level) + Members(v, i + 1, indent, level))
      && at + |t| + |Gap(|v.o|, i, indent, level)| + |Members(v, i + 1, indent, level)| ==
         q + |Members(v, i, indent, level)|
  {
    hide At, Blank, Gap, Dump, EscapeAll, MangleText, Scan;
    at := q;
    if i == |v.o| {
      AtFirst(str, q, "}");
    } else {
      var key, c := v.o[i].key, Colon(indent);
      var t, g, rest :=
        Dump(v.o[i].value, indent, level + 1), Gap(|v.o|, i, indent, level), Members(v, i + 1, indent, level);
      assert Members(v, i, indent, level) == Quote(key) + (c + (t + (g + rest)));
      hide *;
      var p := q + |Quote(key)|;
      at := p + |c|;
      AtSplit(str, q, Quote(key), c + (t + (g + rest)));
      KeyHead(str, q, key);
      AtSplit(str, p, c, t + (g + rest));
      ColonHead(str, p, indent);
      AtSplit(str, at, t, g + rest);
      GapThen(str, at + |t|, |v.o|, i, indent, level, rest);
    }
  }

  /** Reading a printed key. */
  lemma KeyHead(str: string, q: nat, key: string)
    requires At(str, q, Quote(key))
    ensures q < |str| && str[q] == '\"' && q + |Quote(key)| <= |str|
    ensures Scan(str, q + 1) == (MangleText(key), q + |Quote(key)|)
  {
    hide Scan, MangleText, EscapeAll, Blank;
    var body := EscapeAll(key) + "\"";
    assert q + |Quote(key)| <= |str|;
    hide At;
    AtSplit(str, q, "\"", body);
    AtFirst(str, q, "\"");
    ScanPrinted(str, q + 1, key);
  }

  lemma ColonHead(str: string, p: nat, indent: int)
    requires At(str, p, Colon(indent))
    ensures p < |str| && str[p] == ':' && Blank(str, p, p) && Blank(str, p + 1, p + |Colon(indent)|)
  {
    hide At, Blank;
    var blank := if indent >= 0 then " " else "";
    assert Colon(indent) == ":" + blank && AllSpace(blank);
    hide *;
    AtSplit(str, p, ":", blank);
    AtFirst(str, p, ":");
    BlankText(str, p + 1, blank);
  }

  /** parse */
  method Parse(s: string, ghost v: Value, ghost indent: int) returns (r: Value)
    requires s == Dump(v, indent, 0)
    ensures r == Mangle(v)
    ensures Wf(v) ==> (r == v <==> Clean(v))
  {
    var parser := new Parser(s);
    assert s[0..|s|] == s;
    r := parser.ParseValue(v, 0, indent, 0);
    if Wf(v) {
      SurvivesIffClean(v);
    }
  }
}
