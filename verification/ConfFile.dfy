/** Whole configuration files: reading inverts writing. */
module ConfFile {
  import opened Tristates
  import opened Exprs
  import opened Ranges
  import opened ConfText

  /** A symbol with the value that is written: a tristate, or a string for the other types. */
  datatype Entry = Entry(name: string, typ: SymType, tri: Tristate, str: string)

  // ----- conf_write -----

  function WriteEntry(e: Entry): string {
    match e.typ
    case TBoolean => WriteTri(e.name, e.tri)
    case TTristate => WriteTri(e.name, e.tri)
    case TString => "CONFIG_" + e.name + "=" + ("\"" + Escape(e.str) + "\"") + "\n"
    case THex => "CONFIG_" + e.name + "=" + e.str + "\n"
    case TInt => "CONFIG_" + e.name + "=" + (if e.str == "" then "0" else e.str) + "\n"
    case TUnknown => ""
  }

  function WriteTri(name: string, tri: Tristate): string {
    if tri == NO then "# CONFIG_" + name + " " + "is not set" + "\n"
    else if tri == MOD then "CONFIG_" + name + "=" + "m" + "\n"
    else "CONFIG_" + name + "=" + "y" + "\n"
  }

  function Write(es: seq<Entry>): string {
    if es == [] then "" else WriteEntry(es[0]) + Write(es[1..])
  }

  /** No entries leave no text, not even a line end. */
  lemma WriteNone(es: seq<Entry>)
    ensures es == [] || (|es| == 1 && es[0].typ == TUnknown) ==> Write(es) == ""
  {
    if es != [] { assert Write(es[1..]) == "" || |es| > 1; }
  }

  /** The text that conf_write puts out for these symbols. */
  method WriteFile(es: seq<Entry>) returns (out: string)
    ensures out == Write(es)
  {
    out := "";
    for i := 0 to |es|
      invariant out + Write(es[i..]) == Write(es)
    {
      var line := WriteLine(es[i]);
      WriteStep(es, i, out);
      out := out + line;
    }
    assert es[|es|..] == [] && out + [] == out;
  }

  lemma WriteStep(es: seq<Entry>, i: nat, out: string)
    requires i < |es|
    ensures out + Write(es[i..]) == out + WriteEntry(es[i]) + Write(es[i + 1..])
  {
    assert es[i..][1..] == es[i + 1..];
  }

  method WriteLine(e: Entry) returns (line: string)
    ensures line == WriteEntry(e)
  {
    if e.typ == TString {
      var text := WriteEscaped(e.str);
      line := "CONFIG_" + e.name + "=" + ("\"" + text + "\"") + "\n";
    } else {
      line := WriteEntry(e);
    }
  }

  // ----- conf_read_simple -----

  /** SYMBOL_NEW clear, and what was assigned. */
  datatype UserValue = UserValue(tri: Tristate, str: string)

  /** The symbols that have been given a value so far. */
  type Values = map<string, UserValue>

  type Types = map<string, SymType>

  /** The line buffer holds 1024 bytes with the terminator. */
  const LINE_MAX: nat := 1023

  predicate IsBuffer(buf: string) {
    |buf| == LINE_MAX + 1
  }

  /** What fgets leaves in it: the line and a NUL, and behind them what was there. */
  function Loaded(buf: string, line: string): (r: string)
    requires IsBuffer(buf) && |line| <= LINE_MAX
    ensures IsBuffer(r)
  {
    line + [NUL] + buf[|line| + 1..]
  }

  /** The first position of c from i on, or the length. */
  function Find(s: string, c: char, i: nat): (r: nat)
    requires i <= |s|
    ensures i <= r <= |s| && (r < |s| ==> s[r] == c) && forall k :: i <= k < r ==> s[k] != c
    decreases |s| - i
  {
    if i == |s| || s[i] == c then i else Find(s, c, i + 1)
  }

  predicate StartsWith(s: string, p: string) {
    |p| <= |s| && s[..|p|] == p
  }

  /** fgets: up to and including a newline, but no more than fits. */
  function LineLength(content: string): (n: nat)
    ensures n <= LINE_MAX && (content != [] ==> 0 < n <= |content|)
  {
    if content == [] then 0
    else
      var i := Find(content, '\n', 0);
      var n := if i < |content| then i + 1 else i;
      if n <= LINE_MAX then n else LINE_MAX
  }

  /** sym_find: a known name other than the built-in ones. */
  function TypeOf(types: Types, name: string): SymType {
    if name in types && name != "y" && name != "m" && name != "n" then types[name] else TUnknown
  }

  /** What follows 0x. */
  function HexPart(s: string): string {
    if |s| >= 2 && s[0] == '0' && (s[1] == 'x' || s[1] == 'X') then s[2..] else s
  }

  predicate AllHexDigits(t: string) {
    forall i :: 0 <= i < |t| ==> IsHexDigit(t[i])
  }

  predicate HexStringValid(s: string) {
    HexPart(s) != [] && AllHexDigits(HexPart(s))
  }

  /** The value part of an assignment, for a symbol of the given type; nothing if it is not accepted. */
  function ReadValue(typ: SymType, val: string): Option<UserValue> {
    match typ
    case TTristate =>
      if val != [] && val[0] == 'm' then Some(UserValue(MOD, "")) else ReadBool(val)
    case TBoolean => ReadBool(val)
    case TString =>
      if val == [] || val[0] != '"' then None
      else
        var s := Unescape(val[1..]);
        if s.Some? then Some(UserValue(NO, s.value)) else None
    case TInt => if IntStringValid(val) then Some(UserValue(NO, val)) else None
    case THex => if HexStringValid(val) then Some(UserValue(NO, val)) else None
    case TUnknown => None
  }

  function ReadBool(val: string): Option<UserValue> {
    if val != [] && val[0] == 'y' then Some(UserValue(YES, ""))
    else if val != [] && val[0] == 'n' then Some(UserValue(NO, ""))
    else None
  }

  /** The C string at the start of some bytes. */
  function Text(bytes: string): string {
    bytes[..Find(bytes, NUL, 0)]
  }

  /** The comment that says a symbol is not set: its name, from the bytes of the buffer. */
  function NotSetName(buf: string): Option<string>
    requires IsBuffer(buf)
  {
    if buf[2..9] != "CONFIG_" then None
    else
      var text := Text(buf[9..]);
      var p := Find(text, ' ', 0);
      if p == |text| || !StartsWith(text[p + 1..], "is not set") then None else Some(text[..p])
  }

  /** An assignment taken apart into the name and the text of the value. */
  function NameAndValue(buf: string): Option<(string, string)>
    requires IsBuffer(buf)
  {
    var text := Text(buf[7..]);
    var p := Find(text, '=', 0);
    if p == |text| then None else Some((text[..p], text[p + 1..Find(text, '\n', p + 1)]))
  }

  /** One line, as it stands in the buffer. */
  function ReadLine(types: Types, vs: Values, buf: string): Values
    requires IsBuffer(buf)
  {
    if buf[0] == '#' then
      var name := NotSetName(buf);
      if name.None? || name.value in vs || !HoldsTri(TypeOf(types, name.value)) then vs
      else vs[name.value := UserValue(NO, "")]
    else if StartsWith(buf, "CONFIG_") then
      var nv := NameAndValue(buf);
      if nv.None? then vs
      else
        var v := ReadValue(TypeOf(types, nv.value.0), nv.value.1);
        if nv.value.0 in vs || v.None? then vs else vs[nv.value.0 := v.value]
    else vs
  }

  predicate HoldsTri(typ: SymType) {
    typ == TBoolean || typ == TTristate
  }

  // ----- choices while reading -----

  /** The value of a choice: its tristate, the member that is set, and SYMBOL_NEW, which here marks a
      state that the members of one choice cannot be in. */
  datatype ChoiceUser = ChoiceUser(tri: Tristate, val: Option<string>, inconsistent: bool)

  /** The choice that a symbol is a value of. */
  type Groups = map<string, nat>

  type ChoiceUsers = map<nat, ChoiceUser>

  function ChoiceOf(cs: ChoiceUsers, k: nat): ChoiceUser {
    if k in cs then cs[k] else ChoiceUser(NO, None, false)
  }

  /** A choice after its member name has been seen with the value tri. */
  function JoinChoice(c: ChoiceUser, name: string, tri: Tristate): ChoiceUser {
    match tri
    case NO => c
    case MOD => c.(inconsistent := c.inconsistent || c.tri == YES, tri := Apply(Or, c.tri, tri))
    case YES =>
      if c.tri != NO then c.(inconsistent := true, tri := YES) else c.(val := Some(name), tri := YES)
  }

  /** The symbol a line is about, if it can be set to a tristate. Only such a symbol changes a choice: the
      tristate of all others stays no. */
  function LineSym(types: Types, buf: string): Option<string>
    requires IsBuffer(buf)
  {
    var name :=
      if buf[0] == '#' then NotSetName(buf)
      else if StartsWith(buf, "CONFIG_") && NameAndValue(buf).Some? then Some(NameAndValue(buf).value.0)
      else None;
    if name.Some? && HoldsTri(TypeOf(types, name.value)) then name else None
  }

  function JoinSym(groups: Groups, cs: ChoiceUsers, vs: Values, sym: Option<string>): ChoiceUsers {
    if sym.None? || sym.value !in groups then cs
    else
      var k := groups[sym.value];
      var tri := if sym.value in vs then vs[sym.value].tri else NO;
      cs[k := JoinChoice(ChoiceOf(cs, k), sym.value, tri)]
  }

  /** A member that has no value, as after a line that assigns nothing, changes no choice. */
  lemma UnsetMember(groups: Groups, cs: ChoiceUsers, vs: Values, name: string, k: nat)
    requires name !in vs
    ensures ChoiceOf(JoinSym(groups, cs, vs, Some(name)), k) == ChoiceOf(cs, k)
  {
  }

  /** What the user has set. */
  datatype User = User(vs: Values, cs: ChoiceUsers)

  function ReadOne(types: Types, groups: Groups, u: User, buf: string): User
    requires IsBuffer(buf)
  {
    var vs := ReadLine(types, u.vs, buf);
    User(vs, JoinSym(groups, u.cs, vs, LineSym(types, buf)))
  }

  function Read(types: Types, groups: Groups, u: User, buf: string, content: string): User
    requires IsBuffer(buf)
    decreases |content|
  {
    if content == [] then u
    else
      var n := LineLength(content);
      var buf' := Loaded(buf, content[..n]);
      Read(types, groups, ReadOne(types, groups, u, buf'), buf', content[n..])
  }

  /** The reading loop; the value of a string symbol is unescaped in the line buffer, which is local to the call. */
  method ReadFile(types: Types, groups: Groups, buf: string, content: string) returns (u: User)
    requires IsBuffer(buf)
    ensures u == Read(types, groups, User(map[], map[]), buf, content)
  {
    u := User(map[], map[]);
    var rest, line := content, buf;
    while rest != []
      invariant IsBuffer(line)
      invariant Read(types, groups, u, line, rest) == Read(types, groups, User(map[], map[]), buf, content)
      decreases |rest|
    {
      var n := LineLength(rest);
      line := Loaded(line, rest[..n]);
      var vs := ReadLineBuffered(types, u.vs, line);
      u := User(vs, JoinSym(groups, u.cs, vs, LineSym(types, line)));
      rest := rest[n..];
    }
  }

  method ReadLineBuffered(types: Types, vs: Values, buf: string) returns (vs': Values)
    requires IsBuffer(buf)
    ensures vs' == ReadLine(types, vs, buf)
  {
    if buf[0] == '#' {
      vs' := ReadLine(types, vs, buf);
    } else if StartsWith(buf, "CONFIG_") {
      var text := Text(buf[7..]);
      var p := Find(text, '=', 0);
      if p == |text| {
        return vs;
      }
      var name := text[..p];
      var val := text[p + 1..Find(text, '\n', p + 1)];
      assert NUL !in val;
      var v := ReadValue(TypeOf(types, name), val);
      if TypeOf(types, name) == TString && val != [] && val[0] == '"' {
        v := ReadQuoted(val);
      }
      vs' := if name in vs || v.None? then vs else vs[name := v.value];
    } else {
      vs' := vs;
    }
  }

  method ReadQuoted(val: string) returns (v: Option<UserValue>)
    requires val != [] && val[0] == '"' && NUL !in val
    ensures v == ReadValue(TString, val)
  {
    var buf := new char[|val| + 1](i requires 0 <= i <= |val| => if i < |val| then val[i] else NUL);
    assert buf[1..|val|] == val[1..];
    assert NUL !in val[1..];
    CStrIs(buf[..], 1, val[1..]);
    var ok := UnescapeInPlace(buf, 1);
    if ok {
      var s := ReadCStr(buf, 1);
      v := Some(UserValue(NO, s));
    } else {
      v := None;
    }
  }

  /** strdup */
  method ReadCStr(buf: array<char>, p: nat) returns (s: string)
    requires p < buf.Length && Terminated(buf[..], p)
    ensures s == CStr(buf[..], p)
  {
    CStrSlice(buf[..], p);
    ghost var t := CStr(buf[..], p);
    var i := p;
    while buf[i] != NUL
      invariant p <= i <= p + |t| && buf[p..i] == t[..i - p]
      decreases p + |t| - i
    {
      i := i + 1;
    }
    CStrIs(buf[..], p, buf[p..i]);
    s := buf[p..i];
  }

  // ----- one line -----

  predicate WellNamed(name: string) {
    && name != "y" && name != "m" && name != "n"
    && forall i :: 0 <= i < |name| ==> name[i] != ' ' && name[i] != '=' && name[i] != '\n' && name[i] != NUL
  }

  predicate OneLine(s: string) {
    forall i :: 0 <= i < |s| ==> s[i] != '\n' && s[i] != NUL
  }

  /** A value as evaluation leaves it, for a symbol the reader knows by the same type. */
  predicate Storable(types: Types, e: Entry) {
    && WellNamed(e.name) && e.name in types && types[e.name] == e.typ
    && |WriteEntry(e)| <= LINE_MAX
    && match e.typ
       case TBoolean => e.tri != MOD
       case TTristate => true
       case TString => OneLine(e.str)
       case TInt => e.str == "" || IntStringValid(e.str)
       case THex => HexStringValid(e.str)
       case TUnknown => false
  }

  /** What the reader assigns; an int that was never set is written as 0. */
  function ReadBack(e: Entry): UserValue {
    if e.typ == TBoolean || e.typ == TTristate then UserValue(e.tri, "")
    else UserValue(NO, if e.typ == TInt && e.str == "" then "0" else e.str)
  }

  lemma FindIs(s: string, c: char, i: nat, r: nat)
    requires i <= r < |s| && s[r] == c && forall k :: i <= k < r ==> s[k] != c
    ensures Find(s, c, i) == r
  {
    var q := Find(s, c, i);
    assert q <= r && r <= q;
  }

  lemma {:induction false} EscapeIsOneLine(s: string)
    requires OneLine(s)
    ensures OneLine(Escape(s))
  {
    if s != [] { EscapeIsOneLine(s[1..]); }
  }

  lemma TextIs(bytes: string, text: string, rest: string)
    requires NUL !in text && bytes == text + [NUL] + rest
    ensures Text(bytes) == text
  {
    FindIs(bytes, NUL, 0, |text|);
  }

  /** The reader takes an assignment apart the way it was put together. */
  lemma AssignmentParts(name: string, val: string, buf: string)
    requires WellNamed(name) && OneLine(val) && IsBuffer(buf)
    requires |"CONFIG_" + name + "=" + val + "\n"| <= LINE_MAX
    ensures var line := "CONFIG_" + name + "=" + val + "\n"; var buf' := Loaded(buf, line);
      && buf'[0] == 'C' && StartsWith(buf', "CONFIG_") && NameAndValue(buf') == Some((name, val))
      && Find(line, '\n', 0) == |line| - 1
  {
    var line := "CONFIG_" + name + "=" + val + "\n";
    var text, buf' := name + "=" + val + "\n", Loaded(buf, line);
    assert line == "CONFIG_" + text;
    assert buf'[..7] == "CONFIG_" && buf'[7..] == text + [NUL] + buf[|line| + 1..];
    assert buf'[0] == buf'[..7][0];
    AssignmentText(name, val);
    TextIs(buf'[7..], text, buf[|line| + 1..]);
    NewlineLast("CONFIG_", text);
  }

  lemma AssignmentText(name: string, val: string)
    requires WellNamed(name) && OneLine(val)
    ensures var text := name + "=" + val + "\n";
      && NUL !in text && (forall k :: 0 <= k < |text| - 1 ==> text[k] != '\n')
      && Find(text, '=', 0) == |name| < |text| && text[..|name|] == name
      && text[|name| + 1..Find(text, '\n', |name| + 1)] == val
  {
    var text, p := name + "=" + val + "\n", |name|;
    assert text[..p] == name && text[p] == '=' && text[p + 1..|text| - 1] == val;
    forall k | 0 <= k < |text| - 1
      ensures text[k] != '\n' && text[k] != NUL && (k < p ==> text[k] != '=')
    {
      if k < p { assert text[k] == name[k]; }
      if p < k { assert text[k] == val[k - p - 1]; }
    }
    FindIs(text, '=', 0, p);
    FindIs(text, '\n', p + 1, |text| - 1);
  }

  lemma NotSetParts(name: string, buf: string)
    requires WellNamed(name) && IsBuffer(buf) && |"# CONFIG_" + name + " " + "is not set" + "\n"| <= LINE_MAX
    ensures var line := "# CONFIG_" + name + " " + "is not set" + "\n"; var buf' := Loaded(buf, line);
      && buf'[0] == '#' && NotSetName(buf') == Some(name) && Find(line, '\n', 0) == |line| - 1
  {
    var line := "# CONFIG_" + name + " " + "is not set" + "\n";
    var text, buf' := name + " " + "is not set" + "\n", Loaded(buf, line);
    assert line == "# CONFIG_" + text;
    assert buf'[..9] == "# CONFIG_" && buf'[9..] == text + [NUL] + buf[|line| + 1..];
    assert buf'[2..9] == buf'[..9][2..] == "CONFIG_" && buf'[0] == buf'[..9][0];
    NotSetText(name);
    TextIs(buf'[9..], text, buf[|line| + 1..]);
    NewlineLast("# CONFIG_", text);
  }

  lemma NewlineLast(start: string, text: string)
    requires text != [] && text[|text| - 1] == '\n' && '\n' !in start
    requires forall k :: 0 <= k < |text| - 1 ==> text[k] != '\n'
    ensures Find(start + text, '\n', 0) == |start + text| - 1
  {
    FindIs(start + text, '\n', 0, |start + text| - 1);
  }

  lemma NotSetText(name: string)
    requires WellNamed(name)
    ensures var text := name + " " + "is not set" + "\n";
      && NUL !in text && (forall k :: 0 <= k < |text| - 1 ==> text[k] != '\n')
      && Find(text, ' ', 0) == |name| < |text| && text[..|name|] == name && StartsWith(text[|name| + 1..], "is not set")
  {
    var text, p := name + " " + "is not set" + "\n", |name|;
    assert text[..p] == name && text[p] == ' ' && text[p + 1..][..10] == "is not set";
    forall k | 0 <= k < |text| - 1
      ensures text[k] != '\n' && text[k] != NUL && (k < p ==> text[k] != ' ')
    {
      if k < p { assert text[k] == name[k]; }
      if p < k { assert text[k] == "is not set"[k - p - 1]; }
    }
    FindIs(text, ' ', 0, p);
  }

  /** The line that assigns val to name, and the other one that the reader knows. */
  function AssignLine(name: string, val: string): string {
    "CONFIG_" + name + "=" + val + "\n"
  }

  /** An assignment to a bool or tristate symbol counts by its first letter, which has to be that of a value the
      type has.  The lines with n, which are not written, are read as well. */
  lemma ReadTriLine(types: Types, vs: Values, name: string, val: string, v: Tristate, buf: string)
    requires WellNamed(name) && OneLine(val) && IsBuffer(buf) && |AssignLine(name, val)| <= LINE_MAX
    requires name in types && HoldsTri(types[name]) && val != [] && [val[0]] == TriName(v)
    ensures ReadLine(types, vs, Loaded(buf, AssignLine(name, val)))
         == if name in vs || (v == MOD && types[name] == TBoolean) then vs else vs[name := UserValue(v, "")]
  {
    AssignmentParts(name, val, buf);
  }

  /** Any other value of such a symbol is not assigned. */
  lemma ReadNoTriLine(types: Types, vs: Values, name: string, val: string, buf: string)
    requires WellNamed(name) && OneLine(val) && IsBuffer(buf) && |AssignLine(name, val)| <= LINE_MAX
    requires name in types && HoldsTri(types[name])
    requires forall v: Tristate :: val == [] || [val[0]] != TriName(v)
    ensures ReadLine(types, vs, Loaded(buf, AssignLine(name, val))) == vs
  {
    AssignmentParts(name, val, buf);
    assert val != [] ==> [val[0]] != TriName(YES) && [val[0]] != TriName(MOD) && [val[0]] != TriName(NO);
  }

  /** A string has to stand between quotes, the first unescaped of which ends it; anything may follow. */
  lemma ReadStringLine(types: Types, vs: Values, name: string, val: string, buf: string)
    requires WellNamed(name) && OneLine(val) && IsBuffer(buf) && |AssignLine(name, val)| <= LINE_MAX
    requires name in types && types[name] == TString && name !in vs
    ensures forall str, tail :: val == "\"" + Escape(str) + "\"" + tail ==>
      ReadLine(types, vs, Loaded(buf, AssignLine(name, val))) == vs[name := UserValue(NO, str)]
    ensures '"' !in val || val[0] != '"' || '"' !in val[1..] ==> ReadLine(types, vs, Loaded(buf, AssignLine(name, val))) == vs
  {
    AssignmentParts(name, val, buf);
    forall str, tail | val == "\"" + Escape(str) + "\"" + tail
      ensures ReadValue(TString, val) == Some(UserValue(NO, str))
    {
      assert val[1..] == Escape(str) + ['"'] + tail;
      UnescapeEscape(str, tail);
    }
    if val != [] && '"' !in val[1..] { NoQuoteNoString(val[1..]); }
  }

  lemma {:induction false} NoQuoteNoString(r: string)
    requires '"' !in r
    ensures Unescape(r) == None
    decreases |r|
  {
    if r != [] {
      NoQuoteNoString(r[1..]);
      if |r| > 1 { NoQuoteNoString(r[2..]); }
    }
  }

  /** An int is its decimal text, a hex symbol any hexadecimal digits with or without 0x in front; nothing else is
      assigned to them. */
  lemma ReadNumberLine(types: Types, vs: Values, name: string, val: string, buf: string)
    requires WellNamed(name) && OneLine(val) && IsBuffer(buf) && |AssignLine(name, val)| <= LINE_MAX
    requires name in types && (types[name] == TInt || types[name] == THex) && name !in vs
    ensures ReadLine(types, vs, Loaded(buf, AssignLine(name, val)))
         == if (if types[name] == TInt then IsDecimal(val) else IsHexText(val)) then vs[name := UserValue(NO, val)] else vs
  {
    AssignmentParts(name, val, buf);
    DecimalIff(val);
    HexTextIff(val);
  }

  /** The text of a number: a minus or nothing, then digits of which the first is not 0 unless it is the only one. */
  ghost predicate IsDecimal(s: string) {
    exists sign: string, d: string :: IsDecimalOf(s, sign, d)
  }

  predicate IsDecimalOf(s: string, sign: string, d: string) {
    s == sign + d && (sign == "" || sign == "-") && d != [] && (d == "0" || d[0] != '0')
    && forall i :: 0 <= i < |d| ==> '0' <= d[i] <= '9'
  }

  lemma ValidIsDecimal(s: string)
    requires IntStringValid(s)
    ensures IsDecimal(s)
  {
    var sign, d := if s[0] == '-' then "-" else "", if s[0] == '-' then s[1..] else s;
    forall i | 0 <= i < |d|
      ensures '0' <= d[i] <= '9'
    {
      if i > 0 { assert d[i] == d[1..][i - 1] && IsDigit(d[1..][i - 1]); }
    }
    assert IsDecimalOf(s, sign, d);
  }

  lemma DecimalIsValid(s: string, sign: string, d: string)
    requires IsDecimalOf(s, sign, d)
    ensures IntStringValid(s)
  {
    if sign == "-" { assert s[0] == '-' && s[1..] == d; } else { assert s == d && s[0] != '-'; }
    assert d[0] == '0' ==> |d| == 1;
  }

  lemma DecimalIff(s: string)
    ensures IsDecimal(s) <==> IntStringValid(s)
  {
    if IntStringValid(s) { ValidIsDecimal(s); }
    if IsDecimal(s) {
      var sign, d :| IsDecimalOf(s, sign, d);
      DecimalIsValid(s, sign, d);
    }
  }

  predicate HexChars(d: string) {
    d != [] && forall i :: 0 <= i < |d| ==> '0' <= d[i] <= '9' || 'a' <= d[i] <= 'f' || 'A' <= d[i] <= 'F'
  }

  ghost predicate IsHexText(s: string) {
    HexChars(s) || exists d :: HexChars(d) && (s == "0x" + d || s == "0X" + d)
  }

  lemma HexTextIff(s: string)
    ensures IsHexText(s) <==> HexStringValid(s)
  {
    var t := HexPart(s);
    HexCharsIff(t);
    if t != s {
      assert s == s[..2] + t && (s[..2] == "0x" || s[..2] == "0X");
      assert s[1] == 'x' || s[1] == 'X';
      assert !HexChars(s);
    }
    if exists d :: HexChars(d) && (s == "0x" + d || s == "0X" + d) {
      var d :| HexChars(d) && (s == "0x" + d || s == "0X" + d);
      assert s[2..] == d;
    }
  }

  lemma HexCharsIff(t: string)
    ensures HexChars(t) <==> t != [] && AllHexDigits(t)
  {
  }

  /** What names no known symbol, or one that has a value already, changes nothing. */
  lemma ReadKnownLine(types: Types, vs: Values, name: string, val: string, buf: string)
    requires WellNamed(name) && OneLine(val) && IsBuffer(buf) && |AssignLine(name, val)| <= LINE_MAX
    requires name !in types || name in vs
    ensures ReadLine(types, vs, Loaded(buf, AssignLine(name, val))) == vs
  {
    AssignmentParts(name, val, buf);
  }

  /** The comment sets bool and tristate symbols only, and also not twice. */
  lemma ReadNotSetLine(types: Types, vs: Values, name: string, buf: string)
    requires WellNamed(name) && IsBuffer(buf) && |"# CONFIG_" + name + " " + "is not set" + "\n"| <= LINE_MAX
    ensures ReadLine(types, vs, Loaded(buf, "# CONFIG_" + name + " " + "is not set" + "\n"))
         == if name in types && (types[name] == TBoolean || types[name] == TTristate) && name !in vs
            then vs[name := UserValue(NO, "")] else vs
  {
    NotSetParts(name, buf);
  }

  /** A line of a single # with no newline, which only the end of a file can be, is read on into what an earlier
      line has left in the buffer. */
  lemma LoneHashReadsOn(buf: string, name: string, rest: string)
    requires IsBuffer(buf) && WellNamed(name) && buf[2..] == "CONFIG_" + (name + " " + "is not set" + "\n") + [NUL] + rest
    ensures Loaded(buf, "#")[0] == '#' && NotSetName(Loaded(buf, "#")) == Some(name)
  {
    var text, buf' := name + " " + "is not set" + "\n", Loaded(buf, "#");
    assert buf'[2..] == buf[2..] && buf'[2..9] == buf'[2..][..7] == "CONFIG_";
    assert buf'[9..] == buf'[2..][7..] == text + [NUL] + rest;
    NotSetText(name);
    TextIs(buf'[9..], text, rest);
  }

  /** The text between the equals sign and the newline. */
  function ValueText(e: Entry): string {
    match e.typ
    case TString => "\"" + Escape(e.str) + "\""
    case THex => e.str
    case TInt => if e.str == "" then "0" else e.str
    case _ => if e.tri == MOD then "m" else "y"
  }

  lemma StringReadsBack(str: string)
    requires OneLine(str)
    ensures OneLine("\"" + Escape(str) + "\"")
    ensures ReadValue(TString, "\"" + Escape(str) + "\"") == Some(UserValue(NO, str))
  {
    EscapeIsOneLine(str);
    var text := "\"" + Escape(str) + "\"";
    assert text[1..] == Escape(str) + ['"'] + [];
    UnescapeEscape(str, []);
  }

  lemma NumberReadsBack(types: Types, e: Entry)
    requires Storable(types, e) && (e.typ == TInt || e.typ == THex)
    ensures OneLine(ValueText(e)) && ReadValue(e.typ, ValueText(e)) == Some(ReadBack(e))
  {
    if e.typ == THex {
      HexIsOneLine(e.str);
    } else if e.str != "" {
      IntIsOneLine(e.str);
    } else {
      assert "0"[1..] == [];
    }
  }

  lemma WrittenAs(e: Entry)
    requires e.typ != TUnknown && (e.typ == TBoolean || e.typ == TTristate ==> e.tri != NO)
    ensures WriteEntry(e) == "CONFIG_" + e.name + "=" + ValueText(e) + "\n"
  {
  }

  lemma ValueTextReadsBack(types: Types, e: Entry)
    requires Storable(types, e) && (e.typ == TBoolean || e.typ == TTristate ==> e.tri != NO)
    ensures OneLine(ValueText(e)) && ReadValue(e.typ, ValueText(e)) == Some(ReadBack(e))
    ensures WriteEntry(e) == "CONFIG_" + e.name + "=" + ValueText(e) + "\n"
  {
    WrittenAs(e);
    match e.typ
    case TString => StringReadsBack(e.str);
    case TInt => NumberReadsBack(types, e);
    case THex => NumberReadsBack(types, e);
    case _ =>
  }

  lemma IntIsOneLine(s: string)
    requires IntStringValid(s)
    ensures OneLine(s)
  {
    var t := if s != [] && s[0] == '-' then s[1..] else s;
    assert forall i :: 0 <= i < |t| ==> IsDigit(t[i]) by {
      assert forall i :: 0 <= i < |t[1..]| ==> IsDigit(t[1..][i]);
      forall i | 0 <= i < |t| ensures IsDigit(t[i]) { if i > 0 { assert t[i] == t[1..][i - 1]; } }
    }
    forall i | 0 <= i < |s| ensures s[i] != '\n' && s[i] != NUL { if s[0] == '-' && i > 0 { assert s[i] == t[i - 1]; } }
  }

  lemma HexIsOneLine(s: string)
    requires HexStringValid(s)
    ensures OneLine(s)
  {
    var t := HexPart(s);
    forall i | 0 <= i < |s|
      ensures s[i] != '\n' && s[i] != NUL
    {
      if t == s {
        assert IsHexDigit(t[i]);
      } else if i >= 2 {
        assert s[i] == t[i - 2] && IsHexDigit(t[i - 2]);
      }
    }
  }

  /** A written line reads back as the value that was written. */
  lemma ReadWrittenLine(types: Types, vs: Values, e: Entry, buf: string)
    requires Storable(types, e) && e.name !in vs && IsBuffer(buf)
    ensures WriteEntry(e) != [] && Find(WriteEntry(e), '\n', 0) == |WriteEntry(e)| - 1
    ensures ReadLine(types, vs, Loaded(buf, WriteEntry(e))) == vs[e.name := ReadBack(e)]
    ensures LineSym(types, Loaded(buf, WriteEntry(e))) == if HoldsTri(e.typ) then Some(e.name) else None
  {
    if (e.typ == TBoolean || e.typ == TTristate) && e.tri == NO {
      NotSetParts(e.name, buf);
    } else {
      ValueTextReadsBack(types, e);
      AssignmentParts(e.name, ValueText(e), buf);
    }
  }

  // ----- the whole file -----

  ghost predicate DistinctNames(es: seq<Entry>) {
    forall i, j :: 0 <= i < j < |es| ==> es[i].name != es[j].name
  }

  function AssignOne(groups: Groups, u: User, e: Entry): User {
    var vs := u.vs[e.name := ReadBack(e)];
    User(vs, JoinSym(groups, u.cs, vs, if HoldsTri(e.typ) then Some(e.name) else None))
  }

  function Assigned(groups: Groups, u: User, es: seq<Entry>): User
    decreases |es|
  {
    if es == [] then u else Assigned(groups, AssignOne(groups, u, es[0]), es[1..])
  }

  lemma FirstLine(line: string, rest: string)
    requires line != [] && Find(line, '\n', 0) == |line| - 1 && |line| <= LINE_MAX
    ensures var content := line + rest;
      LineLength(content) == |line| && content[..|line|] == line && content[|line|..] == rest
  {
    var content := line + rest;
    FindIs(content, '\n', 0, |line| - 1);
  }

  /** Reading a written file gives every symbol the value it was written with. */
  lemma {:induction false} ReadWrite(types: Types, groups: Groups, u: User, buf: string, es: seq<Entry>)
    requires forall e :: e in es ==> Storable(types, e) && e.name !in u.vs
    requires DistinctNames(es) && IsBuffer(buf)
    ensures Read(types, groups, u, buf, Write(es)) == Assigned(groups, u, es)
    decreases |es|
  {
    if es != [] {
      var line, rest := WriteEntry(es[0]), Write(es[1..]);
      assert Storable(types, es[0]);
      ReadWrittenLine(types, u.vs, es[0], buf);
      FirstLine(line, rest);
      ReadWrite(types, groups, AssignOne(groups, u, es[0]), Loaded(buf, line), es[1..]);
    }
  }

  /** And what was assigned is, for each entry, just its value. */
  lemma {:induction false} AssignedEach(groups: Groups, u: User, es: seq<Entry>, i: nat)
    requires i < |es| && DistinctNames(es)
    ensures var vs := Assigned(groups, u, es).vs; es[i].name in vs && vs[es[i].name] == ReadBack(es[i])
    decreases |es|
  {
    var u' := AssignOne(groups, u, es[0]);
    if i > 0 {
      AssignedEach(groups, u', es[1..], i - 1);
    } else {
      AssignedKeeps(groups, u', es[1..], es[0].name);
    }
  }

  lemma {:induction false} AssignedKeeps(groups: Groups, u: User, es: seq<Entry>, name: string)
    requires name in u.vs && forall e :: e in es ==> e.name != name
    ensures var vs := Assigned(groups, u, es).vs; name in vs && vs[name] == u.vs[name]
    decreases |es|
  {
    if es != [] {
      AssignedKeeps(groups, AssignOne(groups, u, es[0]), es[1..], name);
    }
  }

  // ----- choices in a written file -----

  /** A member of choice k that was written as mod or yes. */
  predicate SetIn(groups: Groups, k: nat, e: Entry) {
    HoldsTri(e.typ) && e.name in groups && groups[e.name] == k && e.tri != NO
  }

  /** A state that one choice can be in: a member that is yes excludes every other. */
  ghost predicate Consistent(groups: Groups, k: nat, es: seq<Entry>) {
    forall a, b :: a in es && b in es && SetIn(groups, k, a) && SetIn(groups, k, b) && a.tri == YES ==> a == b
  }

  /** What the reader knows of choice k when the entries es have been read: its value is the greatest of its
      members' values, the member set is one that is yes, and the choice is marked exactly if no choice can
      have such members. */
  ghost predicate ChoiceRead(groups: Groups, k: nat, es: seq<Entry>, c: ChoiceUser) {
    && (forall e :: e in es && SetIn(groups, k, e) ==> e.tri <= c.tri)
    && (c.tri != NO ==> exists e :: e in es && SetIn(groups, k, e) && e.tri == c.tri)
    && (c.val.Some? ==> exists e :: e in es && SetIn(groups, k, e) && e.tri == YES && c.val == Some(e.name))
    && (c.inconsistent <==> !Consistent(groups, k, es))
    && (c.tri == YES && !c.inconsistent ==> c.val.Some?)
  }

  lemma JoinStep(groups: Groups, k: nat, es: seq<Entry>, e: Entry, c: ChoiceUser)
    requires ChoiceRead(groups, k, es, c) && e !in es
    ensures ChoiceRead(groups, k, es + [e], if SetIn(groups, k, e) then JoinChoice(c, e.name, e.tri) else c)
  {
    var es' := es + [e];
    assert forall x :: x in es' <==> x in es || x == e;
    if SetIn(groups, k, e) && e.tri == YES && c.tri != NO {
      var x :| x in es && SetIn(groups, k, x) && x.tri == c.tri;
      assert e in es' && x in es' && !Consistent(groups, k, es');
    } else if SetIn(groups, k, e) && e.tri == MOD && c.tri == YES {
      var x :| x in es && SetIn(groups, k, x) && x.tri == c.tri;
      assert e in es' && x in es' && !Consistent(groups, k, es');
    } else {
      ConsistentStep(groups, k, es, e, c);
    }
  }

  lemma ConsistentStep(groups: Groups, k: nat, es: seq<Entry>, e: Entry, c: ChoiceUser)
    requires ChoiceRead(groups, k, es, c) && e !in es
    requires SetIn(groups, k, e) ==> c.tri == NO || (c.tri == MOD && e.tri == MOD)
    ensures Consistent(groups, k, es + [e]) <==> Consistent(groups, k, es)
  {
    var es' := es + [e];
    assert forall x :: x in es' <==> x in es || x == e;
    if !Consistent(groups, k, es) {
      var a, b :| a in es && b in es && SetIn(groups, k, a) && SetIn(groups, k, b) && a.tri == YES && a != b;
      assert a in es' && b in es';
    }
  }

  /** Each choice after the entries of a file. */
  lemma {:induction false} AssignedChoices(groups: Groups, u: User, before: seq<Entry>, es: seq<Entry>, k: nat)
    requires ChoiceRead(groups, k, before, ChoiceOf(u.cs, k)) && DistinctNames(before + es)
    ensures ChoiceRead(groups, k, before + es, ChoiceOf(Assigned(groups, u, es).cs, k))
    decreases |es|
  {
    if es == [] {
      assert before + es == before;
    } else {
      var e, c := es[0], ChoiceOf(u.cs, k);
      assert forall i :: 0 <= i < |before| ==> before[i] == (before + es)[i] && (before + es)[|before|] == e;
      JoinStep(groups, k, before, e, c);
      assert before + [e] + es[1..] == before + es;
      var u' := AssignOne(groups, u, e);
      assert ChoiceOf(u'.cs, k) == if SetIn(groups, k, e) then JoinChoice(c, e.name, e.tri) else c;
      AssignedChoices(groups, u', before + [e], es[1..], k);
    }
  }

  lemma RestoresValues(types: Types, groups: Groups, buf: string, es: seq<Entry>)
    requires forall e :: e in es ==> Storable(types, e)
    requires DistinctNames(es) && IsBuffer(buf)
    ensures var u := Read(types, groups, User(map[], map[]), buf, Write(es));
      forall i :: 0 <= i < |es| ==> es[i].name in u.vs && u.vs[es[i].name] == ReadBack(es[i])
  {
    var none := User(map[], map[]);
    ReadWrite(types, groups, none, buf, es);
    forall i | 0 <= i < |es|
      ensures var vs := Assigned(groups, none, es).vs; es[i].name in vs && vs[es[i].name] == ReadBack(es[i])
    {
      AssignedEach(groups, none, es, i);
    }
  }

  lemma RestoresChoices(types: Types, groups: Groups, buf: string, es: seq<Entry>)
    requires forall e :: e in es ==> Storable(types, e)
    requires DistinctNames(es) && IsBuffer(buf)
    ensures var u := Read(types, groups, User(map[], map[]), buf, Write(es));
      forall k :: ChoiceRead(groups, k, es, ChoiceOf(u.cs, k))
  {
    var none := User(map[], map[]);
    ReadWrite(types, groups, none, buf, es);
    forall k: nat
      ensures ChoiceRead(groups, k, es, ChoiceOf(Assigned(groups, none, es).cs, k))
    {
      AssignedChoices(groups, none, [], es, k);
      assert [] + es == es;
    }
  }

  /** Writing a configuration and reading it into a table where nothing is set restores it, and every choice
      gets its value and its member back from theirs. */
  method RoundTrip(types: Types, groups: Groups, buf: string, es: seq<Entry>) returns (u: User)
    requires forall e :: e in es ==> Storable(types, e)
    requires DistinctNames(es) && IsBuffer(buf)
    ensures forall i :: 0 <= i < |es| ==> es[i].name in u.vs && u.vs[es[i].name] == ReadBack(es[i])
    ensures forall k :: ChoiceRead(groups, k, es, ChoiceOf(u.cs, k))
  {
    var content := WriteFile(es);
    u := ReadFile(types, groups, buf, content);
    RestoresValues(types, groups, buf, es);
    RestoresChoices(types, groups, buf, es);
  }
}
