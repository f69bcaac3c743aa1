/** fixdep: a newline-separated string as a set, and the scanner that fills it. */
module FixDep {

  predicate IsLetter(c: char) {
    'a' <= c <= 'z' || 'A' <= c <= 'Z'
  }

  predicate IsWord(c: char) {
    IsLetter(c) || '0' <= c <= '9' || c == '_'
  }

  // ----- the set of names as one string -----

  /** A newline, then each name with a newline after it. */
  function Encode(names: seq<string>): (s: string)
    ensures s != [] && s[|s| - 1] == '\n'
  {
    if names == [] then "\n"
    else Encode(names[..|names| - 1]) + names[|names| - 1] + "\n"
  }

  predicate OneLine(name: string) {
    forall i :: 0 <= i < |name| ==> name[i] != '\n'
  }

  /** The name stands at position p, between two newlines. */
  predicate StandsAt(s: string, p: int, name: string) {
    1 <= p && p + |name| < |s| && s[p - 1] == '\n' && s[p + |name|] == '\n' && s[p..p + |name|] == name
  }

  ghost predicate Holds(s: string, name: string) {
    exists p :: StandsAt(s, p, name)
  }

  /** Searching the string finds exactly the names that were put in. */
  lemma {:induction false} StandsIffIn(names: seq<string>, name: string)
    requires OneLine(name) && forall i :: 0 <= i < |names| ==> OneLine(names[i])
    ensures Holds(Encode(names), name) <==> name in names
    decreases |names|
  {
    if names != [] {
      var before, last := names[..|names| - 1], names[|names| - 1];
      var e, s := Encode(before), Encode(names);
      StandsIffIn(before, name);
      assert names == before + [last];
      if p :| StandsAt(e, p, name) {
        assert s[..|e|] == e && StandsAt(s, p, name) by { assert s[p..p + |name|] == e[p..p + |name|]; }
      }
      if last == name {
        assert s[|e|..|e| + |name|] == name;
        assert StandsAt(s, |e|, name);
      }
      if p :| StandsAt(s, p, name) {
        StandsSplits(before, last, name, p);
      }
    }
  }

  lemma StandsSplits(before: seq<string>, last: string, name: string, p: int)
    requires OneLine(name) && OneLine(last) && StandsAt(Encode(before) + last + "\n", p, name)
    ensures StandsAt(Encode(before), p, name) || last == name
  {
    var e := Encode(before);
    var s := e + last + "\n";
    assert s[..|e|] == e && s[|e| - 1] == '\n';
    assert forall k :: |e| <= k < |e| + |last| ==> s[k] == last[k - |e|] && s[k] != '\n';
    assert forall k :: p <= k < p + |name| ==> s[k] == s[p..p + |name|][k - p] && s[k] != '\n';
    assert p <= |e|;
    if p < |e| {
      assert p + |name| < |e|;
      assert s[p..p + |name|] == e[p..p + |name|];
    } else {
      assert |name| == |last|;
      assert s[p..p + |name|] == last;
    }
  }

  // ----- printed lines -----

  function ToLower(c: char): char {
    if 'A' <= c <= 'Z' then (c as int + 32) as char else c
  }

  function PathChar(c: char): char {
    if c == '_' then '/' else ToLower(c)
  }

  function Map(f: char -> char, s: string): (t: string)
    ensures |t| == |s| && forall i :: 0 <= i < |s| ==> t[i] == f(s[i])
  {
    seq(|s|, i requires 0 <= i < |s| => f(s[i]))
  }

  /** The header that stands for an option. */
  function Path(name: string): string {
    Map(PathChar, name)
  }

  predicate IsIdentifier(s: string) {
    s != [] && forall i :: 0 <= i < |s| ==> IsWord(s[i])
  }

  const UPPER: string := "ABCDEFGHIJKLMNOPQRSTUVWXYZ"
  const LOWER: string := "abcdefghijklmnopqrstuvwxyz"
  const DIGITS: string := "0123456789"

  /** s lists the characters from first on. */
  predicate Runs(s: string, first: char) {
    forall k :: 0 <= k < |s| ==> s[k] as int == first as int + k
  }

  lemma RunIff(s: string, first: char, c: char)
    requires Runs(s, first)
    ensures c in s <==> first as int <= c as int < first as int + |s|
  {
    if first as int <= c as int < first as int + |s| { assert c == s[c as int - first as int]; }
  }

  /** Names are made of letters, digits and underscores. */
  lemma WordIff(c: char)
    ensures IsWord(c) <==> c in UPPER || c in LOWER || c in DIGITS || c == '_'
  {
    RunIff(UPPER, 'A', c);
    RunIff(LOWER, 'a', c);
    RunIff(DIGITS, '0', c);
  }

  lemma LowerOf(k: nat)
    requires k < 26
    ensures ToLower(UPPER[k]) == LOWER[k] && UPPER[k] != '_'
  {
    assert Runs(UPPER, 'A') && Runs(LOWER, 'a');
  }

  /** The header has a slash for each underscore, the small letter for a capital one, and all else as it is. */
  lemma HeaderAt(name: string, i: nat)
    requires IsIdentifier(name) && i < |name|
    ensures |Path(name)| == |name|
    ensures var c, h := name[i], Path(name)[i];
      && (c == '_' ==> h == '/')
      && (c !in UPPER && c != '_' ==> h == c)
      && (forall k: nat :: k < 26 && c == UPPER[k] ==> h == LOWER[k])
  {
    RunIff(UPPER, 'A', name[i]);
    forall k: nat | k < 26 && name[i] == UPPER[k]
      ensures Path(name)[i] == LOWER[k]
    {
      LowerOf(k);
    }
  }

  /** Two options share their header exactly when they differ in the case of letters only. */
  lemma SameHeaderIff(a: string, b: string)
    requires IsIdentifier(a) && IsIdentifier(b)
    ensures Path(a) == Path(b) <==> Map(ToLower, a) == Map(ToLower, b)
  {
    if |a| == |b| {
      forall i | 0 <= i < |a|
        ensures Path(a)[i] == Path(b)[i] <==> Map(ToLower, a)[i] == Map(ToLower, b)[i]
      {
        assert IsWord(a[i]) && IsWord(b[i]);
      }
    } else {
      assert |Path(a)| != |Path(b)| && |Map(ToLower, a)| != |Map(ToLower, b)|;
    }
  }

  // ----- the scanner -----

  /** The end of the run of word characters that starts at i, but no later than limit. */
  function WordEnd(b: string, i: nat, limit: nat): (q: nat)
    requires limit <= |b|
    ensures (i <= limit ==> i <= q <= limit) && (i > limit ==> q == i)
    ensures (forall k :: i <= k < q ==> IsWord(b[k])) && (q < limit ==> !IsWord(b[q]))
    decreases limit - i
  {
    if i < limit && IsWord(b[i]) then WordEnd(b, i + 1, limit) else i
  }

  /** How long the marker at p is, or 0. */
  function MarkerAt(b: string, p: nat): (off: nat)
    requires p + 3 <= |b|
    ensures off == 0 || off == 3 || (off == 7 && p + 7 < |b|)
  {
    if p + 7 < |b| && b[p + 6] == '_' && (b[p..p + 6] == "CONFIG" || b[p..p + 6] == "ENABLE" || b[p..p + 6] == "IF_NOT") then
      7
    else if b[p] == 'I' && b[p + 1] == 'F' && b[p + 2] == '_' then 3
    else 0
  }

  /** Where the scan looks next: after a marker it goes on inside the name. */
  function Next(b: string, p: nat): (n: nat)
    requires p + 3 <= |b|
    ensures n > p
  {
    if !IsWord(b[p]) then p + 1
    else if MarkerAt(b, p) == 0 then WordEnd(b, p, |b| - 2) + 1
    else p + MarkerAt(b, p) + 1
  }

  /** What is recorded at position p. */
  function Here(b: string, p: nat): seq<string>
    requires p + 3 <= |b|
  {
    if !IsWord(b[p]) || MarkerAt(b, p) == 0 then []
    else
      var i := p + MarkerAt(b, p);
      NonEmpty(b[i..WordEnd(b, i, |b|)])
  }

  /** The names recorded from position p on. */
  function Scan(b: string, p: nat): seq<string>
    decreases |b| - p
  {
    if p + 3 > |b| then [] else Here(b, p) + Scan(b, Next(b, p))
  }

  function NonEmpty(name: string): seq<string> {
    if name == [] then [] else [name]
  }

  /** An identifier of the text, as long as it can be, that starts with a marker and goes on after it. */
  predicate Marked(b: string, i: nat, off: nat, j: nat) {
    && 0 < off && i + off < j <= |b| && i + 3 <= |b| && MarkerAt(b, i) == off
    && (forall k :: i <= k < j ==> IsWord(b[k]))
    && (i == 0 || !IsWord(b[i - 1])) && (j == |b| || !IsWord(b[j]))
  }

  /** The scan never steps over the beginning of such an identifier. */
  lemma {:induction false} ScanMissesNothing(b: string, p: nat, i: nat, off: nat, j: nat)
    requires Marked(b, i, off, j) && p <= i
    ensures b[i + off..j] in Scan(b, p)
    decreases |b| - p
  {
    if p == i {
      MarkedIsHere(b, i, off, j);
    } else {
      NextIsNotPast(b, p, i);
      ScanMissesNothing(b, Next(b, p), i, off, j);
    }
  }

  lemma MarkedIsHere(b: string, i: nat, off: nat, j: nat)
    requires Marked(b, i, off, j)
    ensures Here(b, i) == [b[i + off..j]]
  {
    WordRunStops(b, i + off, j, WordEnd(b, i + off, |b|));
  }

  /** No step of the scan goes past a position that follows a character outside words. */
  lemma NextIsNotPast(b: string, p: nat, i: nat)
    requires p + 3 <= |b| && p < i <= |b| && !IsWord(b[i - 1])
    ensures Next(b, p) <= i
  {
    if IsWord(b[p]) {
      if MarkerAt(b, p) == 0 {
        WordRunStops(b, p, i - 1, WordEnd(b, p, |b| - 2));
      } else {
        MarkerIsWord(b, p);
      }
    }
  }

  lemma WordRunStops(b: string, p: nat, k: nat, q: nat)
    requires p <= k && (k < |b| ==> !IsWord(b[k])) && q <= |b| && forall l :: p <= l < q ==> IsWord(b[l])
    ensures q <= k || k >= |b|
  {
  }

  lemma WordIsOneLine(b: string, i: nat, q: nat)
    requires i <= q <= |b| && forall k :: i <= k < q ==> IsWord(b[k])
    ensures OneLine(b[i..q])
  {
  }

  lemma MarkerIsWord(b: string, p: nat)
    requires p + 3 <= |b| && MarkerAt(b, p) > 0
    ensures p + MarkerAt(b, p) <= |b| && forall k :: p <= k < p + MarkerAt(b, p) ==> IsWord(b[k])
  {
    var m := MarkerAt(b, p);
    assert m == 3 ==> b[p] == 'I' && b[p + 1] == 'F' && b[p + 2] == '_';
    assert m == 7 ==> b[p + 6] == '_' && forall k :: p <= k < p + 6 ==> b[k] == b[p..p + 6][k - p];
  }

  /** text stands at i. */
  predicate TextAt(b: string, i: nat, text: string) {
    i + |text| <= |b| && b[i..i + |text|] == text
  }

  /** One of the long prefixes stands at i, with something after it in the file. */
  predicate LongMarker(b: string, i: nat) {
    i + 7 < |b| && (TextAt(b, i, "CONFIG_") || TextAt(b, i, "ENABLE_") || TextAt(b, i, "IF_NOT_"))
  }

  /** There are four markers, and IF_ counts only where no longer one stands. */
  lemma MarkerIff(b: string, i: nat)
    requires i + 3 <= |b|
    ensures MarkerAt(b, i) == 7 <==> LongMarker(b, i)
    ensures MarkerAt(b, i) == 3 <==> TextAt(b, i, "IF_") && !LongMarker(b, i)
    ensures MarkerAt(b, i) == 0 <==> !TextAt(b, i, "IF_") && !LongMarker(b, i)
  {
    if i + 7 < |b| {
      SixAndOne(b, i, "CONFIG_");
      SixAndOne(b, i, "ENABLE_");
      SixAndOne(b, i, "IF_NOT_");
    }
    assert b[i..i + 3] == [b[i], b[i + 1], b[i + 2]];
  }

  lemma SixAndOne(b: string, i: nat, text: string)
    requires i + 7 < |b| && |text| == 7
    ensures TextAt(b, i, text) <==> b[i..i + 6] == text[..6] && b[i + 6] == text[6]
  {
    assert b[i..i + 7] == b[i..i + 6] + [b[i + 6]] && text == text[..6] + [text[6]];
  }

  /** An option counts as marked wherever something follows one of the four prefixes. */
  lemma OptionIsMarked(b: string, i: nat, off: nat, j: nat)
    requires i + off < j <= |b|
    requires (off == 7 && LongMarker(b, i)) || (off == 3 && TextAt(b, i, "IF_") && !LongMarker(b, i))
    requires (forall k :: i <= k < j ==> IsWord(b[k])) && (i == 0 || !IsWord(b[i - 1])) && (j == |b| || !IsWord(b[j]))
    ensures Marked(b, i, off, j) && b[i + off..j] in Scan(b, 0)
  {
    MarkerIff(b, i);
    ScanMissesNothing(b, 0, i, off, j);
  }

  /** The name stands right after a marker at i, and no word character comes next. */
  predicate FollowsMarker(b: string, i: nat, name: string) {
    && i + 3 <= |b| && MarkerAt(b, i) > 0
    && var k := i + MarkerAt(b, i);
       k + |name| <= |b| && b[k..k + |name|] == name && (k + |name| == |b| || !IsWord(b[k + |name|]))
  }

  /** Whatever is recorded follows a marker, and goes on to the end of its identifier. */
  lemma {:induction false} ScanRecordsOnlyMarked(b: string, p: nat, name: string)
    requires name in Scan(b, p)
    ensures IsIdentifier(name) && exists i: nat :: FollowsMarker(b, i, name)
    decreases |b| - p
  {
    if name in Here(b, p) {
      assert FollowsMarker(b, p, name);
    } else {
      ScanRecordsOnlyMarked(b, Next(b, p), name);
    }
  }

  /** The end of a run of word characters, from where it is. */
  lemma WordEndIs(b: string, i: nat, q: nat)
    requires i <= q <= |b| && (forall k :: i <= k < q ==> IsWord(b[k])) && (q == |b| || !IsWord(b[q]))
    ensures WordEnd(b, i, |b|) == q
  {
    WordRunStops(b, i, q, WordEnd(b, i, |b|));
  }

  /** A marker inside a name counts again, although no identifier begins there. */
  lemma MarkerInsideName()
    ensures Scan("CONFIG_XIF_FOO", 0) == ["XIF_FOO", "FOO"]
  {
    var b := "CONFIG_XIF_FOO";
    assert b[0..6] == "CONFIG" && MarkerAt(b, 0) == 7 && MarkerAt(b, 8) == 3;
    WordEndIs(b, 7, 14);
    WordEndIs(b, 11, 14);
    assert b[7..14] == "XIF_FOO" && b[11..14] == "FOO";
    assert Here(b, 0) == ["XIF_FOO"];
    assert Here(b, 8) == ["FOO"];
    assert Next(b, 0) == 8 && Next(b, 8) == 12;
    assert Scan(b, 8) == Here(b, 8) + Scan(b, 12) == ["FOO"];
  }

  // ----- recording -----

  function Recorded(names: seq<string>, more: seq<string>): seq<string>
    decreases |more|
  {
    if more == [] then names
    else Recorded(if more[0] in names then names else names + [more[0]], more[1..])
  }

  lemma RecordOne(names: seq<string>, name: string)
    ensures Recorded(names, [name]) == if name in names then names else names + [name]
  {
  }

  ghost predicate NoRepeats(names: seq<string>) {
    forall i, j :: 0 <= i < j < |names| ==> names[i] != names[j]
  }

  lemma {:induction false} RecordedKeepsSet(names: seq<string>, more: seq<string>)
    ensures forall n :: n in Recorded(names, more) <==> n in names || n in more
    ensures NoRepeats(names) ==> NoRepeats(Recorded(names, more))
    decreases |more|
  {
    if more != [] {
      var next := if more[0] in names then names else names + [more[0]];
      RecordedKeepsSet(next, more[1..]);
      assert more == [more[0]] + more[1..];
    }
  }

  lemma {:induction false} RecordedAppend(names: seq<string>, a: seq<string>, b: seq<string>)
    ensures Recorded(names, a + b) == Recorded(Recorded(names, a), b)
    decreases |a|
  {
    if a == [] {
      assert a + b == b;
    } else {
      assert (a + b)[1..] == a[1..] + b;
      RecordedAppend(if a[0] in names then names else names + [a[0]], a[1..], b);
    }
  }

  /** A file that a target depends on. */
  datatype File = File(name: string, content: string)

  predicate EndsWith(s: string, t: string) {
    |t| <= |s| && s[|s| - |t|..] == t
  }

  predicate IsScanned(name: string) {
    !EndsWith(name, "include/autoconf.h") && !EndsWith(name, "arch/um/include/uml-config.h") && !EndsWith(name, ".ver")
  }

  function ScanFile(f: File): seq<string> {
    if IsScanned(f.name) then Scan(f.content, 0) else []
  }

  function ScanFiles(files: seq<File>): seq<string> {
    if files == [] then [] else ScanFile(files[0]) + ScanFiles(files[1..])
  }

  /** The names there are once the scan that has come to p is through. */
  function After(names: seq<string>, b: string, p: nat): seq<string>
    decreases |b| - p
  {
    if p + 3 > |b| then names else After(Recorded(names, Here(b, p)), b, Next(b, p))
  }

  lemma AfterStep(names: seq<string>, b: string, p: nat)
    requires p + 3 <= |b|
    ensures After(names, b, p) == After(Recorded(names, Here(b, p)), b, Next(b, p))
  {
  }

  lemma {:induction false} AfterIsRecorded(names: seq<string>, b: string, p: nat)
    ensures After(names, b, p) == Recorded(names, Scan(b, p))
    decreases |b| - p
  {
    if p + 3 <= |b| {
      AfterIsRecorded(Recorded(names, Here(b, p)), b, Next(b, p));
      RecordedAppend(names, Here(b, p), Scan(b, Next(b, p)));
    }
  }

  lemma {:induction false} ScanFilesAppend(files: seq<File>, f: File)
    ensures ScanFiles(files + [f]) == ScanFiles(files) + ScanFile(f)
  {
    if files == [] {
      assert files + [f] == [f];
    } else {
      assert (files + [f])[1..] == files[1..] + [f];
      ScanFilesAppend(files[1..], f);
    }
  }

  lemma {:induction false} ScanFilesHas(files: seq<File>, f: File, name: string)
    requires f in files && IsScanned(f.name) && name in Scan(f.content, 0)
    ensures name in ScanFiles(files)
  {
    if f != files[0] { ScanFilesHas(files[1..], f, name); }
  }

  class Config {
    var str: array<char>
    var len: nat
    var printed: seq<string>
    ghost var names: seq<string>

    constructor ()
      ensures len == 0 && printed == [] && fresh(str)
    {
      str := new char[0];
      len, printed, names := 0, [], [];
    }

    ghost predicate Valid()
      reads this, str
    {
      && len <= str.Length && str[..len] == Encode(names)
      && forall i :: 0 <= i < |names| ==> OneLine(names[i])
    }

    /** One line was printed for every name, in order. */
    ghost predicate Printed()
      reads this
    {
      && |printed| == |names|
      && forall i :: 0 <= i < |names| ==> printed[i] == Path(names[i])
    }

    ghost predicate Sound()
      reads this, str
    {
      Valid() && Printed()
    }

    /** Room for more characters: the buffer doubles until they fit. */
    method Grow(more: nat)
      requires len <= str.Length
      modifies this`str
      ensures len + more <= str.Length && str[..len] == old(str[..len])
      ensures str == old(str) || fresh(str)
    {
      while len + more > str.Length
        invariant len <= str.Length && str[..len] == old(str[..len]) && (str == old(str) || fresh(str))
        decreases len + more - str.Length
      {
        var size := 2 * (if str.Length == 0 then 2048 else str.Length);
        var s := new char[size];
        forall i | 0 <= i < len {
          s[i] := str[i];
        }
        assert s[..len] == str[..len];
        str := s;
      }
    }

    method Append(name: string)
      requires len <= str.Length
      modifies this`str, this`len, str
      ensures len <= str.Length && str[..len] == old(str[..len]) + name + "\n"
      ensures str == old(str) || fresh(str)
    {
      Grow(|name| + 1);
      ghost var s := str[..len];
      forall i | 0 <= i < |name| {
        str[len + i] := name[i];
      }
      len := len + |name|;
      assert str[..len] == s + name;
      str[len] := '\n';
      len := len + 1;
    }

    method Clear()
      requires len <= str.Length
      modifies this`str, this`len, this`names, str
      ensures Valid() && names == [] && (str == old(str) || fresh(str))
    {
      len := 0;
      Append("");
      names := [];
    }

    method Define(name: string)
      requires Valid() && OneLine(name)
      modifies this`str, this`len, this`names, str
      ensures Valid() && names == old(names) + [name] && (str == old(str) || fresh(str))
    {
      Append(name);
      names := names + [name];
      assert names[..|names| - 1] == old(names);
    }

    method IsDefined(name: string) returns (defined: bool)
      requires Valid() && OneLine(name)
      ensures defined <==> name in names
    {
      ghost var s := Encode(names);
      StandsIffIn(names, name);
      var p := 1;
      while p < len - |name|
        invariant 1 <= p && forall k :: 1 <= k < p ==> !StandsAt(s, k, name)
        decreases len - p
      {
        if str[p - 1] == '\n' && str[p + |name|] == '\n' && str[p..p + |name|] == name {
          assert s[p..p + |name|] == str[..len][p..p + |name|] == str[p..p + |name|];
          assert StandsAt(s, p, name);
          return true;
        }
        assert s[p..p + |name|] == str[..len][p..p + |name|] == str[p..p + |name|];
        p := p + 1;
      }
      return false;
    }

    /** Records a name that was not there yet, and prints its header. */
    method Use(name: string)
      requires Sound() && OneLine(name)
      modifies this, str
      ensures Sound() && names == Recorded(old(names), [name])
      ensures str == old(str) || fresh(str)
    {
      RecordOne(names, name);
      var defined := IsDefined(name);
      if defined {
        return;
      }
      Define(name);
      var line := HeaderOf(name);
      printed := printed + [line];
    }

    static method HeaderOf(name: string) returns (line: string)
      ensures line == Path(name)
    {
      line := [];
      for i := 0 to |name|
        invariant |line| == i && line == Path(name)[..i]
      {
        line := line + [if name[i] == '_' then '/' else ToLower(name[i])];
      }
    }

    /** The scanning loop. */
    method ParseFile(b: string)
      requires Sound()
      modifies this, str
      ensures Sound() && names == After(old(names), b, 0)
      ensures str == old(str) || fresh(str)
    {
      var p := 0;
      while p + 3 <= |b|
        invariant Sound() && (str == old(str) || fresh(str))
        invariant After(names, b, p) == After(old(names), b, 0)
        decreases |b| - p
      {
        AfterStep(names, b, p);
        p := Step(b, p);
        p := p + 1;
      }
    }

    /** The body of the loop, up to its increment. */
    method Step(b: string, p: nat) returns (i: nat)
      requires Sound() && p + 3 <= |b|
      modifies this, str
      ensures Sound() && (str == old(str) || fresh(str))
      ensures i + 1 == Next(b, p) && names == Recorded(old(names), Here(b, p))
    {
      if !IsWord(b[p]) {
        return p;
      }
      var off := MarkerAt(b, p);
      if off == 0 {
        i := SkipWord(b, p, |b| - 2);
      } else {
        i := p + off;
        UseRest(b, i);
      }
    }

    /** What both kinds of marker lead to: the rest of the identifier is used. */
    method UseRest(b: string, i: nat)
      requires Sound() && i <= |b|
      modifies this, str
      ensures Sound() && (str == old(str) || fresh(str))
      ensures names == Recorded(old(names), NonEmpty(b[i..WordEnd(b, i, |b|)]))
    {
      var q := SkipWord(b, i, |b|);
      if q != i {
        WordIsOneLine(b, i, q);
        Use(b[i..q]);
      }
    }

    static method SkipWord(b: string, p: nat, limit: nat) returns (q: nat)
      requires limit <= |b|
      ensures q == WordEnd(b, p, limit)
    {
      q := p;
      while q < limit && IsWord(b[q])
        invariant WordEnd(b, q, limit) == WordEnd(b, p, limit)
        decreases limit - q
      {
        q := q + 1;
      }
    }

    /** One run: every option of every scanned file is recorded, and nothing is printed twice. */
    method ParseFiles(files: seq<File>)
      requires len <= str.Length && printed == []
      modifies this, str
      ensures Sound() && names == Recorded([], ScanFiles(files)) && NoRepeats(names)
      ensures forall f, i: nat, off: nat, j: nat :: f in files && IsScanned(f.name) && Marked(f.content, i, off, j) ==>
        f.content[i + off..j] in names
    {
      Clear();
      for k := 0 to |files|
        invariant Sound() && (str == old(str) || fresh(str))
        invariant names == Recorded([], ScanFiles(files[..k]))
      {
        assert files[..k + 1] == files[..k] + [files[k]];
        ScanFilesAppend(files[..k], files[k]);
        RecordedAppend([], ScanFiles(files[..k]), ScanFile(files[k]));
        AfterIsRecorded(names, files[k].content, 0);
        if IsScanned(files[k].name) {
          ParseFile(files[k].content);
        }
      }
      assert files[..|files|] == files;
      RecordedKeepsSet([], ScanFiles(files));
      forall f, i: nat, off: nat, j: nat | f in files && IsScanned(f.name) && Marked(f.content, i, off, j)
        ensures f.content[i + off..j] in names
      {
        ScanMissesNothing(f.content, 0, i, off, j);
        ScanFilesHas(files, f, f.content[i + off..j]);
      }
    }
  }
}
