/** The dependency file that the compiler writes, taken apart by fixdep into file names. */
module DepFile {
  import opened FixDep

  /** Broken: the code would copy a negative number of characters. */
  datatype Deps = NoColon | Broken | Deps(names: seq<string>)

  predicate IsSep(c: char) {
    c == ' ' || c == '\\' || c == '\n' || c == '\r'
  }

  predicate IsAlnum(c: char) {
    IsLetter(c) || '0' <= c <= '9'
  }

  lemma AlnumIff(c: char)
    ensures IsAlnum(c) <==> c in UPPER || c in LOWER || c in DIGITS
  {
    RunIff(UPPER, 'A', c);
    RunIff(LOWER, 'a', c);
    RunIff(DIGITS, '0', c);
  }

  function Skip(s: string, i: nat): (r: nat)
    requires i <= |s|
    ensures i <= r <= |s|
    decreases |s| - i
  {
    if i < |s| && IsSep(s[i]) then Skip(s, i + 1) else i
  }

  function WordEnd(s: string, i: nat): (r: nat)
    requires i <= |s|
    ensures i <= r <= |s|
    decreases |s| - i
  {
    if i < |s| && s[i] != ' ' then WordEnd(s, i + 1) else i
  }

  /** Behind the last letter or digit. */
  function LastAlnum(s: string): (r: nat)
    ensures r <= |s|
  {
    if s == [] || IsAlnum(s[|s| - 1]) then |s| else LastAlnum(s[..|s| - 1])
  }

  /** The end of the word at q: a space, or else behind the last letter or digit of the whole text. */
  function End(s: string, q: nat): nat
    requires q <= |s|
  {
    if WordEnd(s, q) == |s| then LastAlnum(s) else WordEnd(s, q)
  }

  function Prepend(name: string, d: Deps): Deps {
    if d.Deps? then Deps([name] + d.names) else d
  }

  function Words(s: string, m: nat): (d: Deps)
    ensures d != NoColon
    decreases |s| - m
  {
    if m >= |s| then Deps([])
    else
      var q := Skip(s, m);
      if End(s, q) < q then Broken else Prepend(s[q..End(s, q)], Words(s, End(s, q) + 1))
  }

  function Colon(s: string, i: nat): (r: nat)
    requires i <= |s|
    ensures i <= r <= |s|
    decreases |s| - i
  {
    if i < |s| && s[i] != ':' then Colon(s, i + 1) else i
  }

  /** The names behind the first colon. */
  function Split(s: string): Deps {
    if Colon(s, 0) == |s| then NoColon else Words(s, Colon(s, 0) + 1)
  }

  lemma {:induction false} ColonIn(s: string, i: nat)
    requires i <= |s|
    ensures Colon(s, i) == |s| <==> ':' !in s[i..]
    decreases |s| - i
  {
    if i < |s| {
      ColonIn(s, i + 1);
      assert s[i..] == [s[i]] + s[i + 1..];
    }
  }

  /** Without a colon there is nothing to read, and only then. */
  lemma NoColonIff(s: string)
    ensures Split(s) == NoColon <==> ':' !in s
  {
    ColonIn(s, 0);
    assert s[0..] == s;
  }

  /** What is still to come when the words found so far have been put down. */
  function Completed(found: seq<string>, d: Deps): Deps {
    if d.Deps? then Deps(found + d.names) else d
  }

  method FindColon(s: string) returns (p: nat)
    ensures p == Colon(s, 0)
  {
    p := 0;
    while p < |s| && s[p] != ':'
      invariant p <= |s| && Colon(s, p) == Colon(s, 0)
    {
      p := p + 1;
    }
  }

  /** The loops of parse_dep_file. */
  method SplitFile(s: string) returns (d: Deps)
    ensures d == Split(s)
  {
    var p := FindColon(s);
    if p == |s| {
      return NoColon;
    }
    d := SplitWords(s, p + 1);
  }

  method SplitWords(s: string, start: nat) returns (d: Deps)
    ensures d == Words(s, start)
  {
    var m, names := start, [];
    ghost var all, left := Words(s, start), Words(s, start);
    while m < |s|
      invariant left == Words(s, m) && all == Completed(names, left)
      decreases |s| - m
    {
      var q, e := NextWord(s, m);
      WordsStep(s, m, q, e);
      if e < q {
        return Broken;
      }
      left := Words(s, e + 1);
      CompletedStep(names, s[q..e], left);
      names := names + [s[q..e]];
      m := e + 1;
    }
    assert left == Deps([]) && names + [] == names;
    d := Deps(names);
  }

  lemma WordsStep(s: string, m: nat, q: nat, e: nat)
    requires m < |s| && q == Skip(s, m) && e == End(s, q)
    ensures e <= |s|
    ensures Words(s, m) == if e < q then Broken else Prepend(s[q..e], Words(s, e + 1))
  {
  }

  lemma CompletedStep(found: seq<string>, name: string, d: Deps)
    ensures Completed(found, Prepend(name, d)) == Completed(found + [name], d)
  {
    if d.Deps? { assert found + ([name] + d.names) == found + [name] + d.names; }
  }

  method NextWord(s: string, m: nat) returns (q: nat, e: nat)
    requires m < |s|
    ensures q == Skip(s, m) && e == End(s, q)
  {
    q := m;
    while q < |s| && IsSep(s[q])
      invariant m <= q <= |s| && Skip(s, q) == Skip(s, m)
    {
      q := q + 1;
    }
    e := q;
    while e < |s| && s[e] != ' '
      invariant q <= e <= |s| && WordEnd(s, e) == WordEnd(s, q)
    {
      e := e + 1;
    }
    if e == |s| {
      assert s[..e] == s;
      while e > 0 && !IsAlnum(s[e - 1])
        invariant e <= |s| && LastAlnum(s[..e]) == LastAlnum(s)
      {
        assert s[..e][..e - 1] == s[..e - 1];
        e := e - 1;
      }
      assert e > 0 ==> s[..e][e - 1] == s[e - 1];
    }
  }

  // ----- what the compiler writes reads back -----

  predicate SepsIn(s: string, i: nat, r: nat)
    requires r <= |s|
  {
    forall k :: i <= k < r ==> IsSep(s[k])
  }

  predicate NoSpaceIn(s: string, i: nat, r: nat)
    requires r <= |s|
  {
    forall k :: i <= k < r ==> s[k] != ' '
  }

  lemma {:induction false} SkipIs(s: string, i: nat, r: nat)
    requires i <= r <= |s| && SepsIn(s, i, r) && (r < |s| ==> !IsSep(s[r]))
    ensures Skip(s, i) == r
    decreases r - i
  {
    if i < r { SkipIs(s, i + 1, r); }
  }

  lemma {:induction false} WordEndIs(s: string, i: nat, r: nat)
    requires i <= r <= |s| && NoSpaceIn(s, i, r) && (r < |s| ==> s[r] == ' ')
    ensures WordEnd(s, i) == r
    decreases r - i
  {
    if i < r { WordEndIs(s, i + 1, r); }
  }

  lemma {:induction false} LastAlnumIs(s: string, r: nat)
    requires 0 < r <= |s| && IsAlnum(s[r - 1]) && SepsIn(s, r, |s|)
    ensures LastAlnum(s) == r
    decreases |s|
  {
    if r < |s| {
      assert IsSep(s[|s| - 1]);
      LastAlnumIs(s[..|s| - 1], r);
    }
  }

  lemma {:induction false} ColonIs(s: string, i: nat, r: nat)
    requires i <= r < |s| && s[r] == ':' && forall k :: i <= k < r ==> s[k] != ':'
    ensures Colon(s, i) == r
    decreases r - i
  {
    if i < r { ColonIs(s, i + 1, r); }
  }

  /** A name with the separators before it, apart from the space behind the name before. */
  datatype Item = Item(gap: string, name: string)

  /** Spaces end names, and separators do not start them. */
  predicate ItemOk(it: Item) {
    SepsIn(it.gap, 0, |it.gap|) && it.name != [] && !IsSep(it.name[0]) && NoSpaceIn(it.name, 0, |it.name|)
  }

  predicate EndsAlnum(s: string) {
    s != [] && IsAlnum(s[|s| - 1])
  }

  /** What stands behind the colon: names with a space between, and separators at the end. */
  datatype List = Last(it: Item, tail: string) | More(it: Item, rest: List)

  function Names(l: List): seq<string> {
    match l
    case Last(it, _) => [it.name]
    case More(it, rest) => [it.name] + Names(rest)
  }

  function Tail(l: List): string {
    match l
    case Last(_, tail) => tail
    case More(_, rest) => Tail(rest)
  }

  /** The last name ends in a letter or digit. */
  predicate ListOk(l: List) {
    match l
    case Last(it, tail) => ItemOk(it) && EndsAlnum(it.name) && SepsIn(tail, 0, |tail|)
    case More(it, rest) => ItemOk(it) && ListOk(rest)
  }

  function Written(l: List): string {
    match l
    case Last(it, tail) => it.gap + (it.name + tail)
    case More(it, rest) => it.gap + (it.name + (" " + Written(rest)))
  }

  predicate ItemAt(s: string, m: nat, it: Item) {
    && m + |it.gap| + |it.name| <= |s|
    && s[m..m + |it.gap|] == it.gap && s[m + |it.gap|..m + |it.gap| + |it.name|] == it.name
  }

  lemma Pieces(s: string, pre: string, gap: string, name: string, rest: string)
    requires |pre| <= |s| && s[..|pre|] == pre && s[|pre|..] == gap + (name + rest)
    ensures var q, e := |pre| + |gap|, |pre| + |gap| + |name|;
      e <= |s| && s[|pre|..q] == gap && s[q..e] == name && s[e..] == rest && s == s[..e] + rest
  {
  }

  lemma SpaceNext(s: string, e: nat, more: string)
    requires e <= |s| && s == s[..e] + (" " + more)
    ensures e < |s| && s[e] == ' ' && s[e + 1..] == more
  {
  }

  lemma ItemParts(s: string, m: nat, it: Item)
    requires ItemAt(s, m, it) && ItemOk(it)
    ensures m < |s| && Skip(s, m) == m + |it.gap|
    ensures NoSpaceIn(s, m + |it.gap|, m + |it.gap| + |it.name|)
    ensures EndsAlnum(it.name) ==> IsAlnum(s[m + |it.gap| + |it.name| - 1])
  {
    var q, e := m + |it.gap|, m + |it.gap| + |it.name|;
    forall k | m <= k < q
      ensures IsSep(s[k])
    {
      assert s[k] == s[m..q][k - m];
    }
    forall k | q <= k < e
      ensures s[k] == it.name[k - q]
    {
      assert s[k] == s[q..e][k - q];
    }
    SkipIs(s, m, q);
  }

  lemma NameBeforeSpace(s: string, m: nat, it: Item)
    requires ItemAt(s, m, it) && ItemOk(it)
    requires var e := m + |it.gap| + |it.name|; e < |s| && s[e] == ' '
    ensures Words(s, m) == Prepend(it.name, Words(s, m + |it.gap| + |it.name| + 1))
  {
    ItemParts(s, m, it);
    WordEndIs(s, m + |it.gap|, m + |it.gap| + |it.name|);
    WordsStep(s, m, m + |it.gap|, m + |it.gap| + |it.name|);
  }

  /** The last name is found as it is if and only if at most one separator follows it. */
  lemma LastName(s: string, m: nat, it: Item)
    requires ItemAt(s, m, it) && ItemOk(it) && EndsAlnum(it.name) && SepsIn(s, m + |it.gap| + |it.name|, |s|)
    ensures Words(s, m) == Deps([it.name]) <==> |s| <= m + |it.gap| + |it.name| + 1
  {
    ItemParts(s, m, it);
    var q, e := m + |it.gap|, m + |it.gap| + |it.name|;
    LastAlnumIs(s, e);
    if (e < |s| && s[e] == ' ') || NoSpaceIn(s, e, |s|) {
      LastNameEnd(s, q, e);
      WordsStep(s, m, q, e);
      LastEnd(s, e);
      NoMore(it.name, Words(s, e + 1));
    } else {
      LastNameLonger(s, m, it);
    }
  }

  lemma NoMore(name: string, d: Deps)
    ensures Prepend(name, d) == Deps([name]) <==> d == Deps([])
  {
    SameNames(name, d, []);
    assert [name] + [] == [name];
  }

  lemma LastNameLonger(s: string, m: nat, it: Item)
    requires ItemAt(s, m, it) && ItemOk(it)
    requires var e := m + |it.gap| + |it.name|; !NoSpaceIn(s, e, |s|) && s[e] != ' '
    ensures Words(s, m) != Deps([it.name]) && |s| > m + |it.gap| + |it.name| + 1
  {
    ItemParts(s, m, it);
    var q, e := m + |it.gap|, m + |it.gap| + |it.name|;
    var k := FirstSpace(s, e);
    SpaceBehind(s, q, e, k);
    WordsStep(s, m, q, k);
    LongerName(s, q, e, k, it.name, Words(s, k + 1));
  }

  lemma SpaceBehind(s: string, q: nat, e: nat, k: nat)
    requires q <= e <= k < |s| && s[k] == ' ' && NoSpaceIn(s, q, e) && NoSpaceIn(s, e, k)
    ensures End(s, q) == k
  {
    WordEndIs(s, q, k);
  }

  lemma LastNameEnd(s: string, q: nat, e: nat)
    requires q < e <= |s| && NoSpaceIn(s, q, e) && LastAlnum(s) == e
    requires (e < |s| && s[e] == ' ') || NoSpaceIn(s, e, |s|)
    ensures End(s, q) == e
  {
    if e < |s| && s[e] == ' ' {
      WordEndIs(s, q, e);
    } else {
      WordEndIs(s, q, |s|);
    }
  }

  /** A space further back takes what is before it into the name. */
  lemma LongerName(s: string, q: nat, e: nat, k: nat, name: string, d: Deps)
    requires q < e < k <= |s| && |name| == e - q
    ensures Prepend(s[q..k], d) != Deps([name])
  {
    if d.Deps? { assert ([s[q..k]] + d.names)[0] == s[q..k]; }
  }

  lemma {:induction false} FirstSpace(s: string, i: nat) returns (k: nat)
    requires i <= |s| && !NoSpaceIn(s, i, |s|)
    ensures i <= k < |s| && s[k] == ' ' && NoSpaceIn(s, i, k)
    decreases |s| - i
  {
    if s[i] == ' ' {
      k := i;
    } else {
      k := FirstSpace(s, i + 1);
    }
  }

  /** Behind the last name: nothing more, or separators in which no name is found. */
  lemma LastEnd(s: string, e: nat)
    requires e <= |s| && SepsIn(s, e, |s|) && LastAlnum(s) == e
    ensures Words(s, e + 1) == if |s| <= e + 1 then Deps([]) else Broken
  {
    if |s| > e + 1 {
      SkipIs(s, e + 1, |s|);
      WordEndIs(s, |s|, |s|);
      WordsStep(s, e + 1, |s|, e);
    }
  }

  lemma SameNames(name: string, d: Deps, names: seq<string>)
    ensures Prepend(name, d) == Deps([name] + names) <==> d == Deps(names)
  {
    if d.Deps? && [name] + d.names == [name] + names {
      assert d.names == ([name] + d.names)[1..] == ([name] + names)[1..] == names;
    }
  }

  lemma NextPlace(s: string, m: nat, it: Item, more: string)
    requires m <= |s| && s[m..] == it.gap + (it.name + (" " + more))
    ensures ItemAt(s, m, it) && var e := m + |it.gap| + |it.name|; e < |s| && s[e] == ' ' && s[e + 1..] == more
  {
    Pieces(s, s[..m], it.gap, it.name, " " + more);
    SpaceNext(s, m + |it.gap| + |it.name|, more);
  }

  lemma LastPlace(s: string, m: nat, it: Item, tail: string)
    requires SepsIn(tail, 0, |tail|) && m <= |s| && s[m..] == it.gap + (it.name + tail)
    ensures ItemAt(s, m, it)
    ensures var e := m + |it.gap| + |it.name|; SepsIn(s, e, |s|) && |s| == e + |tail|
  {
    Pieces(s, s[..m], it.gap, it.name, tail);
    var e := m + |it.gap| + |it.name|;
    forall k | e <= k < |s|
      ensures IsSep(s[k])
    {
      assert s[k] == s[e..][k - e];
    }
    assert |s[e..]| == |s| - e;
  }

  /** From m on, s is the list. */
  predicate Spells(s: string, m: nat, l: List)
    decreases l
  {
    var e := m + |l.it.gap| + |l.it.name|;
    && ItemAt(s, m, l.it) && ItemOk(l.it)
    && match l
       case Last(it, tail) => EndsAlnum(it.name) && SepsIn(s, e, |s|) && |s| == e + |tail|
       case More(_, rest) => e < |s| && s[e] == ' ' && Spells(s, e + 1, rest)
  }

  lemma {:induction false} WrittenSpells(s: string, m: nat, l: List)
    requires ListOk(l) && m <= |s| && s[m..] == Written(l)
    ensures Spells(s, m, l)
    decreases l
  {
    match l
    case Last(it, tail) => LastPlace(s, m, it, tail);
    case More(it, rest) =>
      NextPlace(s, m, it, Written(rest));
      WrittenSpells(s, m + |it.gap| + |it.name| + 1, rest);
  }

  lemma NextWords(s: string, m: nat, it: Item, names: seq<string>)
    requires ItemAt(s, m, it) && ItemOk(it)
    requires var e := m + |it.gap| + |it.name|; e < |s| && s[e] == ' '
    ensures Words(s, m) == Deps([it.name] + names) <==> Words(s, m + |it.gap| + |it.name| + 1) == Deps(names)
  {
    NameBeforeSpace(s, m, it);
    SameNames(it.name, Words(s, m + |it.gap| + |it.name| + 1), names);
  }

  lemma {:induction false} WordsOf(s: string, m: nat, l: List)
    requires Spells(s, m, l)
    ensures Words(s, m) == Deps(Names(l)) <==> |Tail(l)| <= 1
    decreases l
  {
    match l
    case Last(it, tail) => LastName(s, m, it);
    case More(it, rest) =>
      NextWords(s, m, it, Names(rest));
      WordsOf(s, m + |it.gap| + |it.name| + 1, rest);
  }

  /** A file that names a target and what it depends on reads back as those names if and only if at most one
      separator, the newline, stands at its end. */
  lemma SplitReadsBack(target: string, l: List)
    requires ':' !in target && ListOk(l)
    ensures Split(target + ":" + Written(l)) == Deps(Names(l)) <==> |Tail(l)| <= 1
  {
    var pre := target + ":";
    var s := pre + Written(l);
    ColonIs(s, 0, |target|);
    assert s[|pre|..] == Written(l);
    WrittenSpells(s, |pre|, l);
    WordsOf(s, |pre|, l);
  }

  // ----- one run of fixdep -----

  /** The files by name; a file that is to be scanned and is not there ends the program. */
  type Contents = map<string, string>

  predicate AllThere(fs: Contents, names: seq<string>) {
    forall n :: n in names && IsScanned(n) ==> n in fs
  }

  function Files(fs: Contents, names: seq<string>): (r: seq<File>)
    ensures |r| == |names|
    ensures forall i :: 0 <= i < |r| ==> r[i] == File(names[i], if names[i] in fs then fs[names[i]] else "")
  {
    seq(|names|, i requires 0 <= i < |names| => File(names[i], if names[i] in fs then fs[names[i]] else ""))
  }

  /** Every option in every scanned file that the dependency file names is recorded once. */
  method ParseDepFile(config: Config, text: string, fs: Contents) returns (ok: bool)
    requires config.len <= config.str.Length && config.printed == []
    modifies config, config.str
    ensures ok <==> Split(text).Deps? && AllThere(fs, Split(text).names)
    ensures ok ==> config.Sound() && NoRepeats(config.names)
    ensures ok ==> config.names == Recorded([], ScanFiles(Files(fs, Split(text).names)))
    ensures ok ==> forall n, i: nat, off: nat, j: nat :: n in Split(text).names && IsScanned(n) && Marked(fs[n], i, off, j) ==>
      fs[n][i + off..j] in config.names
  {
    var d := SplitFile(text);
    ok := d.Deps? && forall n :: n in d.names && IsScanned(n) ==> n in fs;
    if ok {
      config.ParseFiles(Files(fs, d.names));
      forall n, i: nat, off: nat, j: nat | n in d.names && IsScanned(n) && Marked(fs[n], i, off, j)
        ensures fs[n][i + off..j] in config.names
      {
        var k :| 0 <= k < |d.names| && d.names[k] == n;
        assert Files(fs, d.names)[k] == File(n, fs[n]);
      }
    }
  }
}
