/** The configuration file: how values are written as lines, and how the lines are read back. */
module ConfText {
  import opened Tristates
  import opened Exprs
  import opened Ranges

  const NUL: char := 0 as char

  // ----- escaping in conf_write -----

  predicate IsSpecial(c: char) {
    c == '"' || c == '\\'
  }

  function Escape(s: string): string {
    if s == [] then []
    else if IsSpecial(s[0]) then ['\\', s[0]] + Escape(s[1..])
    else [s[0]] + Escape(s[1..])
  }

  lemma {:induction false} EscapeAppend(a: string, b: string)
    ensures Escape(a + b) == Escape(a) + Escape(b)
  {
    if a == [] {
      assert a + b == b;
    } else {
      assert (a + b)[1..] == a[1..] + b;
      EscapeAppend(a[1..], b);
    }
  }

  lemma {:induction false} EscapePlain(s: string)
    requires forall i :: 0 <= i < |s| ==> !IsSpecial(s[i])
    ensures Escape(s) == s
  {
    if s != [] { EscapePlain(s[1..]); }
  }

  /** The writing loop: a plain stretch at once, then the special characters one by one. */
  method WriteEscaped(s: string) returns (out: string)
    ensures out == Escape(s)
  {
    out := [];
    var i := 0;
    while true
      invariant 0 <= i <= |s| && out == Escape(s[..i])
      invariant i > 0 ==> i == |s| || !IsSpecial(s[i])
      decreases |s| - i, i == 0
    {
      var l := 0;
      while i + l < |s| && !IsSpecial(s[i + l])
        invariant i + l <= |s| && forall k :: i <= k < i + l ==> !IsSpecial(s[k])
      {
        l := l + 1;
      }
      EscapePlain(s[i..i + l]);
      EscapeAppend(s[..i], s[i..i + l]);
      assert s[..i] + s[i..i + l] == s[..i + l];
      out := out + s[i..i + l];
      ghost var i0 := i;
      i := i + l;
      while i < |s| && IsSpecial(s[i])
        invariant i0 + l <= i <= |s| && out == Escape(s[..i])
      {
        EscapeAppend(s[..i], [s[i]]);
        assert s[..i] + [s[i]] == s[..i + 1];
        assert Escape([s[i]]) == ['\\', s[i]] by { assert [s[i]][1..] == []; }
        out := out + ['\\', s[i]];
        i := i + 1;
      }
      if i == |s| {
        break;
      }
    }
    assert s[..i] == s;
  }

  // ----- unescaping in conf_read_simple -----

  function Prepend(pre: string, o: Option<string>): Option<string> {
    if o.None? then None else Some(pre + o.value)
  }

  /** The text up to the closing quote, with escapes taken out; nothing if there is no closing quote. */
  function Unescape(r: string): Option<string> {
    if r == [] then None
    else if r[0] == '"' then Some([])
    else if r[0] == '\\' then
      if |r| == 1 then None else Prepend([r[1]], Unescape(r[2..]))
    else Prepend([r[0]], Unescape(r[1..]))
  }

  /** Unescaping undoes escaping, whatever follows the closing quote. */
  lemma {:induction false} UnescapeEscape(s: string, tail: string)
    ensures Unescape(Escape(s) + ['"'] + tail) == Some(s)
  {
    var r := Escape(s) + ['"'] + tail;
    if s != [] {
      UnescapeEscape(s[1..], tail);
      if IsSpecial(s[0]) {
        assert r[2..] == Escape(s[1..]) + ['"'] + tail;
      } else {
        assert r[1..] == Escape(s[1..]) + ['"'] + tail;
      }
      assert [s[0]] + s[1..] == s;
    }
  }

  /** The string that starts at position i of a buffer. */
  function CStr(b: seq<char>, i: nat): string
    decreases |b| - i
  {
    if i >= |b| || b[i] == NUL then [] else [b[i]] + CStr(b, i + 1)
  }

  predicate Terminated(b: seq<char>, i: nat) {
    i + |CStr(b, i)| < |b|
  }

  lemma {:induction false} CStrSlice(b: seq<char>, i: nat)
    requires i <= |b|
    ensures i + |CStr(b, i)| <= |b| && b[i..i + |CStr(b, i)|] == CStr(b, i)
    ensures NUL !in CStr(b, i)
    ensures Terminated(b, i) ==> b[i + |CStr(b, i)|] == NUL
    decreases |b| - i
  {
    if i < |b| && b[i] != NUL { CStrSlice(b, i + 1); }
  }

  /** What a string in a buffer is, from its characters. */
  lemma {:induction false} CStrIs(b: seq<char>, i: nat, s: string)
    requires i + |s| < |b| && b[i + |s|] == NUL
    requires b[i..i + |s|] == s && NUL !in s
    ensures CStr(b, i) == s
    decreases |s|
  {
    if s != [] {
      assert b[i] == b[i..i + |s|][0] == s[0];
      assert b[i + 1..i + |s|] == b[i..i + |s|][1..] == s[1..];
      CStrIs(b, i + 1, s[1..]);
    }
  }

  /** memmove(p, p + 1, strlen(p)): takes one character out of the string at p. The end that the string had
      stays where it was, behind the new one. */
  method DropChar(a: array<char>, p: nat)
    requires p < a.Length && Terminated(a[..], p) && CStr(a[..], p) != []
    modifies a
    ensures a[..p] == old(a[..p])
    ensures CStr(a[..], p) == old(CStr(a[..], p))[1..] && Terminated(a[..], p)
    ensures a[p + old(|CStr(a[..], p)|)] == NUL
  {
    ghost var b := a[..];
    ghost var s := CStr(b, p);
    CStrSlice(b, p);
    forall k | p <= k < p + |s|
      ensures b[k] != NUL
    {
      assert b[k] == b[p..p + |s|][k - p];
    }
    var end := p;
    while a[end] != NUL
      invariant p <= end <= p + |s|
      decreases p + |s| - end
    {
      end := end + 1;
    }
    forall k | p <= k < end {
      a[k] := a[k + 1];
    }
    assert a[..p] == b[..p];
    assert a[p..end - 1] == b[p + 1..end] == s[1..];
    CStrIs(a[..], p, s[1..]);
  }

  lemma PrependPrepend(a: string, b: string, o: Option<string>)
    ensures Prepend(a, Prepend(b, o)) == Prepend(a + b, o)
  {
    if o.Some? { assert a + (b + o.value) == (a + b) + o.value; }
  }

  /** The loop over the quoted text at p, in place: escapes are closed up, the closing quote becomes the end.
      After a lone backslash at the end it stands on the old end, so that it finds nothing more. */
  method UnescapeInPlace(a: array<char>, p: nat) returns (ok: bool)
    requires p < a.Length && Terminated(a[..], p)
    modifies a
    ensures ok == old(Unescape(CStr(a[..], p))).Some?
    ensures ok ==> Terminated(a[..], p) && CStr(a[..], p) == old(Unescape(CStr(a[..], p))).value
  {
    ghost var s := CStr(a[..], p);
    var p2 := p;
    if Unescape(s).Some? {
      assert a[p..p2] + Unescape(s).value == Unescape(s).value;
    }
    while true
      invariant p <= p2 < a.Length && Terminated(a[..], p2)
      invariant Unescape(s).Some? ==> NUL !in a[p..p2]
      invariant Unescape(s) == Prepend(a[p..p2], Unescape(CStr(a[..], p2)))
      decreases |CStr(a[..], p2)|
    {
      ghost var b, r := a[..], CStr(a[..], p2);
      CStrSlice(b, p2);
      if a[p2] == NUL {
        return false;
      } else if a[p2] == '"' {
        a[p2] := NUL;
        assert a[p..p2] == b[p..p2];
        CStrIs(a[..], p, a[p..p2]);
        return true;
      } else if a[p2] == '\\' {
        DropChar(a, p2);
        assert a[p..p2] == a[..p2][p..] == b[..p2][p..] == b[p..p2];
        assert CStr(a[..], p2) == r[1..];
        CStrSlice(a[..], p2);
        if |r| == 1 {
          assert CStr(a[..], p2 + 1) == [];
        } else {
          assert CStr(a[..], p2 + 1) == r[1..][1..] == r[2..];
        }
      } else {
        assert CStr(a[..], p2 + 1) == r[1..];
      }
      PrependPrepend(b[p..p2], [a[p2]], Unescape(CStr(a[..], p2 + 1)));
      assert a[p..p2 + 1] == b[p..p2] + [a[p2]];
      p2 := p2 + 1;
    }
  }
}
