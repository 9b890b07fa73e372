/** The string helpers the two config editors rely on, as total functions on character sequences. */
module Text {

  /** White space as the source language's Unicode tables define it. */
  predicate IsSpace(c: char) {
    || c == ' ' || '\t' <= c <= '\r' || c == '\U{0085}' || c == '\U{00A0}' || c == '\U{1680}'
    || '\U{2000}' <= c <= '\U{200A}' || c == '\U{2028}' || c == '\U{2029}' || c == '\U{202F}'
    || c == '\U{205F}' || c == '\U{3000}'
  }

  predicate Blank(s: string) { forall k :: 0 <= k < |s| ==> IsSpace(s[k]) }

  function TrimLeft(s: string): string {
    if s != [] && IsSpace(s[0]) then TrimLeft(s[1..]) else s
  }

  function TrimRight(s: string): string {
    if s != [] && IsSpace(s[|s| - 1]) then TrimRight(s[..|s| - 1]) else s
  }

  function Trim(s: string): string { TrimLeft(TrimRight(s)) }

  /** Drops every trailing occurrence of `c`. */
  function TrimRightChar(s: string, c: char): string {
    if s != [] && s[|s| - 1] == c then TrimRightChar(s[..|s| - 1], c) else s
  }

  /** Index of the first `c`, or -1. */
  function IndexOf(s: string, c: char): int
    ensures -1 <= IndexOf(s, c) < |s|
    ensures IndexOf(s, c) >= 0 ==> s[IndexOf(s, c)] == c && c !in s[..IndexOf(s, c)]
    ensures IndexOf(s, c) < 0 ==> c !in s
  {
    if s == [] then -1
    else if s[0] == c then 0
    else
      var r := IndexOf(s[1..], c);
      assert r >= 0 ==> s[..r + 1] == [s[0]] + s[1..][..r];
      if r < 0 then -1 else r + 1
  }

  predicate HasSuffix(s: string, t: string) { |s| >= |t| && s[|s| - |t|..] == t }

  /** A string is its trimmed left part after some blanks. */
  lemma {:induction false} TrimLeftShape(s: string)
    ensures |TrimLeft(s)| <= |s| && TrimLeft(s) == s[|s| - |TrimLeft(s)|..]
    ensures Blank(s[..|s| - |TrimLeft(s)|])
    ensures TrimLeft(s) != [] ==> !IsSpace(TrimLeft(s)[0])
  {
    if s != [] && IsSpace(s[0]) {
      TrimLeftShape(s[1..]);
      var n := |s| - |TrimLeft(s)|;
      assert s[..n] == [s[0]] + s[1..][..n - 1];
    }
  }

  lemma {:induction false} TrimRightShape(s: string)
    ensures |TrimRight(s)| <= |s| && TrimRight(s) == s[..|TrimRight(s)|]
    ensures Blank(s[|TrimRight(s)|..])
    ensures TrimRight(s) != [] ==> !IsSpace(TrimRight(s)[|TrimRight(s)| - 1])
  {
    if s != [] && IsSpace(s[|s| - 1]) {
      var u := s[..|s| - 1];
      TrimRightShape(u);
      var n := |TrimRight(s)|;
      assert s[n..] == u[n..] + [s[|s| - 1]];
    }
  }

  lemma {:induction false} TrimLeftBlank(b: string, s: string)
    requires Blank(b)
    ensures TrimLeft(b + s) == TrimLeft(s)
  {
    if b == [] {
      assert b + s == s;
    } else {
      assert (b + s)[1..] == b[1..] + s;
      TrimLeftBlank(b[1..], s);
    }
  }

  lemma {:induction false} TrimRightBlank(s: string, b: string)
    requires Blank(b)
    ensures TrimRight(s + b) == TrimRight(s)
  {
    if b == [] {
      assert s + b == s;
    } else {
      var n := |b| - 1;
      assert (s + b)[..|s + b| - 1] == s + b[..n];
      TrimRightBlank(s, b[..n]);
    }
  }

  /** Appending to a string that ends in a non-blank only affects what follows. */
  lemma {:induction false} TrimRightAppend(s: string, t: string)
    requires !Blank(t)
    ensures TrimRight(s + t) == s + TrimRight(t)
  {
    var n := |t| - 1;
    if IsSpace(t[n]) {
      assert (s + t)[..|s + t| - 1] == s + t[..n];
      assert !Blank(t[..n]) by {
        var k :| 0 <= k < |t| && !IsSpace(t[k]);
        assert t[..n][k] == t[k];
      }
      TrimRightAppend(s, t[..n]);
    }
  }

  lemma {:induction false} TrimLeftAppend(s: string, t: string)
    requires !Blank(s)
    ensures TrimLeft(s + t) == TrimLeft(s) + t
  {
    if IsSpace(s[0]) {
      assert (s + t)[1..] == s[1..] + t;
      assert !Blank(s[1..]) by {
        var k :| 0 <= k < |s| && !IsSpace(s[k]);
        assert s[1..][k - 1] == s[k];
      }
      TrimLeftAppend(s[1..], t);
    }
  }

  /** Blanks around a string do not change its trimmed form. */
  lemma {:induction false} TrimPadded(b: string, s: string, c: string)
    requires Blank(b) && Blank(c)
    ensures Trim(b + s + c) == Trim(s)
  {
    TrimRightBlank(b + s, c);
    if Blank(s) {
      assert Blank(b + s);
      TrimRightBlank([], b + s);
      TrimRightBlank([], s);
      assert [] + (b + s) == b + s && [] + s == s;
    } else {
      TrimRightAppend(b, s);
      TrimLeftBlank(b, TrimRight(s));
    }
  }

  /** Trimming twice is trimming once. */
  lemma {:induction false} TrimTrimLeft(s: string)
    ensures Trim(TrimLeft(s)) == Trim(s)
  {
    TrimLeftShape(s);
    var l := TrimLeft(s);
    var pre := s[..|s| - |l|];
    TrimPadded(pre, l, []);
    assert s == pre + l + [];
  }

  lemma {:induction false} TrimTrimRight(s: string)
    ensures Trim(TrimRight(s)) == Trim(s)
  {
    TrimRightShape(s);
    var r := TrimRight(s);
    TrimPadded([], r, s[|r|..]);
    assert s == [] + r + s[|r|..];
  }

  /** Trailing carriage returns vanish under trimming. */
  lemma {:induction false} TrimRightCharTrim(s: string)
    ensures Trim(TrimRightChar(s, '\r')) == Trim(s)
  {
    if s != [] && s[|s| - 1] == '\r' {
      TrimRightCharTrim(s[..|s| - 1]);
      TrimPadded([], s[..|s| - 1], [s[|s| - 1]]);
      assert [] + s[..|s| - 1] + [s[|s| - 1]] == s;
    }
  }

  lemma {:induction false} BlankTrim(s: string)
    ensures Trim(s) == [] <==> Blank(s)
  {
    if Blank(s) {
      TrimRightBlank([], s);
      assert [] + s == s;
    }
    TrimRightShape(s);
    TrimLeftShape(TrimRight(s));
    var r := TrimRight(s);
    assert Trim(s) == [] ==> r[..|r|] == r;
    assert s == r + s[|r|..];
  }

  /** The trimmed string with what was around it. */
  lemma Trimmed(s: string) returns (a: string, b: string)
    ensures Blank(a) && Blank(b) && s == a + Trim(s) + b
    ensures Trim(s) != "" ==> !IsSpace(Trim(s)[0]) && !IsSpace(Trim(s)[|Trim(s)| - 1])
  {
    hide TrimLeft, TrimRight, Blank, IsSpace;
    b := RightSplit(s);
    a := LeftSplit(TrimRight(s));
    LastStays(a, Trim(s));
  }

  lemma RightSplit(s: string) returns (b: string)
    ensures s == TrimRight(s) + b && Blank(b) && (TrimRight(s) != "" ==> !IsSpace(TrimRight(s)[|TrimRight(s)| - 1]))
  {
    hide TrimRight, Blank, IsSpace;
    TrimRightShape(s);
    b := s[|TrimRight(s)|..];
  }

  lemma LeftSplit(s: string) returns (a: string)
    ensures s == a + TrimLeft(s) && Blank(a) && (TrimLeft(s) != "" ==> !IsSpace(TrimLeft(s)[0]))
  {
    hide TrimLeft, Blank, IsSpace;
    TrimLeftShape(s);
    a := s[..|s| - |TrimLeft(s)|];
  }

  lemma LastStays(a: string, t: string)
    ensures t != "" ==> (a + t)[|a + t| - 1] == t[|t| - 1]
  {
  }
}
