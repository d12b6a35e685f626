/** White space as `str::trim` removes it. */
module Text {

  /** The characters with the Unicode property White_Space. */
  predicate IsWhitespace(c: char) {
    var n := c as int;
    9 <= n <= 13 || n == 32 || n == 0x85 || n == 0xA0 || n == 0x1680 || 0x2000 <= n <= 0x200A ||
    n == 0x2028 || n == 0x2029 || n == 0x202F || n == 0x205F || n == 0x3000
  }

  function TrimStart(s: string): string {
    if s != "" && IsWhitespace(s[0]) then TrimStart(s[1..]) else s
  }

  function TrimEnd(s: string): string {
    if s != "" && IsWhitespace(s[|s| - 1]) then TrimEnd(s[..|s| - 1]) else s
  }

  function Trim(s: string): string { TrimEnd(TrimStart(s)) }

  ghost predicate Blank(s: string) { forall i :: 0 <= i < |s| ==> IsWhitespace(s[i]) }

  /** Not blank at either end. */
  ghost predicate Tight(s: string) { s != "" ==> !IsWhitespace(s[0]) && !IsWhitespace(s[|s| - 1]) }

  lemma Untrimmed(s: string)
    requires Tight(s)
    ensures Trim(s) == s
  {
  }

  lemma {:induction false} StartTrimmed(a: string, s: string)
    requires Blank(a) && (s != "" ==> !IsWhitespace(s[0]))
    ensures TrimStart(a + s) == s
    decreases |a|
  {
    if a == "" {
      assert a + s == s;
    } else {
      assert (a + s)[1..] == a[1..] + s;
      StartTrimmed(a[1..], s);
    }
  }

  lemma {:induction false} EndTrimmed(s: string, b: string)
    requires Blank(b) && (s != "" ==> !IsWhitespace(s[|s| - 1]))
    ensures TrimEnd(s + b) == s
    decreases |b|
  {
    if b == "" {
      assert s + b == s;
    } else {
      assert (s + b)[..|s + b| - 1] == s + b[..|b| - 1];
      EndTrimmed(s, b[..|b| - 1]);
    }
  }

  /** Exactly the white space around a text goes. */
  lemma {:induction false} TrimOf(a: string, t: string, b: string)
    requires Blank(a) && Tight(t) && Blank(b)
    ensures Trim(a + t + b) == t
  {
    if t == "" {
      assert a + t + b == (a + b) + "" && Blank(a + b);
      StartTrimmed(a + b, "");
    } else {
      assert a + t + b == a + (t + b) && (t + b)[0] == t[0];
      StartTrimmed(a, t + b);
      EndTrimmed(t, b);
    }
  }

  lemma {:induction false} StartSplits(s: string) returns (a: string)
    ensures Blank(a) && s == a + TrimStart(s) && (TrimStart(s) != "" ==> !IsWhitespace(TrimStart(s)[0]))
  {
    a := "";
    if s != "" && IsWhitespace(s[0]) {
      var rest := StartSplits(s[1..]);
      a := [s[0]] + rest;
    }
  }

  lemma {:induction false} EndSplits(s: string) returns (b: string)
    ensures Blank(b) && s == TrimEnd(s) + b && (TrimEnd(s) != "" ==> !IsWhitespace(TrimEnd(s)[|TrimEnd(s)| - 1]))
  {
    b := "";
    if s != "" && IsWhitespace(s[|s| - 1]) {
      var rest := EndSplits(s[..|s| - 1]);
      b := rest + [s[|s| - 1]];
    }
  }

  /** And every text is its trimmed form between white space. */
  lemma {:induction false} TrimSplits(s: string) returns (a: string, b: string)
    ensures Blank(a) && Tight(Trim(s)) && Blank(b) && s == a + Trim(s) + b
  {
    a := StartSplits(s);
    b := EndSplits(TrimStart(s));
    hide TrimStart, TrimEnd;
    assert Trim(s) != "" ==> Trim(s)[0] == TrimStart(s)[0];
  }
}
