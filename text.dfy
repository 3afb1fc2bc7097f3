/**
 * The string primitives the extension relies on: `String.prototype.trim`,
 * `startsWith`, `toLowerCase` (ASCII letters only) and the line splitting
 * `stdout.split('\n').filter(Boolean)` applied to every command output.
 */
module Text {

  /** The characters `String.prototype.trim` strips: ECMAScript WhiteSpace and LineTerminator. */
  const Spaces: set<char> := {
    ' ', '\t', '\n', '\r', '\U{B}', '\U{C}', '\U{A0}', '\U{1680}',
    '\U{2000}', '\U{2001}', '\U{2002}', '\U{2003}', '\U{2004}', '\U{2005}',
    '\U{2006}', '\U{2007}', '\U{2008}', '\U{2009}', '\U{200A}',
    '\U{2028}', '\U{2029}', '\U{202F}', '\U{205F}', '\U{3000}', '\U{FEFF}'
  }

  predicate IsSpace(c: char) {
    c in Spaces
  }

  predicate AllSpace(s: string) {
    forall i :: 0 <= i < |s| ==> IsSpace(s[i])
  }

  /** True when neither end of `s` is white space. */
  predicate Trimmed(s: string) {
    s == [] || (!IsSpace(s[0]) && !IsSpace(s[|s| - 1]))
  }

  /** `s` without its leading white space. */
  function TrimStart(s: string): string {
    if s == [] || !IsSpace(s[0]) then s else TrimStart(s[1..])
  }

  /** `s` without its trailing white space. */
  function TrimEnd(s: string): string {
    if s == [] || !IsSpace(s[|s| - 1]) then s else TrimEnd(s[..|s| - 1])
  }

  /** `TrimStart` cuts a white-space prefix and stops at the first other character. */
  lemma {:induction false} TrimStartShape(s: string)
    ensures var r := TrimStart(s);
      && |r| <= |s| && r == s[|s| - |r|..]
      && AllSpace(s[..|s| - |r|])
      && (r == [] || !IsSpace(r[0]))
  {
    if s != [] && IsSpace(s[0]) {
      TrimStartShape(s[1..]);
      var r := TrimStart(s[1..]);
      assert s[1..][..|s| - 1 - |r|] == s[1..|s| - |r|];
    }
  }

  /** `TrimEnd` cuts a white-space suffix and stops at the last other character. */
  lemma {:induction false} TrimEndShape(s: string)
    ensures var r := TrimEnd(s);
      && |r| <= |s| && r == s[..|r|]
      && AllSpace(s[|r|..])
      && (r == [] || !IsSpace(r[|r| - 1]))
  {
    if s != [] && IsSpace(s[|s| - 1]) {
      var pre := s[..|s| - 1];
      TrimEndShape(pre);
      var r := TrimEnd(pre);
      assert pre[|r|..] == s[|r|..|s| - 1];
      assert pre[..|r|] == s[..|r|];
      assert s[|r|..] == pre[|r|..] + [s[|s| - 1]];
    }
  }

  /** `s.trim()`. */
  function Trim(s: string): string {
    TrimEnd(TrimStart(s))
  }

  /**
   * What `trim` leaves of `s` is the infix that remains once the white
   * space before `Lead(s)` and after `Lead(s) + |Trim(s)|` is cut, and it
   * has no white space at either end.
   */
  lemma TrimShape(s: string)
    ensures var r := Trim(s);
      && Lead(s) + |r| <= |s|
      && Trimmed(r)
      && r == s[Lead(s)..Lead(s) + |r|]
      && AllSpace(s[..Lead(s)]) && AllSpace(s[Lead(s) + |r|..])
  {
    var t := TrimStart(s);
    TrimStartShape(s);
    TrimEndShape(t);
    var r := TrimEnd(t);
    var lead := |s| - |t|;
    assert t == s[lead..];
    assert s[lead + |r|..] == t[|r|..];
  }

  /** The number of white-space characters `trim` removes from the front of `s`. */
  function Lead(s: string): nat {
    TrimStartShape(s);
    |s| - |TrimStart(s)|
  }

  lemma TrimEmptyIffAllSpace(s: string)
    ensures Trim(s) == [] <==> AllSpace(s)
  {
    TrimShape(s);
  }

  /** Trimming a string already free of surrounding white space changes nothing. */
  lemma {:induction false} TrimOfTrimmed(s: string)
    requires Trimmed(s)
    ensures Trim(s) == s
  {
    assert TrimStart(s) == s;
  }

  lemma TrimIdempotent(s: string)
    ensures Trim(Trim(s)) == Trim(s)
  {
    TrimShape(s);
    TrimOfTrimmed(Trim(s));
  }

  predicate StartsWith(s: string, prefix: string) {
    |prefix| <= |s| && s[..|prefix|] == prefix
  }

  /** `s` ends with `suffix`. */
  predicate EndsWith(s: string, suffix: string) {
    |suffix| <= |s| && s[|s| - |suffix|..] == suffix
  }

  /** `'A'`..`'Z'` lowered; every other character kept. */
  function LowerChar(c: char): (d: char)
    ensures !('A' <= d <= 'Z')
    ensures !('A' <= c <= 'Z') ==> d == c
    ensures 'A' <= c <= 'Z' ==> 'a' <= d <= 'z'
  {
    if 'A' <= c <= 'Z' then (c as int - 'A' as int + 'a' as int) as char else c
  }

  predicate NoUpper(s: string) {
    forall i :: 0 <= i < |s| ==> !('A' <= s[i] <= 'Z')
  }

  function ToLower(s: string): (r: string)
    ensures |r| == |s| && NoUpper(r)
    ensures forall i :: 0 <= i < |s| ==> r[i] == LowerChar(s[i])
  {
    seq(|s|, i requires 0 <= i < |s| => LowerChar(s[i]))
  }

  // ---------------------------------------------------------------------
  // Lines
  // ---------------------------------------------------------------------

  /** `s.split('\n')`: the pieces between newlines, always at least one. */
  function Split(s: string): (parts: seq<string>)
    ensures |parts| >= 1
    ensures forall i :: 0 <= i < |parts| ==> '\n' !in parts[i]
  {
    if s == [] then [""]
    else
      var rest := Split(s[1..]);
      if s[0] == '\n' then [""] + rest else [[s[0]] + rest[0]] + rest[1..]
  }

  /** `parts.join('\n')`. */
  function JoinLines(parts: seq<string>): string
    requires |parts| >= 1
  {
    if |parts| == 1 then parts[0] else parts[0] + "\n" + JoinLines(parts[1..])
  }

  lemma {:induction false} JoinSplit(s: string)
    ensures JoinLines(Split(s)) == s
  {
    if s != [] {
      var rest := Split(s[1..]);
      JoinSplit(s[1..]);
      if s[0] != '\n' {
        assert s == [s[0]] + s[1..];
        if |rest| == 1 {
        } else {
          assert rest == [rest[0]] + rest[1..];
          assert JoinLines(rest) == rest[0] + "\n" + JoinLines(rest[1..]);
        }
      }
    }
  }

  lemma {:induction false} SplitNoNewline(p: string)
    requires '\n' !in p
    ensures Split(p) == [p]
  {
    if p != [] {
      assert '\n' !in p[1..];
      SplitNoNewline(p[1..]);
      assert [p[0]] + p[1..] == p;
    }
  }

  lemma {:induction false} SplitAfterPiece(p: string, rest: string)
    requires '\n' !in p
    ensures Split(p + "\n" + rest) == [p] + Split(rest)
  {
    if p == [] {
      assert p + "\n" + rest == "\n" + rest;
    } else {
      var whole := p + "\n" + rest;
      assert '\n' !in p[1..];
      SplitAfterPiece(p[1..], rest);
      assert whole[0] == p[0] && whole[1..] == p[1..] + "\n" + rest;
      assert [p[0]] + p[1..] == p;
    }
  }

  /** Splitting undoes joining pieces that hold no newline. */
  lemma {:induction false} SplitJoin(parts: seq<string>)
    requires |parts| >= 1
    requires forall i :: 0 <= i < |parts| ==> '\n' !in parts[i]
    ensures Split(JoinLines(parts)) == parts
  {
    if |parts| == 1 {
      SplitNoNewline(parts[0]);
    } else {
      SplitJoin(parts[1..]);
      SplitAfterPiece(parts[0], JoinLines(parts[1..]));
    }
  }

  /** `.filter(Boolean)` on strings: keeps the non-empty ones, in order. */
  function NonEmpty(parts: seq<string>): (r: seq<string>)
    ensures |r| <= |parts|
    ensures forall i :: 0 <= i < |r| ==> r[i] != []
    ensures forall x :: x in r <==> x in parts && x != []
  {
    if parts == [] then []
    else if parts[0] == [] then NonEmpty(parts[1..])
    else [parts[0]] + NonEmpty(parts[1..])
  }

  /** The filter keeps every copy of a non-empty piece. */
  lemma {:induction false} NonEmptyCount(parts: seq<string>, x: string)
    requires x != []
    ensures multiset(NonEmpty(parts))[x] == multiset(parts)[x]
  {
    if parts != [] {
      NonEmptyCount(parts[1..], x);
      assert parts == [parts[0]] + parts[1..];
    }
  }

  /** The filter keeps the order: it distributes over concatenation. */
  lemma {:induction false} NonEmptyAppend(a: seq<string>, b: seq<string>)
    ensures NonEmpty(a + b) == NonEmpty(a) + NonEmpty(b)
  {
    if a == [] {
      assert a + b == b;
    } else {
      assert (a + b)[0] == a[0] && (a + b)[1..] == a[1..] + b;
      NonEmptyAppend(a[1..], b);
    }
  }

  /** The newline that glues two outputs separates their pieces. */
  lemma {:induction false} SplitAppend(s: string, t: string)
    ensures Split(s + "\n" + t) == Split(s) + Split(t)
  {
    if s == [] {
      assert s + "\n" + t == "\n" + t;
      assert ("\n" + t)[1..] == t;
    } else {
      var w := s + "\n" + t;
      assert w[0] == s[0] && w[1..] == s[1..] + "\n" + t;
      SplitAppend(s[1..], t);
    }
  }

  /**
   * `s.split('\n').filter(Boolean)`: the non-empty pieces between
   * newlines, each as often as it occurs; an output without a newline is
   * one line, or none when it is empty.
   */
  function Lines(s: string): (lines: seq<string>)
    ensures forall i :: 0 <= i < |lines| ==> lines[i] != [] && '\n' !in lines[i]
    ensures forall x :: x in lines <==> x in Split(s) && x != []
    ensures forall x :: x != [] ==> multiset(lines)[x] == multiset(Split(s))[x]
    ensures '\n' !in s ==> lines == if s == [] then [] else [s]
  {
    var parts := Split(s);
    var lines := NonEmpty(parts);
    assert forall i :: 0 <= i < |lines| ==> lines[i] in parts;
    assert forall x :: x != [] ==> multiset(lines)[x] == multiset(parts)[x] by {
      forall x | x != [] ensures multiset(lines)[x] == multiset(parts)[x] {
        NonEmptyCount(parts, x);
      }
    }
    if '\n' in s then lines
    else
      SplitNoNewline(s);
      lines
  }

  /** The lines of two outputs glued by a newline are the first's lines followed by the second's. */
  lemma LinesAppend(s: string, t: string)
    ensures Lines(s + "\n" + t) == Lines(s) + Lines(t)
  {
    SplitAppend(s, t);
    NonEmptyAppend(Split(s), Split(t));
  }
}
