/** String helpers with the semantics of the JavaScript built-ins the frontend and the
    metadata extractor use: `split`, `join`, `startsWith`, `trim`, `toLowerCase` (ASCII
    letters only) and the decimal rendering of integers (`toString`, template literals). */
module Strings {

  /** `s.split(sep)` for a non-empty separator: the pieces between the non-overlapping
      occurrences of `sep`, found left to right. */
  function SplitOn(s: string, sep: string): (parts: seq<string>)
    requires |sep| > 0
    ensures |parts| >= 1
    decreases |s|
  {
    if |s| < |sep| then [s]
    else if s[..|sep|] == sep then [""] + SplitOn(s[|sep|..], sep)
    else
      var rest := SplitOn(s[1..], sep);
      [[s[0]] + rest[0]] + rest[1..]
  }

  /** `parts.join(sep)`. */
  function Join(parts: seq<string>, sep: string): string
  {
    if |parts| == 0 then ""
    else if |parts| == 1 then parts[0]
    else parts[0] + sep + Join(parts[1..], sep)
  }

  lemma JoinConsHead(c: char, p: string, rest: seq<string>, sep: string)
    ensures Join([[c] + p] + rest, sep) == [c] + Join([p] + rest, sep)
  {
    if rest != [] {
      assert ([[c] + p] + rest)[1..] == rest;
      assert ([p] + rest)[1..] == rest;
    }
  }

  /** Joining the pieces of a split with the same separator gives back the string. */
  lemma {:induction false} JoinSplitOn(s: string, sep: string)
    requires |sep| > 0
    ensures Join(SplitOn(s, sep), sep) == s
    decreases |s|
  {
    if |s| < |sep| {
    } else if s[..|sep|] == sep {
      var rest := SplitOn(s[|sep|..], sep);
      JoinSplitOn(s[|sep|..], sep);
      JoinEmptyHead(rest, sep);
      assert s == s[..|sep|] + s[|sep|..];
    } else {
      var rest := SplitOn(s[1..], sep);
      JoinSplitOn(s[1..], sep);
      assert rest == [rest[0]] + rest[1..];
      JoinConsHead(s[0], rest[0], rest[1..], sep);
      assert s == [s[0]] + s[1..];
    }
  }

  lemma JoinEmptyHead(rest: seq<string>, sep: string)
    requires rest != []
    ensures Join([""] + rest, sep) == sep + Join(rest, sep)
  {
    assert ([""] + rest)[1..] == rest;
  }

  /** A string free of the separator's first character is a single piece. */
  lemma {:induction false} SplitOnNoSep(p: string, sep: string)
    requires |sep| > 0 && sep[0] !in p
    ensures SplitOn(p, sep) == [p]
    decreases |p|
  {
    if |p| >= |sep| {
      assert p[..|sep|][0] == p[0];
      assert p[1..] == p[1..] && sep[0] !in p[1..];
      SplitOnNoSep(p[1..], sep);
      assert [p[0]] + p[1..] == p;
    }
  }

  /** The first piece ends at the first separator when it holds no separator character. */
  lemma {:induction false} SplitOnCons(p: string, sep: string, t: string)
    requires |sep| > 0 && sep[0] !in p
    ensures SplitOn(p + sep + t, sep) == [p] + SplitOn(t, sep)
    decreases |p|
  {
    var s := p + sep + t;
    if p == [] {
      assert s == sep + t;
      assert s[..|sep|] == sep && s[|sep|..] == t;
    } else {
      assert s[..|sep|][0] == p[0];
      assert s[1..] == p[1..] + sep + t;
      assert sep[0] !in p[1..];
      SplitOnCons(p[1..], sep, t);
      assert [p[0]] + p[1..] == p;
    }
  }

  /** Where the separator does not start at the first character, that character joins the
      first piece of the rest. */
  lemma SplitOnMiss(c: char, t: string, sep: string)
    requires |sep| > 0
    requires |t| + 1 >= |sep| ==> ([c] + t)[..|sep|] != sep
    ensures var rest := SplitOn(t, sep);
      SplitOn([c] + t, sep) == [[c] + rest[0]] + rest[1..]
  {
    var s := [c] + t;
    assert s[1..] == t;
    if |s| < |sep| {
      assert SplitOn(t, sep) == [t];
    }
  }

  /** Splitting a join gives back the parts, provided no part holds the separator's first character. */
  lemma {:induction false} SplitOnJoin(parts: seq<string>, sep: string)
    requires |sep| > 0 && |parts| >= 1
    requires forall i :: 0 <= i < |parts| ==> sep[0] !in parts[i]
    ensures SplitOn(Join(parts, sep), sep) == parts
  {
    if |parts| == 1 {
      SplitOnNoSep(parts[0], sep);
    } else {
      SplitOnJoin(parts[1..], sep);
      SplitOnCons(parts[0], sep, Join(parts[1..], sep));
      assert parts == [parts[0]] + parts[1..];
    }
  }

  /** `s.split(c)` for a single-character separator. */
  function Split(s: string, c: char): (parts: seq<string>)
    ensures |parts| >= 1
  {
    SplitOn(s, [c])
  }

  /** No piece of a single-character split holds the separator. */
  lemma {:induction false} SplitPiecesFree(s: string, c: char)
    ensures forall i :: 0 <= i < |Split(s, c)| ==> c !in Split(s, c)[i]
    decreases |s|
  {
    if |s| >= 1 {
      SplitPiecesFree(s[1..], c);
      var rest := Split(s[1..], c);
      if s[..1] == [c] {
        assert Split(s, c) == [""] + rest;
      } else {
        assert s[0] != c by { assert s[..1] == [s[0]]; }
        assert Split(s, c) == [[s[0]] + rest[0]] + rest[1..];
        assert c !in rest[0];
      }
    }
  }

  /** A string holding the separator splits into at least two pieces. */
  lemma SplitAtLeastTwo(s: string, c: char)
    requires c in s
    ensures |Split(s, c)| >= 2
  {
    var parts := Split(s, c);
    JoinSplitOn(s, [c]);
    SplitPiecesFree(s, c);
  }

  /** The first piece of `s.split(c)` is the longest prefix of `s` free of `c`. */
  lemma {:induction false} SplitFirstPiece(s: string, c: char)
    ensures var p := Split(s, c)[0];
      p <= s && c !in p && (|p| == |s| || s[|p|] == c)
    decreases |s|
  {
    if |s| >= 1 {
      SplitFirstPiece(s[1..], c);
      if s[..1] != [c] {
        assert s[0] != c by { assert s[..1] == [s[0]]; }
      }
    }
  }

  /** The last piece of `s.split(c)` (JavaScript `split(c).pop()`) is a suffix of `s` free of `c`,
      preceded by `c` unless it is all of `s`. */
  lemma LastPiece(s: string, c: char)
    ensures var parts := Split(s, c); var p := parts[|parts| - 1];
      c !in p && |p| <= |s| && p == s[|s| - |p|..] && (|p| == |s| || s[|s| - |p| - 1] == c)
  {
    var parts := Split(s, c);
    var p := parts[|parts| - 1];
    SplitPiecesFree(s, c);
    JoinSplitOn(s, [c]);
    LastOfJoin(parts, [c]);
    if |parts| > 1 {
      assert s[|s| - |p| - 1..|s| - |p|] == [c];
      assert s[|s| - |p| - 1] == c;
    }
  }

  lemma {:induction false} LastOfJoin(parts: seq<string>, sep: string)
    requires |parts| >= 1
    ensures var j := Join(parts, sep); var p := parts[|parts| - 1];
      |p| <= |j| && p == j[|j| - |p|..] && (|parts| == 1 || (|sep| + |p| <= |j| && j[|j| - |p| - |sep|..|j| - |p|] == sep))
  {
    if |parts| > 1 {
      LastOfJoin(parts[1..], sep);
      var j := Join(parts, sep);
      var t := Join(parts[1..], sep);
      assert j == parts[0] + sep + t;
      if |parts| == 2 {
        assert t == parts[1];
      }
    }
  }

  predicate StartsWith(s: string, prefix: string)
  {
    |prefix| <= |s| && s[..|prefix|] == prefix
  }

  /** The characters JavaScript's `trim` removes: white space and line terminators. */
  predicate IsSpace(c: char)
  {
    c == ' ' || c == '\t' || c == '\n' || c == '\r' || c == '\U{000B}' || c == '\U{000C}'
    || c == '\U{00A0}' || c == '\U{1680}' || ('\U{2000}' <= c <= '\U{200A}') || c == '\U{2028}'
    || c == '\U{2029}' || c == '\U{202F}' || c == '\U{205F}' || c == '\U{3000}' || c == '\U{FEFF}'
  }

  function TrimStart(s: string): (r: string)
    ensures |r| <= |s| && r == s[|s| - |r|..]
    ensures r == [] || !IsSpace(r[0])
    ensures forall i :: 0 <= i < |s| - |r| ==> IsSpace(s[i])
  {
    if s != [] && IsSpace(s[0]) then TrimStart(s[1..]) else s
  }

  function TrimEnd(s: string): (r: string)
    ensures |r| <= |s| && r == s[..|r|]
    ensures r == [] || !IsSpace(r[|r| - 1])
    ensures forall i :: |r| <= i < |s| ==> IsSpace(s[i])
  {
    if s != [] && IsSpace(s[|s| - 1]) then TrimEnd(s[..|s| - 1]) else s
  }

  /** `s.trim()`: `s` without its leading and trailing white space. */
  function Trim(s: string): (r: string)
  {
    TrimEnd(TrimStart(s))
  }

  /** Trimming leaves a string without white space alone, and removes one leading space. */
  lemma TrimUnspaced(s: string)
    requires forall i :: 0 <= i < |s| ==> !IsSpace(s[i])
    ensures Trim(s) == s && Trim(" " + s) == s
  {
    if s != [] {
      assert !IsSpace(s[0]) && !IsSpace(s[|s| - 1]);
    }
    assert TrimStart(s) == s;
    assert TrimEnd(s) == s;
    assert IsSpace((" " + s)[0]);
    assert (" " + s)[1..] == s;
    assert TrimStart(" " + s) == TrimStart(s);
  }

  /** Trimming a string without white space, or that string after one space, gives the string. */
  lemma TrimPadded(padded: string, s: string)
    requires forall i :: 0 <= i < |s| ==> !IsSpace(s[i])
    requires padded == s || padded == " " + s
    ensures Trim(padded) == s
  {
    TrimUnspaced(s);
  }

  /** A prefix free of the separator's first character joins the first piece of what follows. */
  lemma {:induction false} SplitOnAbsorb(x: string, t: string, sep: string)
    requires |sep| > 0 && sep[0] !in x
    ensures var rest := SplitOn(t, sep);
      SplitOn(x + t, sep) == [x + rest[0]] + rest[1..]
    decreases |x|
  {
    if x == [] {
      var rest := SplitOn(t, sep);
      assert x + t == t && x + rest[0] == rest[0];
      assert rest == [rest[0]] + rest[1..];
    } else {
      var s := x + t;
      assert s[0] == x[0] != sep[0];
      if |s| >= |sep| {
        assert s[..|sep|][0] == s[0];
      }
      assert s[1..] == x[1..] + t;
      SplitOnAbsorb(x[1..], t, sep);
      var rest := SplitOn(t, sep);
      if |s| < |sep| {
        assert SplitOn(t, sep) == [t];
      } else {
        assert s[..|sep|] != sep;
        var tail := SplitOn(s[1..], sep);
        assert tail == [x[1..] + rest[0]] + rest[1..];
        assert SplitOn(s, sep) == [[s[0]] + tail[0]] + tail[1..];
        assert [s[0]] + (x[1..] + rest[0]) == x + rest[0];
      }
    }
  }

  /** `c.toLowerCase()` for ASCII letters. */
  function LowerChar(c: char): char
  {
    if 'A' <= c <= 'Z' then (c as int + 32) as char else c
  }

  /** `s.toLowerCase()`, modelled for ASCII letters. */
  function Lower(s: string): (r: string)
    ensures |r| == |s| && forall i :: 0 <= i < |s| ==> r[i] == LowerChar(s[i])
  {
    if s == [] then [] else [LowerChar(s[0])] + Lower(s[1..])
  }

  predicate IsDigit(c: char)
  {
    '0' <= c <= '9'
  }

  function DigitChar(d: nat): (c: char)
    requires d < 10
    ensures IsDigit(c) && c as int - '0' as int == d
  {
    (d + '0' as int) as char
  }

  /** The decimal rendering of a natural number, without leading zeros. */
  function NatToString(n: nat): (s: string)
    ensures |s| >= 1 && forall i :: 0 <= i < |s| ==> IsDigit(s[i])
    ensures n >= 10 ==> s[0] != '0'
  {
    if n < 10 then [DigitChar(n)] else NatToString(n / 10) + [DigitChar(n % 10)]
  }

  /** The value of a string of decimal digits. */
  function DigitsValue(s: string): nat
    requires forall i :: 0 <= i < |s| ==> IsDigit(s[i])
  {
    if s == [] then 0
    else
      assert IsDigit(s[|s| - 1]);
      10 * DigitsValue(s[..|s| - 1]) + (s[|s| - 1] as int - '0' as int)
  }

  /** Reading back the decimal rendering gives the number. */
  lemma {:induction false} NatToStringRoundTrip(n: nat)
    ensures DigitsValue(NatToString(n)) == n
  {
    if n >= 10 {
      NatToStringRoundTrip(n / 10);
      var s := NatToString(n);
      assert s[..|s| - 1] == NatToString(n / 10);
    }
  }

  /** The decimal rendering of an integer (JavaScript `String(n)` for a safe integer, C# `ToString()`). */
  function IntToString(n: int): (s: string)
    ensures n >= 0 ==> s == NatToString(n)
    ensures n < 0 ==> s == "-" + NatToString(-n)
  {
    if n < 0 then "-" + NatToString(-n) else NatToString(n)
  }
}
