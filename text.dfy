/**
 * The JavaScript string operations the tag generator relies on, over `string` (= seq<char>):
 * `String.prototype.split` with a one-character separator, `trim`, and `toLowerCase`
 * (restricted to ASCII letters).
 */
module Text {

  /** The characters `String.prototype.trim` removes: ECMAScript WhiteSpace and LineTerminator. */
  predicate IsWhitespace(c: char) {
    c == '\t' || c == '\n' || c == '\U{000B}' || c == '\U{000C}' || c == '\r' || c == ' ' ||
    c == '\U{00A0}' || c == '\U{1680}' || ('\U{2000}' <= c <= '\U{200A}') ||
    c == '\U{2028}' || c == '\U{2029}' || c == '\U{202F}' || c == '\U{205F}' ||
    c == '\U{3000}' || c == '\U{FEFF}'
  }

  predicate IsUpper(c: char) {
    'A' <= c <= 'Z'
  }

  predicate AllWhitespace(s: string) {
    forall i :: 0 <= i < |s| ==> IsWhitespace(s[i])
  }

  predicate NoUpper(s: string) {
    forall i :: 0 <= i < |s| ==> !IsUpper(s[i])
  }

  /** Neither the first nor the last character is whitespace. */
  predicate IsTrimmed(s: string) {
    s == [] || (!IsWhitespace(s[0]) && !IsWhitespace(s[|s| - 1]))
  }

  // ---------------------------------------------------------------- toLowerCase

  function LowerChar(c: char): (d: char)
    ensures !IsUpper(d)
    ensures IsUpper(c) ==> d as int == c as int + 32
    ensures !IsUpper(c) ==> d == c
  {
    if IsUpper(c) then (c as int + 32) as char else c
  }

  /** `s.toLowerCase()` on the ASCII letters: each upper-case letter becomes its lower-case partner. */
  function ToLower(s: string): (r: string)
    ensures |r| == |s|
    ensures forall i :: 0 <= i < |s| ==> r[i] == LowerChar(s[i])
    ensures NoUpper(r)
  {
    if s == [] then [] else [LowerChar(s[0])] + ToLower(s[1..])
  }

  lemma {:induction false} ToLowerOfLower(s: string)
    requires NoUpper(s)
    ensures ToLower(s) == s
  {
    if s != [] {
      ToLowerOfLower(s[1..]);
    }
  }

  lemma ToLowerIdempotent(s: string)
    ensures ToLower(ToLower(s)) == ToLower(s)
  {
    ToLowerOfLower(ToLower(s));
  }

  /** Lower-casing leaves a trimmed string trimmed and adds no new occurrence of a non-letter. */
  lemma ToLowerKeeps(s: string, c: char)
    requires !IsUpper(c) && !('a' <= c <= 'z')
    ensures IsTrimmed(s) ==> IsTrimmed(ToLower(s))
    ensures c !in s ==> c !in ToLower(s)
  {
    var r := ToLower(s);
    forall i | 0 <= i < |s| ensures r[i] == c ==> s[i] == c {
      assert r[i] == LowerChar(s[i]);
    }
  }

  // ---------------------------------------------------------------- trim

  /**
   * `s.trim()`: the whitespace at both ends removed, one character at a time
   * (what is left does not depend on which end goes first).
   */
  function Trim(s: string): (r: string)
    ensures IsTrimmed(r)
  {
    if s == [] then []
    else if IsWhitespace(s[0]) then Trim(s[1..])
    else if IsWhitespace(s[|s| - 1]) then Trim(s[..|s| - 1])
    else s
  }

  /** What trim keeps is an infix of `s`, and what it drops on either side is all whitespace. */
  lemma {:induction false} TrimInfix(s: string)
    ensures exists i, j :: 0 <= i <= j <= |s| && Trim(s) == s[i..j] && AllWhitespace(s[..i]) && AllWhitespace(s[j..])
  {
    if s == [] {
      assert Trim(s) == s[0..0] && AllWhitespace(s[..0]) && AllWhitespace(s[0..]);
    } else if IsWhitespace(s[0]) {
      var t := s[1..];
      TrimInfix(t);
      var i, j :| 0 <= i <= j <= |t| && Trim(t) == t[i..j] && AllWhitespace(t[..i]) && AllWhitespace(t[j..]);
      InfixAfterFront(s, i, j);
    } else if IsWhitespace(s[|s| - 1]) {
      var t := s[..|s| - 1];
      TrimInfix(t);
      var i, j :| 0 <= i <= j <= |t| && Trim(t) == t[i..j] && AllWhitespace(t[..i]) && AllWhitespace(t[j..]);
      InfixBeforeBack(s, i, j);
    } else {
      assert Trim(s) == s[0..|s|] && AllWhitespace(s[..0]) && AllWhitespace(s[|s|..]);
    }
  }

  lemma InfixAfterFront(s: string, i: nat, j: nat)
    requires s != [] && IsWhitespace(s[0]) && i <= j <= |s| - 1
    requires Trim(s[1..]) == s[1..][i..j] && AllWhitespace(s[1..][..i]) && AllWhitespace(s[1..][j..])
    ensures Trim(s) == s[i + 1..j + 1] && AllWhitespace(s[..i + 1]) && AllWhitespace(s[j + 1..])
  {
    assert s[1..][i..j] == s[i + 1..j + 1] && s[1..][j..] == s[j + 1..];
    assert forall k :: 1 <= k < i + 1 ==> s[k] == s[1..][..i][k - 1];
  }

  lemma InfixBeforeBack(s: string, i: nat, j: nat)
    requires s != [] && !IsWhitespace(s[0]) && IsWhitespace(s[|s| - 1]) && i <= j <= |s| - 1
    requires var t := s[..|s| - 1]; Trim(t) == t[i..j] && AllWhitespace(t[..i]) && AllWhitespace(t[j..])
    ensures Trim(s) == s[i..j] && AllWhitespace(s[..i]) && AllWhitespace(s[j..])
  {
    var t := s[..|s| - 1];
    assert t[i..j] == s[i..j] && t[..i] == s[..i];
    assert forall k :: j <= k < |s| - 1 ==> s[k] == t[j..][k - j];
  }

  /** Trim adds no character. */
  lemma TrimMembers(s: string)
    ensures forall c :: c in Trim(s) ==> c in s
  {
    TrimInfix(s);
  }

  lemma {:induction false} TrimAllWhitespace(s: string)
    requires AllWhitespace(s)
    ensures Trim(s) == []
  {
    if s != [] {
      TrimAllWhitespace(s[1..]);
    }
  }

  /** Trim removes exactly the surrounding whitespace: wrapping a trimmed string in whitespace and trimming gives it back. */
  lemma {:induction false} TrimUnwraps(before: string, core: string, after: string)
    requires AllWhitespace(before) && AllWhitespace(after) && IsTrimmed(core)
    ensures Trim(before + core + after) == core
    decreases |before| + |after|
  {
    var s := before + core + after;
    if before != [] {
      assert s[0] == before[0] && s[1..] == before[1..] + core + after;
      TrimUnwraps(before[1..], core, after);
    } else if core == [] {
      assert s == after;
      TrimAllWhitespace(after);
    } else if after != [] {
      assert s[0] == core[0] && s[|s| - 1] == after[|after| - 1];
      assert s[..|s| - 1] == before + core + after[..|after| - 1];
      TrimUnwraps(before, core, after[..|after| - 1]);
    } else {
      assert s == core;
    }
  }

  lemma TrimOfTrimmed(s: string)
    requires IsTrimmed(s)
    ensures Trim(s) == s
  {
    TrimUnwraps([], s, []);
    assert [] + s + [] == s;
  }

  // ---------------------------------------------------------------- split / join

  /** The number of occurrences of `c` in `s`. */
  function Count(s: string, c: char): nat {
    if s == [] then 0 else (if s[0] == c then 1 else 0) + Count(s[1..], c)
  }

  /**
   * `s.split(sep)` for a one-character separator: the maximal runs between separators,
   * one more piece than there are separators (so `"".split(",")` is `[""]`).
   */
  function Split(s: string, sep: char): (pieces: seq<string>)
    ensures |pieces| == Count(s, sep) + 1
    ensures forall k :: 0 <= k < |pieces| ==> sep !in pieces[k]
  {
    if s == [] then [[]]
    else
      var rest := Split(s[1..], sep);
      if s[0] == sep then [[]] + rest
      else [[s[0]] + rest[0]] + rest[1..]
  }

  /** `pieces.join(sep)`, the inverse of `Split`. */
  function Join(pieces: seq<string>, sep: char): string
    requires |pieces| >= 1
  {
    if |pieces| == 1 then pieces[0] else pieces[0] + [sep] + Join(pieces[1..], sep)
  }

  lemma {:induction false} JoinSplit(s: string, sep: char)
    ensures Join(Split(s, sep), sep) == s
  {
    if s != [] {
      var rest := Split(s[1..], sep);
      JoinSplit(s[1..], sep);
      if s[0] == sep {
        assert Split(s, sep)[1..] == rest;
      } else if |rest| > 1 {
        var pieces := Split(s, sep);
        assert pieces[1..] == rest[1..];
        assert Join(rest, sep) == rest[0] + [sep] + Join(rest[1..], sep);
        assert s == [s[0]] + s[1..];
      }
    }
  }

  /** A piece free of the separator splits off the front of what follows it. */
  lemma {:induction false} SplitFront(a: string, sep: char, b: string)
    requires sep !in a
    ensures Split(a + [sep] + b, sep) == [a] + Split(b, sep)
  {
    var s := a + [sep] + b;
    if a == [] {
      assert s[1..] == b;
    } else {
      assert s[1..] == a[1..] + [sep] + b;
      SplitFront(a[1..], sep, b);
      assert [a[0]] + a[1..] == a;
    }
  }

  lemma {:induction false} SplitWhole(a: string, sep: char)
    requires sep !in a
    ensures Split(a, sep) == [a]
  {
    if a != [] {
      SplitWhole(a[1..], sep);
      assert [a[0]] + a[1..] == a;
    }
  }

  lemma {:induction false} SplitJoin(pieces: seq<string>, sep: char)
    requires |pieces| >= 1
    requires forall k :: 0 <= k < |pieces| ==> sep !in pieces[k]
    ensures Split(Join(pieces, sep), sep) == pieces
  {
    if |pieces| == 1 {
      SplitWhole(pieces[0], sep);
    } else {
      SplitJoin(pieces[1..], sep);
      SplitFront(pieces[0], sep, Join(pieces[1..], sep));
      assert [pieces[0]] + pieces[1..] == pieces;
    }
  }
}
