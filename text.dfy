/**
 * The Python string primitives the core relies on: `str.isspace` (and the
 * `\s` class, which matches the same characters), `str.lower` on ASCII
 * capitals, `str.strip`, `str.startswith`, the `in` substring test,
 * `str.join`, `str.splitlines`, `re.sub(r"\s+", " ", s)` and
 * `s.replace("\r\n", "\n")`.
 */
module Text {

  /** Python's `str.isspace`, which is also what `\s` matches in a `str`
      pattern: tab, line feed, vertical tab, form feed, carriage return, the
      four information separators, space, next line, no-break space, the
      Ogham space mark, the en quad to hair space block, the line and
      paragraph separators, the narrow no-break space, the medium
      mathematical space and the ideographic space. */
  predicate IsSpace(c: char) {
    var n := c as int;
    || 9 <= n <= 13 || 28 <= n <= 32 || n == 0x85 || n == 0xA0 || n == 0x1680
    || 0x2000 <= n <= 0x200A || n == 0x2028 || n == 0x2029 || n == 0x202F
    || n == 0x205F || n == 0x3000
  }

  predicate IsUpper(c: char) {
    'A' <= c <= 'Z'
  }

  /** `str.lower` on one character, for the ASCII capitals. */
  function LowerChar(c: char): (r: char)
    ensures !IsUpper(r)
    ensures IsUpper(c) ==> 'a' <= r <= 'z' && r as int == c as int + 32
    ensures !IsUpper(c) ==> r == c
    ensures IsSpace(r) <==> IsSpace(c)
  {
    if IsUpper(c) then (c as int + 32) as char else c
  }

  function Lower(s: string): (r: string)
    ensures |r| == |s|
    ensures forall i :: 0 <= i < |s| ==> r[i] == LowerChar(s[i])
  {
    seq(|s|, i requires 0 <= i < |s| => LowerChar(s[i]))
  }

  lemma LowerOfLowercase(s: string)
    requires forall i :: 0 <= i < |s| ==> !IsUpper(s[i])
    ensures Lower(s) == s
  {
  }

  /** `lstrip` of the characters `drop` selects: what is left of `s` once
      its leading run of such characters is removed. */
  function TrimStart(s: string, drop: char -> bool): (r: string)
    ensures |r| <= |s|
    ensures r == [] || !drop(r[0])
  {
    if s != [] && drop(s[0]) then TrimStart(s[1..], drop) else s
  }

  /** `TrimStart` keeps a suffix of `s` and removes only characters `drop` selects. */
  lemma {:induction false} TrimStartSpec(s: string, drop: char -> bool)
    ensures TrimStart(s, drop) == s[|s| - |TrimStart(s, drop)|..]
    ensures forall i :: 0 <= i < |s| - |TrimStart(s, drop)| ==> drop(s[i])
    decreases |s|
  {
    if s != [] && drop(s[0]) {
      TrimStartSpec(s[1..], drop);
    }
  }

  /** `rstrip` of the characters `drop` selects: what is left of `s` once
      its trailing run of such characters is removed. */
  function TrimEnd(s: string, drop: char -> bool): (r: string)
    ensures |r| <= |s|
    ensures r == [] || !drop(r[|r| - 1])
  {
    if s != [] && drop(s[|s| - 1]) then TrimEnd(s[..|s| - 1], drop) else s
  }

  /** `TrimEnd` keeps a prefix of `s` and removes only characters `drop` selects. */
  lemma {:induction false} TrimEndSpec(s: string, drop: char -> bool)
    ensures TrimEnd(s, drop) == s[..|TrimEnd(s, drop)|]
    ensures forall i :: |TrimEnd(s, drop)| <= i < |s| ==> drop(s[i])
    decreases |s|
  {
    if s != [] && drop(s[|s| - 1]) {
      TrimEndSpec(s[..|s| - 1], drop);
    }
  }

  /** `str.strip()`: `s` without its leading and trailing whitespace. */
  function Strip(s: string): (r: string)
    ensures |r| <= |s|
  {
    TrimEnd(TrimStart(s, IsSpace), IsSpace)
  }

  /** `strip` leaves no whitespace at either end. */
  lemma StripEnds(s: string)
    ensures Strip(s) == [] || (!IsSpace(Strip(s)[0]) && !IsSpace(Strip(s)[|Strip(s)| - 1]))
  {
    TrimEndSpec(TrimStart(s, IsSpace), IsSpace);
  }

  /** What `Strip` leaves is a contiguous slice of `s`. */
  lemma StripSlice(s: string)
    ensures exists i :: OccursAt(s, Strip(s), i)
  {
    var t := TrimStart(s, IsSpace);
    TrimStartSpec(s, IsSpace);
    TrimEndSpec(t, IsSpace);
    assert OccursAt(s, Strip(s), |s| - |t|);
  }

  /** Stripping a string that has no whitespace at either end changes nothing. */
  lemma StripUnchanged(s: string)
    requires s == [] || (!IsSpace(s[0]) && !IsSpace(s[|s| - 1]))
    ensures Strip(s) == s
  {
  }

  lemma SeqAssoc<T>(x: seq<T>, y: seq<T>, z: seq<T>)
    ensures x + (y + z) == (x + y) + z
  {
  }

  /** `re.sub(r"\s+", " ", s)`: every maximal run of whitespace becomes one space. */
  function Collapse(s: string): (r: string)
    ensures s == [] <==> r == []
    decreases |s|
  {
    if s == [] then []
    else if IsSpace(s[0]) then [' '] + Collapse(TrimStart(s, IsSpace))
    else [s[0]] + Collapse(s[1..])
  }

  /** The characters of `s` that are not whitespace, in order. */
  function NonSpace(s: string): string
    decreases |s|
  {
    if s == [] then [] else (if IsSpace(s[0]) then [] else [s[0]]) + NonSpace(s[1..])
  }

  /** The collapsed string keeps the non-space characters of `s` in their
      order and adds none, its only whitespace is single spaces, and it starts
      like `s`. */
  lemma CollapseSpec(s: string)
    ensures forall i :: 0 <= i < |Collapse(s)| ==>
              Collapse(s)[i] == ' ' || (Collapse(s)[i] in s && !IsSpace(Collapse(s)[i]))
    ensures forall i :: 0 <= i < |Collapse(s)| - 1 ==> !(Collapse(s)[i] == ' ' && Collapse(s)[i + 1] == ' ')
    ensures s != [] ==> Collapse(s)[0] == (if IsSpace(s[0]) then ' ' else s[0])
    ensures NonSpace(Collapse(s)) == NonSpace(s)
  {
    CollapseShape(s);
    CollapseNonSpace(s);
  }

  /** Every collapsed character is a space or a non-space character of `s`,
      no two spaces are adjacent, and the first character is kept or becomes
      a space. */
  lemma {:induction false} CollapseShape(s: string)
    ensures forall i :: 0 <= i < |Collapse(s)| ==>
              Collapse(s)[i] == ' ' || (Collapse(s)[i] in s && !IsSpace(Collapse(s)[i]))
    ensures forall i :: 0 <= i < |Collapse(s)| - 1 ==> !(Collapse(s)[i] == ' ' && Collapse(s)[i + 1] == ' ')
    ensures s != [] ==> Collapse(s)[0] == (if IsSpace(s[0]) then ' ' else s[0])
    decreases |s|
  {
    if s != [] {
      var t := if IsSpace(s[0]) then TrimStart(s, IsSpace) else s[1..];
      CollapseShape(t);
      TrimStartSpec(s, IsSpace);
      var c := Collapse(t);
      assert Collapse(s) == [if IsSpace(s[0]) then ' ' else s[0]] + c;
      assert forall x :: x in t ==> x in s;
    }
  }

  /** Collapsing keeps the non-space characters, in order, and adds none. */
  lemma {:induction false} CollapseNonSpace(s: string)
    ensures NonSpace(Collapse(s)) == NonSpace(s)
    decreases |s|
  {
    if s != [] {
      var t := if IsSpace(s[0]) then TrimStart(s, IsSpace) else s[1..];
      CollapseNonSpace(t);
      var x := if IsSpace(s[0]) then ' ' else s[0];
      var c := Collapse(t);
      assert Collapse(s) == [x] + c;
      assert ([x] + c)[1..] == c;
      assert NonSpace([x] + c) == (if IsSpace(x) then [] else [x]) + NonSpace(c);
      if IsSpace(s[0]) {
        TrimStartSpec(s, IsSpace);
        NonSpaceDropSpaces(s, |s| - |t|);
      }
    }
  }

  /** Dropping a leading run of whitespace keeps the non-space characters. */
  lemma {:induction false} NonSpaceDropSpaces(s: string, n: nat)
    requires n <= |s|
    requires forall i :: 0 <= i < n ==> IsSpace(s[i])
    ensures NonSpace(s[n..]) == NonSpace(s)
    decreases n
  {
    if n > 0 {
      assert s[1..][n - 1..] == s[n..];
      NonSpaceDropSpaces(s[1..], n - 1);
    }
  }

  /** `lstrip` of whitespace passes through to the rest of the text only
      when `a` is all whitespace: a non-space last character stops it. */
  lemma {:induction false} TrimStartAppend(a: string, x: string)
    requires a != [] && !IsSpace(a[|a| - 1])
    ensures TrimStart(a + x, IsSpace) == TrimStart(a, IsSpace) + x
    decreases |a|
  {
    if IsSpace(a[0]) {
      assert (a + x)[1..] == a[1..] + x;
      TrimStartAppend(a[1..], x);
    }
  }

  /** Collapsing works piece by piece across a cut that follows a non-space
      character. */
  lemma {:induction false} CollapseAppend(a: string, x: string)
    requires a == [] || !IsSpace(a[|a| - 1])
    ensures Collapse(a + x) == Collapse(a) + Collapse(x)
    decreases |a|
  {
    if a == [] {
      assert a + x == x;
    } else if !IsSpace(a[0]) {
      assert (a + x)[0] == a[0] && (a + x)[1..] == a[1..] + x;
      CollapseAppend(a[1..], x);
      SeqAssoc([a[0]], Collapse(a[1..]), Collapse(x));
    } else {
      TrimStartAppend(a, x);
      var t := TrimStart(a, IsSpace);
      TrimStartSpec(a, IsSpace);
      assert t[|t| - 1] == a[|a| - 1];
      CollapseAppend(t, x);
      assert (a + x)[0] == a[0];
      SeqAssoc([' '], Collapse(t), Collapse(x));
    }
  }

  /** Each maximal run of whitespace, however long and whatever its
      characters, becomes exactly one space, and the text on either side is
      collapsed on its own. */
  lemma {:induction false} CollapseRun(a: string, w: string, b: string)
    requires a == [] || !IsSpace(a[|a| - 1])
    requires w != [] && forall i :: 0 <= i < |w| ==> IsSpace(w[i])
    requires b == [] || !IsSpace(b[0])
    ensures Collapse(a + w + b) == Collapse(a) + " " + Collapse(b)
  {
    assert a + w + b == a + (w + b);
    CollapseAppend(a, w + b);
    CollapseLeadingRun(w, b);
  }

  /** A leading run of whitespace becomes one space. */
  lemma {:induction false} CollapseLeadingRun(w: string, b: string)
    requires w != [] && forall i :: 0 <= i < |w| ==> IsSpace(w[i])
    requires b == [] || !IsSpace(b[0])
    ensures Collapse(w + b) == " " + Collapse(b)
  {
    TrimStartRun(w, b);
    assert (w + b)[0] == w[0];
  }

  /** `lstrip` of whitespace removes a whole leading run and stops at `b`. */
  lemma {:induction false} TrimStartRun(w: string, b: string)
    requires forall i :: 0 <= i < |w| ==> IsSpace(w[i])
    requires b == [] || !IsSpace(b[0])
    ensures TrimStart(w + b, IsSpace) == b
    decreases |w|
  {
    if w == [] {
      assert w + b == b;
    } else {
      assert (w + b)[1..] == w[1..] + b;
      TrimStartRun(w[1..], b);
    }
  }

  /** A string in which whitespace occurs only as single spaces. */
  predicate Collapsed(s: string) {
    && (forall i :: 0 <= i < |s| ==> IsSpace(s[i]) ==> s[i] == ' ')
    && (forall i :: 0 <= i < |s| - 1 ==> !(s[i] == ' ' && s[i + 1] == ' '))
  }

  /** `re.sub(r"\s+", " ", s)` leaves a collapsed string alone. */
  lemma {:induction false} CollapseUnchanged(s: string)
    requires Collapsed(s)
    ensures Collapse(s) == s
    decreases |s|
  {
    if s != [] {
      if IsSpace(s[0]) {
        assert |s| > 1 ==> !IsSpace(s[1]);
        assert TrimStart(s, IsSpace) == s[1..];
      }
      assert Collapsed(s[1..]);
      CollapseUnchanged(s[1..]);
    }
  }

  /** `pattern` occurs in `s` starting at index `i`. */
  predicate OccursAt(s: string, pattern: string, i: int) {
    0 <= i <= |s| - |pattern| && s[i..i + |pattern|] == pattern
  }

  predicate StartsWith(s: string, prefix: string) {
    |prefix| <= |s| && s[..|prefix|] == prefix
  }

  /** Python's `pattern in s`. */
  predicate Contains(s: string, pattern: string)
    decreases |s|
  {
    StartsWith(s, pattern) || (s != [] && Contains(s[1..], pattern))
  }

  /** `pattern in s` holds exactly when `pattern` occurs at some index of `s`. */
  lemma {:induction false} ContainsIff(s: string, pattern: string)
    ensures Contains(s, pattern) <==> exists i :: OccursAt(s, pattern, i)
    decreases |s|
  {
    if s != [] {
      ContainsIff(s[1..], pattern);
      if StartsWith(s, pattern) {
        assert OccursAt(s, pattern, 0);
      }
      if Contains(s[1..], pattern) {
        var i :| OccursAt(s[1..], pattern, i);
        assert s[i + 1..i + 1 + |pattern|] == s[1..][i..i + |pattern|];
        assert OccursAt(s, pattern, i + 1);
      }
      if exists i :: OccursAt(s, pattern, i) {
        var i :| OccursAt(s, pattern, i);
        if i > 0 {
          assert s[1..][i - 1..i - 1 + |pattern|] == s[i..i + |pattern|];
          assert OccursAt(s[1..], pattern, i - 1);
        } else {
          assert StartsWith(s, pattern);
        }
      }
    } else {
      if exists i :: OccursAt(s, pattern, i) {
        assert pattern == [];
        assert StartsWith(s, pattern);
      }
      if Contains(s, pattern) {
        assert OccursAt(s, pattern, 0);
      }
    }
  }

  /** No string contains a pattern longer than itself. */
  lemma {:induction false} NotContainsLonger(s: string, pattern: string)
    requires |s| < |pattern|
    ensures !Contains(s, pattern)
    decreases |s|
  {
    if s != [] {
      NotContainsLonger(s[1..], pattern);
    }
  }

  /** No string contains a pattern whose first character it lacks. */
  lemma {:induction false} NotContainsFirstChar(s: string, pattern: string)
    requires pattern != [] && pattern[0] !in s
    ensures !Contains(s, pattern)
    decreases |s|
  {
    if s != [] {
      assert s[0] != pattern[0];
      NotContainsFirstChar(s[1..], pattern);
    }
  }

  /** A string that contains an occurrence of `pattern` contains it in any extension. */
  lemma ContainsInExtension(s: string, t: string, u: string, pattern: string)
    requires Contains(s, pattern)
    ensures Contains(t + s + u, pattern)
  {
    ContainsIff(s, pattern);
    var i :| OccursAt(s, pattern, i);
    assert (t + s + u)[|t| + i..|t| + i + |pattern|] == s[i..i + |pattern|];
    assert OccursAt(t + s + u, pattern, |t| + i);
    ContainsIff(t + s + u, pattern);
  }

  /** `sep.join(parts)`. */
  function Join(parts: seq<string>, sep: string): (r: string)
    decreases |parts|
  {
    if |parts| == 0 then ""
    else if |parts| == 1 then parts[0]
    else parts[0] + sep + Join(parts[1..], sep)
  }

  /** The line boundaries of `str.splitlines`: line feed, carriage return,
      vertical tab, form feed, the file, group and record separators, next
      line, and the line and paragraph separators. */
  predicate IsLineBreak(c: char) {
    var n := c as int;
    (10 <= n <= 13) || (28 <= n <= 30) || n == 0x85 || n == 0x2028 || n == 0x2029
  }

  /** Where the first line of `s` ends: the index of its first line break, or `|s|`. */
  function LineEnd(s: string): (e: nat)
    ensures e <= |s|
    ensures forall i :: 0 <= i < e ==> !IsLineBreak(s[i])
    ensures e < |s| ==> IsLineBreak(s[e])
    decreases |s|
  {
    if s == [] || IsLineBreak(s[0]) then 0 else 1 + LineEnd(s[1..])
  }

  /** The length of the line boundary that starts `s`: "\r\n" counts as one. */
  function BreakLength(s: string): (n: nat)
    requires s != []
    ensures 1 <= n <= |s|
    ensures n == 2 <==> |s| >= 2 && s[0] == '\r' && s[1] == '\n'
  {
    if |s| >= 2 && s[0] == '\r' && s[1] == '\n' then 2 else 1
  }

  /** `s.splitlines()`: the text between line boundaries, with no lines for
      the empty string and no empty last line after a final boundary. */
  function SplitLines(s: string): (r: seq<string>)
    ensures s == [] <==> r == []
    ensures forall k, i :: 0 <= k < |r| && 0 <= i < |r[k]| ==> !IsLineBreak(r[k][i])
    decreases |s|
  {
    if s == [] then []
    else
      var e := LineEnd(s);
      if e == |s| then [s]
      else [s[..e]] + SplitLines(s[e + BreakLength(s[e..])..])
  }

  /** Every line followed by a line feed: the text `SplitLines` takes apart. */
  function Unlines(lines: seq<string>): string
    decreases |lines|
  {
    if lines == [] then "" else lines[0] + "\n" + Unlines(lines[1..])
  }

  /** Lines free of line breaks, each terminated by a line feed, split back
      into the same lines. */
  lemma {:induction false} SplitLinesUnlines(lines: seq<string>)
    requires forall k, i :: 0 <= k < |lines| && 0 <= i < |lines[k]| ==> !IsLineBreak(lines[k][i])
    ensures SplitLines(Unlines(lines)) == lines
    decreases |lines|
  {
    if lines != [] {
      var x := lines[0];
      var rest := Unlines(lines[1..]);
      var s := Unlines(lines);
      assert s == x + "\n" + rest;
      LineEndAfter(x, '\n', rest);
      assert s[|x|..] == "\n" + rest;
      assert s[|x| + 1..] == rest;
      SplitLinesUnlines(lines[1..]);
      assert s[..|x|] == x;
    }
  }

  /** The first line of `x + [b] + y` is `x` when `x` has no line break and `b` is one. */
  lemma {:induction false} LineEndAfter(x: string, b: char, y: string)
    requires forall i :: 0 <= i < |x| ==> !IsLineBreak(x[i])
    requires IsLineBreak(b)
    ensures LineEnd(x + [b] + y) == |x|
    decreases |x|
  {
    if x != [] {
      assert (x + [b] + y)[1..] == x[1..] + [b] + y;
      LineEndAfter(x[1..], b, y);
    }
  }

  /** `s.replace("\r\n", "\n")`, scanning left to right: every character kept
      comes from `s`, and text without a carriage return is left alone. */
  function ReplaceCrLf(s: string): (r: string)
    ensures |r| <= |s|
    ensures s != [] ==> r != []
    ensures forall c :: c in r ==> c in s
    ensures '\r' !in s ==> r == s
    decreases |s|
  {
    if |s| >= 2 && s[0] == '\r' && s[1] == '\n' then "\n" + ReplaceCrLf(s[2..])
    else if s == [] then []
    else [s[0]] + ReplaceCrLf(s[1..])
  }
}
