/** String primitives the cleaner borrows from Python: `str.isspace` and
    `str.strip`, ASCII `str.lower` / `str.upper`, `startswith`, the lines a
    text file yields when iterated, and `"\n".join`. */
module Text {

  /** Python's `str.isspace`, the characters `str.strip()` removes. */
  predicate IsSpace(c: char) {
    || ('\U{9}' <= c <= '\U{D}')
    || ('\U{1C}' <= c <= '\U{20}')
    || c == '\U{85}' || c == '\U{A0}' || c == '\U{1680}'
    || ('\U{2000}' <= c <= '\U{200A}')
    || c == '\U{2028}' || c == '\U{2029}' || c == '\U{202F}'
    || c == '\U{205F}' || c == '\U{3000}'
  }

  predicate IsUpperAscii(c: char) { 'A' <= c <= 'Z' }
  predicate IsLowerAscii(c: char) { 'a' <= c <= 'z' }

  function LowerChar(c: char): (r: char)
    ensures !IsUpperAscii(r)
    ensures !IsUpperAscii(c) ==> r == c
  {
    if IsUpperAscii(c) then (c as int + 32) as char else c
  }

  function UpperChar(c: char): (r: char)
    ensures !IsLowerAscii(r)
    ensures !IsLowerAscii(c) ==> r == c
  {
    if IsLowerAscii(c) then (c as int - 32) as char else c
  }

  /** Changing case neither creates nor removes a line break. */
  lemma CaseKeepsLineBreaks(c: char)
    ensures IsLineBreak(LowerChar(c)) <==> IsLineBreak(c)
    ensures IsLineBreak(UpperChar(c)) <==> IsLineBreak(c)
  {
  }

  /** `s.lower()`, over ASCII letters. */
  function Lower(s: string): (r: string)
    ensures |r| == |s|
    ensures forall i :: 0 <= i < |s| ==> r[i] == LowerChar(s[i])
  {
    seq(|s|, i requires 0 <= i < |s| => LowerChar(s[i]))
  }

  /** `s.startswith(p)`. */
  predicate StartsWith(s: string, p: string) {
    p <= s
  }

  /** Lower-casing works character by character, so it distributes over `+`. */
  lemma LowerAppend(a: string, b: string)
    ensures Lower(a + b) == Lower(a) + Lower(b)
  {
    assert forall i :: 0 <= i < |a + b| ==> Lower(a + b)[i] == (Lower(a) + Lower(b))[i];
  }

  // ---------------------------------------------------------------------
  // str.strip()

  /** `s.lstrip()`: the longest suffix of `s` that does not start with
      whitespace, obtained by removing only whitespace. */
  function TrimStart(s: string): (r: string)
    ensures |r| <= |s| && r == s[|s| - |r|..]
    ensures forall i :: 0 <= i < |s| - |r| ==> IsSpace(s[i])
    ensures r != [] ==> !IsSpace(r[0])
    decreases |s|
  {
    if s != [] && IsSpace(s[0]) then TrimStart(s[1..]) else s
  }

  /** `s.rstrip()`: the longest prefix of `s` that does not end with
      whitespace, obtained by removing only whitespace. */
  function TrimEnd(s: string): (r: string)
    ensures |r| <= |s| && r == s[..|r|]
    ensures forall i :: |r| <= i < |s| ==> IsSpace(s[i])
    ensures r != [] ==> !IsSpace(r[|r| - 1])
    decreases |s|
  {
    if s != [] && IsSpace(s[|s| - 1]) then TrimEnd(s[..|s| - 1]) else s
  }

  /** `r` is the slice of `s` at offset `i`, and everything in `s` before
      and after that slice is whitespace. */
  predicate SpaceAround(s: string, i: nat, r: string) {
    && i + |r| <= |s| && r == s[i..i + |r|]
    && (forall j :: 0 <= j < i ==> IsSpace(s[j]))
    && (forall j :: i + |r| <= j < |s| ==> IsSpace(s[j]))
  }

  /** `s.strip()`: `s` without its leading and trailing whitespace. The
      result is a slice of `s` with only whitespace around it, and it is
      empty exactly when `s` consists of whitespace only. */
  function Strip(s: string): (r: string)
    ensures |r| <= |s|
    ensures exists i :: SpaceAround(s, i, r)
    ensures r != [] ==> !IsSpace(r[0]) && !IsSpace(r[|r| - 1])
    ensures r == [] <==> forall i :: 0 <= i < |s| ==> IsSpace(s[i])
  {
    var t := TrimStart(s);
    var r := TrimEnd(t);
    TrimBoth(s);
    assert SpaceAround(s, |s| - |t|, r);
    r
  }

  lemma TrimBoth(s: string)
    ensures var r := TrimEnd(TrimStart(s));
      && (r != [] ==> !IsSpace(r[0]) && !IsSpace(r[|r| - 1]))
      && (r == [] <==> forall i :: 0 <= i < |s| ==> IsSpace(s[i]))
      && SpaceAround(s, |s| - |TrimStart(s)|, r)
  {
    TrimBothEnds(s);
    TrimBothAround(s);
  }

  lemma TrimBothEnds(s: string)
    ensures var r := TrimEnd(TrimStart(s));
      && (r != [] ==> !IsSpace(r[0]) && !IsSpace(r[|r| - 1]))
      && (r == [] <==> forall i :: 0 <= i < |s| ==> IsSpace(s[i]))
  {
    var t := TrimStart(s);
    var r := TrimEnd(t);
    var n := |s| - |t|;
    if r == [] {
      assert t == [];
    } else {
      assert r[0] == t[0] == s[n];
    }
  }

  lemma TrimBothAround(s: string)
    ensures SpaceAround(s, |s| - |TrimStart(s)|, TrimEnd(TrimStart(s)))
  {
    var t := TrimStart(s);
    TrimStartAround(s);
    TrimEndAround(t);
    SpaceAroundCompose(s, |s| - |t|, t, 0, TrimEnd(t));
  }

  lemma TrimStartAround(s: string)
    ensures SpaceAround(s, |s| - |TrimStart(s)|, TrimStart(s))
  {
  }

  lemma TrimEndAround(t: string)
    ensures SpaceAround(t, 0, TrimEnd(t))
  {
    var r := TrimEnd(t);
    assert r == t[0..0 + |r|];
  }

  /** A slice of a slice, each with only whitespace around it, is a slice
      with only whitespace around it. */
  lemma SpaceAroundCompose(s: string, n: nat, t: string, m: nat, r: string)
    requires SpaceAround(s, n, t) && SpaceAround(t, m, r)
    ensures SpaceAround(s, n + m, r)
  {
    assert forall k :: 0 <= k < |r| ==> r[k] == t[m + k] == s[n + m + k];
    assert r == s[n + m..n + m + |r|];
    forall j | 0 <= j < n + m ensures IsSpace(s[j]) {
      if j >= n {
        assert s[j] == t[j - n];
      }
    }
    forall j | n + m + |r| <= j < |s| ensures IsSpace(s[j]) {
      if j < n + |t| {
        assert s[j] == t[j - n];
      }
    }
  }

  /** A slice of a text without line breaks has no line break. */
  lemma SliceNoLineBreak(s: string, i: nat, r: string)
    requires SpaceAround(s, i, r) && NoLineBreak(s)
    ensures NoLineBreak(r)
  {
    assert forall k :: 0 <= k < |r| ==> r[k] == s[i + k];
  }

  /** Stripping twice is stripping once. */
  lemma StripIdempotent(s: string)
    ensures Strip(Strip(s)) == Strip(s)
  {
    var r := Strip(s);
    assert TrimStart(r) == r;
    assert TrimEnd(r) == r;
  }

  /** Stripping removes characters only at the two ends, so it adds no line
      break. */
  lemma StripNoLineBreak(s: string)
    requires NoLineBreak(s)
    ensures NoLineBreak(Strip(s))
  {
    var i :| SpaceAround(s, i, Strip(s));
    SliceNoLineBreak(s, i, Strip(s));
  }

  // ---------------------------------------------------------------------
  // Lines of a file, and "\n".join

  predicate IsLineBreak(c: char) {
    c == '\n' || c == '\r'
  }

  predicate NoLineBreak(s: string) {
    forall i :: 0 <= i < |s| ==> !IsLineBreak(s[i])
  }

  /** The pieces of `t` between line breaks, a line break being `\n` or
      `\r`. Python's text-mode line iteration (universal newlines) yields the
      same pieces, each with its line ending attached, except that it yields
      no empty piece between the two characters of `\r\n` and none after a
      final line break: exactly the pieces that are empty once stripped. */
  function SplitLines(t: string): (r: seq<string>)
    ensures |r| >= 1
    ensures forall i :: 0 <= i < |r| ==> NoLineBreak(r[i])
    decreases |t|
  {
    if t == [] then [[]]
    else
      var rest := SplitLines(t[1..]);
      if IsLineBreak(t[0]) then [[]] + rest
      else [[t[0]] + rest[0]] + rest[1..]
  }

  /** `"\n".join(lines)`. */
  function Join(lines: seq<string>): (r: string)
    ensures lines == [] ==> r == []
    ensures lines != [] ==> StartsWith(r, lines[0])
    decreases |lines|
  {
    if |lines| == 0 then []
    else if |lines| == 1 then lines[0]
    else lines[0] + "\n" + Join(lines[1..])
  }

  lemma {:induction false} SplitLinesNoBreak(a: string)
    requires NoLineBreak(a)
    ensures SplitLines(a) == [a]
    decreases |a|
  {
    if a != [] {
      SplitLinesNoBreak(a[1..]);
      assert [a[0]] + a[1..] == a;
    }
  }

  lemma {:induction false} SplitLinesAfter(a: string, b: string)
    requires NoLineBreak(a)
    ensures SplitLines(a + "\n" + b) == [a] + SplitLines(b)
    decreases |a|
  {
    var t := a + "\n" + b;
    if a == [] {
      assert t[1..] == b;
    } else {
      assert t[1..] == a[1..] + "\n" + b;
      SplitLinesAfter(a[1..], b);
      assert [a[0]] + a[1..] == a;
    }
  }

  /** Splitting a joined document at its line breaks gives back its lines,
      provided that no line holds a line break of its own. */
  lemma {:induction false} SplitJoin(lines: seq<string>)
    requires lines != []
    requires forall i :: 0 <= i < |lines| ==> NoLineBreak(lines[i])
    ensures SplitLines(Join(lines)) == lines
    decreases |lines|
  {
    if |lines| == 1 {
      SplitLinesNoBreak(lines[0]);
    } else {
      SplitJoin(lines[1..]);
      SplitLinesAfter(lines[0], Join(lines[1..]));
    }
  }

  /** Joining the pieces of a text that uses `\n` alone as line break gives
      back the text. */
  lemma {:induction false} JoinSplit(t: string)
    requires forall i :: 0 <= i < |t| ==> t[i] != '\r'
    ensures Join(SplitLines(t)) == t
    decreases |t|
  {
    if t != [] {
      var rest := SplitLines(t[1..]);
      JoinSplit(t[1..]);
      if IsLineBreak(t[0]) {
        assert t == "\n" + t[1..];
      } else if |rest| == 1 {
        assert t == [t[0]] + t[1..];
      } else {
        assert rest == [rest[0]] + rest[1..];
        assert Join(rest) == rest[0] + "\n" + Join(rest[1..]);
        assert t == [t[0]] + t[1..];
      }
    }
  }

  /** A joined document that ends with an empty line ends with `\n`. */
  lemma {:induction false} JoinEndsWithBreak(lines: seq<string>)
    requires |lines| >= 2 && lines[|lines| - 1] == []
    ensures |Join(lines)| > 0 && Join(lines)[|Join(lines)| - 1] == '\n'
    decreases |lines|
  {
    if |lines| > 2 {
      JoinEndsWithBreak(lines[1..]);
    }
  }
}
