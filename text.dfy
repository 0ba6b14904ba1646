/** The `java.lang.String` operations and regular-expression character
 *  classes that the library's validation, search and parsing rely on. */
module Text {
  import opened JavaLang
  import opened Lists

  // ------------------------------------------------------------ character classes

  /** `\d`: an ASCII digit. */
  predicate IsAsciiDigit(c: char)
  {
    '0' <= c <= '9'
  }

  /** `[A-Za-z]` */
  predicate IsAsciiLetter(c: char)
  {
    'A' <= c <= 'Z' || 'a' <= c <= 'z'
  }

  /** `\p{L}`, the Unicode letters, decided exactly up to U+00FF. */
  predicate IsLetter(c: char)
  {
    || IsAsciiLetter(c)
    || c == '\U{AA}' || c == '\U{B5}' || c == '\U{BA}'
    || ('\U{C0}' <= c <= '\U{FF}' && c != '\U{D7}' && c != '\U{F7}')
  }

  /** `\p{N}`, the Unicode numbers, decided exactly up to U+00FF. */
  predicate IsNumber(c: char)
  {
    || IsAsciiDigit(c)
    || c == '\U{B2}' || c == '\U{B3}' || c == '\U{B9}'
    || ('\U{BC}' <= c <= '\U{BE}')
  }

  // ------------------------------------------------------------ trim

  /** What `String.trim` strips from either end: every character up to U+0020. */
  predicate IsTrimmable(c: char)
  {
    c <= ' '
  }

  /** The number of trimmable characters `s` starts with. */
  function LeadingTrimmable(s: string): (k: nat)
    ensures k <= |s|
  {
    if s == [] || !IsTrimmable(s[0]) then 0 else 1 + LeadingTrimmable(s[1..])
  }

  /** The number of trimmable characters `s` ends with. */
  function TrailingTrimmable(s: string): (k: nat)
    ensures k <= |s|
  {
    if s == [] || !IsTrimmable(s[|s| - 1]) then 0 else 1 + TrailingTrimmable(s[..|s| - 1])
  }

  /** The leading count covers exactly the trimmable prefix. */
  lemma {:induction false} LeadingTrimmableSpec(s: string)
    ensures forall i :: 0 <= i < LeadingTrimmable(s) ==> IsTrimmable(s[i])
    ensures LeadingTrimmable(s) < |s| ==> !IsTrimmable(s[LeadingTrimmable(s)])
  {
    if s != [] && IsTrimmable(s[0]) {
      LeadingTrimmableSpec(s[1..]);
    }
  }

  /** The trailing count covers exactly the trimmable suffix. */
  lemma {:induction false} TrailingTrimmableSpec(s: string)
    ensures forall i :: |s| - TrailingTrimmable(s) <= i < |s| ==> IsTrimmable(s[i])
    ensures TrailingTrimmable(s) < |s| ==> !IsTrimmable(s[|s| - 1 - TrailingTrimmable(s)])
  {
    if s != [] && IsTrimmable(s[|s| - 1]) {
      TrailingTrimmableSpec(s[..|s| - 1]);
    }
  }

  /** `String.trim`: the longest infix of `s` that neither starts nor ends with
   *  a trimmable character, once every trimmable character around it is
   *  dropped (`TrimShape`). */
  function Trim(s: string): (r: string)
    ensures |r| <= |s|
  {
    var rest := s[LeadingTrimmable(s)..];
    rest[..|rest| - TrailingTrimmable(rest)]
  }

  /** What `Trim` keeps: an infix starting after the leading trimmable
   *  characters, neither starting nor ending with one, and empty exactly
   *  when every character is trimmable; what follows it is trimmable. */
  lemma TrimShape(s: string)
    ensures var r := Trim(s);
      && (r == [] || (!IsTrimmable(r[0]) && !IsTrimmable(r[|r| - 1])))
      && (r == [] <==> forall i :: 0 <= i < |s| ==> IsTrimmable(s[i]))
      && LeadingTrimmable(s) + |r| <= |s|
      && r == s[LeadingTrimmable(s)..LeadingTrimmable(s) + |r|]
      && (forall i :: LeadingTrimmable(s) + |r| <= i < |s| ==> IsTrimmable(s[i]))
  {
    var rest := s[LeadingTrimmable(s)..];
    LeadingTrimmableSpec(s);
    TrailingTrimmableSpec(rest);
  }

  /** A string with no trimmable character at either end is its own trim. */
  lemma TrimOfTrimmed(s: string)
    requires s == [] || (!IsTrimmable(s[0]) && !IsTrimmable(s[|s| - 1]))
    ensures Trim(s) == s
  {
    TrimShape(s);
  }

  /** Trimming twice is trimming once. */
  lemma TrimIdempotent(s: string)
    ensures Trim(Trim(s)) == Trim(s)
  {
    TrimShape(s);
    TrimOfTrimmed(Trim(s));
  }

  /** A non-empty string that is its own trim neither starts nor ends with a
   *  trimmable character. */
  lemma TrimmedEnds(s: string)
    requires s != [] && Trim(s) == s
    ensures !IsTrimmable(s[0]) && !IsTrimmable(s[|s| - 1])
  {
    TrimShape(s);
  }

  /** A string holding a character that is not trimmable does not trim to
   *  nothing. */
  lemma TrimNonBlank(s: string, i: nat)
    requires i < |s| && !IsTrimmable(s[i])
    ensures Trim(s) != []
  {
    TrimShape(s);
  }

  /** Trimming brings in no character. */
  lemma TrimKeepsOut(s: string, c: char)
    requires c !in s
    ensures c !in Trim(s)
  {
    TrimShape(s);
    var r, l := Trim(s), LeadingTrimmable(s);
    assert forall j :: 0 <= j < |r| ==> r[j] == s[l + j];
  }

  /** Trimmable characters added around a string disappear again under `trim`. */
  lemma TrimPadded(pre: string, s: string, post: string)
    requires forall i :: 0 <= i < |pre| ==> IsTrimmable(pre[i])
    requires forall i :: 0 <= i < |post| ==> IsTrimmable(post[i])
    requires s != [] && !IsTrimmable(s[0]) && !IsTrimmable(s[|s| - 1])
    ensures Trim(pre + s + post) == s
  {
    var t := pre + s + post;
    LeadingOfPadded(pre, s + post);
    assert t == pre + (s + post);
    var r := Trim(t);
    TrimShape(t);
    assert |s| <= |r| by { assert !IsTrimmable(t[|pre| + |s| - 1]); }
    assert |r| <= |s| by { assert forall i :: |pre| + |s| <= i < |t| ==> IsTrimmable(t[i]); }
  }

  lemma {:induction false} LeadingOfPadded(pre: string, s: string)
    requires forall i :: 0 <= i < |pre| ==> IsTrimmable(pre[i])
    requires s != [] && !IsTrimmable(s[0])
    ensures LeadingTrimmable(pre + s) == |pre|
    decreases |pre|
  {
    if pre != [] {
      assert (pre + s)[1..] == pre[1..] + s;
      LeadingOfPadded(pre[1..], s);
    } else {
      assert pre + s == s;
    }
  }

  // ------------------------------------------------------------ case and search

  /** `Character.toLowerCase`, exact up to U+00FF. */
  function LowerChar(c: char): char
  {
    if 'A' <= c <= 'Z' || ('\U{C0}' <= c <= '\U{DE}' && c != '\U{D7}') then (c as int + 32) as char else c
  }

  /** `String.toLowerCase`, character by character. */
  function ToLower(s: string): (r: string)
    ensures |r| == |s|
    ensures forall i :: 0 <= i < |s| ==> r[i] == LowerChar(s[i])
  {
    if s == [] then [] else [LowerChar(s[0])] + ToLower(s[1..])
  }

  /** `String.contains`: `t` occurs in `s` at some offset. */
  predicate Contains(s: string, t: string)
  {
    exists i :: 0 <= i <= |s| - |t| && Occurs(s, t, i)
  }

  /** `t` occurs in `s` at offset `i`. */
  predicate Occurs(s: string, t: string, i: int)
  {
    0 <= i <= |s| - |t| && s[i..i + |t|] == t
  }

  /** Every string contains the empty string. */
  lemma ContainsEmpty(s: string)
    ensures Contains(s, "")
  {
    assert Occurs(s, "", 0);
  }

  /** `String.lastIndexOf(char)`: the last position of `c`, or -1. */
  function LastIndexOf(s: string, c: char): (k: int)
    ensures -1 <= k < |s|
    ensures k == -1 <==> c !in s
    ensures k >= 0 ==> s[k] == c && forall j :: k < j < |s| ==> s[j] != c
  {
    if s == [] then -1
    else if s[|s| - 1] == c then |s| - 1
    else
      assert s == s[..|s| - 1] + [s[|s| - 1]];
      LastIndexOf(s[..|s| - 1], c)
  }

  /** The last `c` of `a + [c] + b`, when `b` holds none, is the one after `a`. */
  lemma LastIndexOfSplit(a: string, c: char, b: string)
    requires c !in b
    ensures LastIndexOf(a + [c] + b, c) == |a|
  {
    var s := a + [c] + b;
    var k := LastIndexOf(s, c);
    assert s[|a|] == c;
  }

  // ------------------------------------------------------------ split

  /** The pieces joined back with `sep` between them. */
  function Join(parts: seq<string>, sep: char): string
    requires |parts| > 0
  {
    if |parts| == 1 then parts[0] else parts[0] + [sep] + Join(parts[1..], sep)
  }

  /** `s` cut at every occurrence of `sep`, empty pieces included. */
  function SplitAll(s: string, sep: char): (r: seq<string>)
    ensures |r| > 0
    ensures forall i :: 0 <= i < |r| ==> sep !in r[i]
    ensures Join(r, sep) == s
    decreases |s|
  {
    if sep !in s then [s]
    else
      var k := IndexOf(s, sep);
      var rest := SplitAll(s[k + 1..], sep);
      var r := [s[..k]] + rest;
      assert r[1..] == rest;
      assert s == s[..k] + [sep] + s[k + 1..];
      r
  }

  /** Splitting a join of separator-free pieces gives the pieces back. */
  lemma {:induction false} SplitJoin(parts: seq<string>, sep: char)
    requires |parts| > 0
    requires forall i :: 0 <= i < |parts| ==> sep !in parts[i]
    ensures SplitAll(Join(parts, sep), sep) == parts
    decreases |parts|
  {
    if |parts| > 1 {
      var s := Join(parts, sep);
      var tail := Join(parts[1..], sep);
      assert s == parts[0] + [sep] + tail;
      assert s[|parts[0]|] == sep;
      assert sep !in s[..|parts[0]|] by { assert s[..|parts[0]|] == parts[0]; }
      assert IndexOf(s, sep) == |parts[0]|;
      assert s[|parts[0]| + 1..] == tail;
      SplitJoin(parts[1..], sep);
      assert parts == [parts[0]] + parts[1..];
    }
  }

  /** The list without its trailing empty strings. */
  function DropTrailingEmpty(xs: seq<string>): (r: seq<string>)
    ensures |r| <= |xs| && r == xs[..|r|]
    ensures forall i :: |r| <= i < |xs| ==> xs[i] == []
    ensures r == [] || r[|r| - 1] != []
  {
    if xs == [] || xs[|xs| - 1] != [] then xs else DropTrailingEmpty(xs[..|xs| - 1])
  }

  /** `String.split` around a one-character separator: when `sep` does not
   *  occur the result is `[s]`; otherwise the pieces, without the trailing
   *  empty ones. */
  function JavaSplit(s: string, sep: char): (r: seq<string>)
    ensures sep !in s ==> r == [s]
    ensures forall i :: 0 <= i < |r| ==> sep !in r[i]
    ensures |r| <= |SplitAll(s, sep)| && r == SplitAll(s, sep)[..|r|]
    ensures forall i :: |r| <= i < |SplitAll(s, sep)| ==> SplitAll(s, sep)[i] == []
    ensures sep in s ==> r == [] || r[|r| - 1] != []
  {
    if sep !in s then [s] else DropTrailingEmpty(SplitAll(s, sep))
  }
}
