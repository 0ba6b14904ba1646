/** The one piece of the JavaFX controller that is program logic rather than
 *  user interface: `parseAutori`, which turns the text typed in the
 *  "authors" field of the book form into a list of authors. */
module MainController {
  import opened JavaLang
  import opened Lists
  import opened Text
  import opened Model

  // ------------------------------------------------------------ specification

  /** The (first name, last name) pair one trimmed, non-blank segment names:
   *  with no space, all of it is the first name and the last name is empty;
   *  otherwise the two sides of the last space, each trimmed. */
  function AuthorOf(t: string): (string, string)
  {
    var k := LastIndexOf(t, ' ');
    if k == -1 then (t, []) else (Trim(t[..k]), Trim(t[k + 1..]))
  }

  /** What one comma-separated segment contributes: nothing when it is blank
   *  once trimmed, otherwise the author its trimmed text names. */
  function SegmentAuthors(s: string): seq<(string, string)>
  {
    var t := Trim(s);
    if t == [] then [] else [AuthorOf(t)]
  }

  /** The authors a list of segments names, in segment order, at most one
   *  per segment. */
  function AuthorsOfSegments(segs: seq<string>): (r: seq<(string, string)>)
    ensures |r| <= |segs|
  {
    if segs == [] then []
    else AuthorsOfSegments(segs[..|segs| - 1]) + SegmentAuthors(segs[|segs| - 1])
  }

  /** The name pairs `parseAutori` yields for its argument (`None` is Java's
   *  `null`): none for `null` or blank text, otherwise those of the pieces
   *  of `split(",")`. */
  function ParsedAuthors(str: Option<string>): seq<(string, string)>
  {
    if str.None? || Trim(str.value) == [] then []
    else AuthorsOfSegments(JavaSplit(str.value, ','))
  }

  // ------------------------------------------------------------ the operation

  /** `parseAutori`: a fresh author for every non-blank segment of `str`,
   *  named as `ParsedAuthors` says. */
  method ParseAutori(str: Option<string>) returns (autori: seq<Autore>)
    ensures AuthorKeys(autori) == ParsedAuthors(str)
    ensures forall a :: a in autori ==> fresh(a)
  {
    autori := [];
    if str.None? || Trim(str.value) == [] {
      return;
    }
    var stringheAutori := JavaSplit(str.value, ',');
    autori := NewAutori(stringheAutori);
  }

  /** The loop of `parseAutori` over the pieces of the split: a fresh author
   *  for every piece that is not blank once trimmed. */
  method NewAutori(stringheAutori: seq<string>) returns (autori: seq<Autore>)
    ensures AuthorKeys(autori) == AuthorsOfSegments(stringheAutori)
    ensures forall a :: a in autori ==> fresh(a)
  {
    autori := [];
    for i := 0 to |stringheAutori|
      invariant AuthorKeys(autori) == AuthorsOfSegments(stringheAutori[..i])
      invariant forall a :: a in autori ==> fresh(a)
    {
      var s := Trim(stringheAutori[i]);
      PrefixStep(stringheAutori, i);
      if s != [] {
        label before:
        var a := NewAutore(s);
        assert AuthorKeys(autori) == old@before(AuthorKeys(autori));
        AuthorKeysAppend(autori, a);
        autori := autori + [a];
      }
    }
    TakeAll(stringheAutori);
  }

  /** The body of `parseAutori`'s loop for a trimmed, non-blank segment `s`:
   *  the author named by what lies either side of its last space. */
  method NewAutore(s: string) returns (a: Autore)
    ensures fresh(a)
    ensures a.Key() == AuthorOf(s)
  {
    var ultimoSpazio := LastIndexOf(s, ' ');
    var nome, cognome;
    if ultimoSpazio == -1 {
      nome, cognome := s, [];
    } else {
      nome, cognome := Trim(s[..ultimoSpazio]), Trim(s[ultimoSpazio + 1..]);
    }
    a := new Autore(nome, cognome);
  }

  // ------------------------------------------------------------ properties

  /** Segments are read one after another: the authors of two runs of
   *  segments are those of the first run followed by those of the second. */
  lemma {:induction false} AuthorsOfSegmentsAppend(a: seq<string>, b: seq<string>)
    ensures AuthorsOfSegments(a + b) == AuthorsOfSegments(a) + AuthorsOfSegments(b)
    decreases |b|
  {
    if b == [] {
      assert a + b == a;
    } else {
      var b' := b[..|b| - 1];
      assert (a + b)[..|a + b| - 1] == a + b';
      AuthorsOfSegmentsAppend(a, b');
    }
  }

  /** A segment that is blank once trimmed yields no author; any other yields
   *  exactly one. */
  lemma OneSegment(s: string)
    ensures AuthorsOfSegments([s]) == SegmentAuthors(s)
    ensures |AuthorsOfSegments([s])| == if Trim(s) == [] then 0 else 1
  {
    assert [s][..0] == [];
  }

  /** One more segment read, its author (if any) added after the others. */
  lemma PrefixStep(segs: seq<string>, i: nat)
    requires i < |segs|
    ensures AuthorsOfSegments(segs[..i + 1]) == AuthorsOfSegments(segs[..i]) + SegmentAuthors(segs[i])
  {
    assert segs[..i + 1][..i] == segs[..i];
  }

  /** Segments that are all empty yield no author. */
  lemma {:induction false} EmptySegments(segs: seq<string>)
    requires forall i :: 0 <= i < |segs| ==> segs[i] == []
    ensures AuthorsOfSegments(segs) == []
  {
    if segs != [] {
      EmptySegments(segs[..|segs| - 1]);
      assert Trim(segs[|segs| - 1]) == [];
    }
  }

  /** `split` drops trailing empty pieces, which would yield no author anyway:
   *  non-blank text yields the authors of all its comma-separated pieces. */
  lemma SplitTailIrrelevant(s: string)
    requires Trim(s) != []
    ensures ParsedAuthors(Some(s)) == AuthorsOfSegments(SplitAll(s, ','))
  {
    if ',' in s {
      TrailingEmptyIrrelevant(JavaSplit(s, ','), SplitAll(s, ','));
    }
  }

  /** Empty segments after the last non-empty one yield no author. */
  lemma TrailingEmptyIrrelevant(r: seq<string>, all: seq<string>)
    requires |r| <= |all| && r == all[..|r|]
    requires forall i :: |r| <= i < |all| ==> all[i] == []
    ensures AuthorsOfSegments(r) == AuthorsOfSegments(all)
  {
    assert all == r + all[|r|..];
    AuthorsOfSegmentsAppend(r, all[|r|..]);
    EmptySegments(all[|r|..]);
  }

  /** `null` and blank text yield no author; otherwise there are at most as
   *  many authors as `split(",")` gives pieces. */
  lemma ParsedAuthorsBound(str: Option<string>)
    ensures str.None? || Trim(str.value) == [] ==> ParsedAuthors(str) == []
    ensures str.Some? ==> |ParsedAuthors(str)| <= |JavaSplit(str.value, ',')|
  {
  }

  /** The author of a trimmed, non-blank segment: the first name is never
   *  empty and is the whole segment when it holds no space; the last name is
   *  empty exactly then, and otherwise contains no space; both are trimmed. */
  lemma AuthorOfShape(t: string)
    requires t != [] && Trim(t) == t
    ensures var (nome, cognome) := AuthorOf(t);
      && nome != []
      && (cognome == [] <==> ' ' !in t)
      && (' ' !in t ==> nome == t)
      && ' ' !in cognome
      && Trim(nome) == nome && Trim(cognome) == cognome
  {
    var k := LastIndexOf(t, ' ');
    if k != -1 {
      TrimmedEnds(t);
      assert 0 < k < |t| - 1 by {
        assert IsTrimmable(t[k]);
      }
      var pre, post := t[..k], t[k + 1..];
      assert pre[0] == t[0] && post[|post| - 1] == t[|t| - 1];
      TrimNonBlank(pre, 0);
      TrimNonBlank(post, |post| - 1);
      TrimKeepsOut(post, ' ');
      TrimIdempotent(pre);
      TrimIdempotent(post);
    }
  }

  // ------------------------------------------------------------ round trip

  /** A first and last name that survive being written as `nome cognome` in
   *  a comma-separated list: neither empty, neither starting nor ending with
   *  a trimmable character, no comma in either, no space in the last name. */
  predicate WellFormedName(p: (string, string))
  {
    && p.0 != [] && !IsTrimmable(p.0[0]) && !IsTrimmable(p.0[|p.0| - 1]) && ',' !in p.0
    && p.1 != [] && !IsTrimmable(p.1[0]) && !IsTrimmable(p.1[|p.1| - 1]) && ',' !in p.1
    && ' ' !in p.1
  }

  /** The comma-separated pieces of `nome cognome, nome cognome, …`. */
  function NameSegments(ps: seq<(string, string)>): (r: seq<string>)
    ensures |r| == |ps|
  {
    seq(|ps|, i requires 0 <= i < |ps| => (if i == 0 then [] else [' ']) + ps[i].0 + [' '] + ps[i].1)
  }

  /** `nome cognome, nome cognome, …`, the text the form's author field
   *  expects. */
  function NamesText(ps: seq<(string, string)>): string
  {
    if ps == [] then [] else Join(NameSegments(ps), ',')
  }

  /** `nome cognome` names the author (`nome`, `cognome`) when the last
   *  name holds no space. */
  lemma AuthorOfJoined(p: (string, string))
    requires WellFormedName(p)
    ensures AuthorOf(p.0 + [' '] + p.1) == p
  {
    var t := p.0 + [' '] + p.1;
    LastIndexOfSplit(p.0, ' ', p.1);
    assert t[..|p.0|] == p.0;
    assert t[|p.0| + 1..] == p.1;
    TrimOfTrimmed(p.0);
    TrimOfTrimmed(p.1);
  }

  /** One written-out author reads back as itself. */
  lemma SegmentRoundTrip(pre: string, p: (string, string))
    requires pre == [] || pre == [' ']
    requires WellFormedName(p)
    ensures SegmentAuthors(pre + p.0 + [' '] + p.1) == [p]
  {
    var t := p.0 + [' '] + p.1;
    assert pre + p.0 + [' '] + p.1 == pre + t + [];
    TrimPadded(pre, t, []);
    AuthorOfJoined(p);
  }

  /** The first `k` written-out authors read back as themselves. */
  lemma {:induction false} SegmentsRoundTrip(ps: seq<(string, string)>, k: nat)
    requires k <= |ps|
    requires forall i :: 0 <= i < |ps| ==> WellFormedName(ps[i])
    ensures AuthorsOfSegments(NameSegments(ps)[..k]) == ps[..k]
  {
    if k > 0 {
      var segs := NameSegments(ps);
      var pre: string := if k - 1 == 0 then [] else [' '];
      assert segs[k - 1] == pre + ps[k - 1].0 + [' '] + ps[k - 1].1;
      PrefixStep(segs, k - 1);
      SegmentsRoundTrip(ps, k - 1);
      SegmentRoundTrip(pre, ps[k - 1]);
      TakeLast(ps, k);
    }
  }

  /** Authors with well-formed names, written as `nome cognome, …`, are
   *  parsed back into the same names in the same order. */
  lemma NamesRoundTrip(ps: seq<(string, string)>)
    requires forall i :: 0 <= i < |ps| ==> WellFormedName(ps[i])
    ensures ParsedAuthors(Some(NamesText(ps))) == ps
  {
    if ps != [] {
      var segs := NameSegments(ps);
      var s := Join(segs, ',');
      assert forall i :: 0 <= i < |segs| ==> ',' !in segs[i];
      SplitJoin(segs, ',');
      assert s[0] == ps[0].0[0] by {
        if |segs| > 1 {
          assert s == segs[0] + [','] + Join(segs[1..], ',');
        }
      }
      TrimShape(s);
      SplitTailIrrelevant(s);
      SegmentsRoundTrip(ps, |ps|);
      TakeAll(segs);
      TakeAll(ps);
    }
  }

  /** The authors as `List.toString` writes them between its brackets
   *  (`Autore.toString` joined by `", "`) read back as the same authors,
   *  when their names are well formed. */
  lemma AuthorsTextRoundTrip(s: seq<Autore>)
    requires forall i :: 0 <= i < |s| ==> WellFormedName(s[i].Key())
    ensures ParsedAuthors(Some(AuthorsJoined(s))) == AuthorKeys(s)
  {
    var ps := AuthorKeys(s);
    AuthorsJoinedText(s);
    assert forall i :: 0 <= i < |ps| ==> WellFormedName(ps[i]);
    NamesRoundTrip(ps);
  }

  /** The authors' texts joined by `", "` are their names written out. */
  lemma AuthorsJoinedText(s: seq<Autore>)
    ensures AuthorsJoined(s) == NamesText(AuthorKeys(s))
  {
    if s != [] {
      var segs := NameSegments(AuthorKeys(s));
      assert segs[0] == s[0].ToString();
      if |s| > 1 {
        JoinedTail(s, 1);
        assert Join(segs, ',') == segs[0] + [','] + Join(segs[1..], ',');
        assert AuthorsJoined(s) == s[0].ToString() + ", " + AuthorsJoined(s[1..]);
      }
    }
  }

  /** From the second author on, the written-out segments joined by commas
   *  are the authors' texts joined by `", "`, after one space. */
  lemma {:induction false} JoinedTail(s: seq<Autore>, i: nat)
    requires 1 <= i < |s|
    ensures Join(NameSegments(AuthorKeys(s))[i..], ',') == [' '] + AuthorsJoined(s[i..])
    decreases |s| - i
  {
    var segs := NameSegments(AuthorKeys(s));
    assert segs[i] == [' '] + s[i].ToString();
    if i + 1 < |s| {
      JoinedTail(s, i + 1);
      assert segs[i..][1..] == segs[i + 1..];
      assert s[i..][1..] == s[i + 1..];
    }
  }
}
