/** `NLPService` of services/nlp_service.py: splitting the input into
    e-mails, cleaning a text, removing stopwords, stemming, and extracting
    keywords. Every operation is a pure function of its arguments and of
    the service's read-only collaborators. */
module Nlp {
  import opened Text
  import Frequency

  /** `config.EMAIL_SEPARATOR`. */
  const EmailSeparator: string := "##### EMAIL #####"

  /** The characters besides `\w` and `\s` that `clean_text` keeps. */
  const Punctuation: set<char> := {'.', ',', '!', '?', '-', ':', ';', '(', ')'}

  /** The default `top_n` of `extract_keywords`. */
  const DefaultTopN: int := 5

  /** An `NLPService`: the character tables, `self.stopwords` (the NLTK
      Portuguese stopword set) and `self.stemmer.stem` (the RSLP stemmer). */
  datatype NlpService = NlpService(
    tables: CharTables,
    stopwords: set<string>,
    stem: string -> string)

  // ---------------------------------------------------------------------
  // split_emails

  /** The stripped pieces, `[p.strip() for p in pieces]`. */
  function StripAll(t: CharTables, pieces: seq<string>): (r: seq<string>)
    ensures |r| == |pieces| && forall i :: 0 <= i < |r| ==> r[i] == Strip(t, pieces[i])
  {
    seq(|pieces|, i requires 0 <= i < |pieces| => Strip(t, pieces[i]))
  }

  /** The non-empty elements of `xs`, in order (`[x for x in xs if x]`). */
  function NonEmpty(xs: seq<string>): (r: seq<string>)
    ensures forall x :: x in r <==> x in xs && x != []
  {
    if xs == [] then []
    else
      assert xs == [xs[0]] + xs[1..];
      (if xs[0] == [] then [] else [xs[0]]) + NonEmpty(xs[1..])
  }

  /** The positions at or after `k` of the non-empty elements of `xs`, in
      increasing order: which elements `NonEmpty` keeps, and where from. */
  function PositionsFrom(xs: seq<string>, k: nat): (p: seq<nat>)
    requires k <= |xs|
    ensures forall j :: 0 <= j < |p| ==> k <= p[j] < |xs| && xs[p[j]] != []
    ensures forall j, l :: 0 <= j < l < |p| ==> p[j] < p[l]
    ensures forall i :: k <= i < |xs| && xs[i] != [] ==> i in p
    decreases |xs| - k
  {
    if k == |xs| then []
    else if xs[k] == [] then PositionsFrom(xs, k + 1)
    else [k] + PositionsFrom(xs, k + 1)
  }

  function Positions(xs: seq<string>): seq<nat> {
    PositionsFrom(xs, 0)
  }

  /** The suffix of `xs` from `k` keeps the elements at the positions from `k`. */
  lemma {:induction false} NonEmptyFrom(xs: seq<string>, k: nat)
    requires k <= |xs|
    ensures var p := PositionsFrom(xs, k);
      && |NonEmpty(xs[k..])| == |p|
      && forall j :: 0 <= j < |p| ==> NonEmpty(xs[k..])[j] == xs[p[j]]
    decreases |xs| - k
  {
    if k < |xs| {
      NonEmptyFrom(xs, k + 1);
      var q := PositionsFrom(xs, k + 1);
      var tail := NonEmpty(xs[k + 1..]);
      NonEmptyStep(xs, k);
      if xs[k] == [] {
        assert PositionsFrom(xs, k) == q;
        assert NonEmpty(xs[k..]) == [] + tail == tail;
      } else {
        var p := PositionsFrom(xs, k);
        var r := NonEmpty(xs[k..]);
        assert p == [k] + q && r == [xs[k]] + tail;
        forall j | 0 <= j < |p| ensures r[j] == xs[p[j]] {
          if j > 0 {
            assert r[j] == tail[j - 1] && p[j] == q[j - 1];
          }
        }
      }
    }
  }

  lemma {:induction false} NonEmptyStep(xs: seq<string>, k: nat)
    requires k < |xs|
    ensures NonEmpty(xs[k..]) == (if xs[k] == [] then [] else [xs[k]]) + NonEmpty(xs[k + 1..])
  {
    var u := xs[k..];
    assert u[0] == xs[k] && u[1..] == xs[k + 1..];
  }

  /** The positions at or after `k` of the non-empty elements of `xs`. */
  function NonEmptyAt(xs: seq<string>, k: nat): set<int> {
    set i | k <= i < |xs| && xs[i] != []
  }

  lemma {:induction false} NonEmptyAtStep(xs: seq<string>, k: nat)
    requires k < |xs|
    ensures NonEmptyAt(xs, k) == NonEmptyAt(xs, k + 1) + (if xs[k] == [] then {} else {k})
    ensures k !in NonEmptyAt(xs, k + 1)
  {
  }

  /** There are as many positions from `k` as non-empty elements from `k`. */
  lemma {:induction false} PositionsCount(xs: seq<string>, k: nat)
    requires k <= |xs|
    ensures |PositionsFrom(xs, k)| == |NonEmptyAt(xs, k)|
    decreases |xs| - k
  {
    if k == |xs| {
      assert NonEmptyAt(xs, k) == {};
    } else {
      PositionsCount(xs, k + 1);
      NonEmptyAtStep(xs, k);
      var later := NonEmptyAt(xs, k + 1);
      if xs[k] == [] {
        assert PositionsFrom(xs, k) == PositionsFrom(xs, k + 1);
        assert NonEmptyAt(xs, k) == later;
      } else {
        assert |PositionsFrom(xs, k)| == |PositionsFrom(xs, k + 1)| + 1;
        assert NonEmptyAt(xs, k) == later + {k};
        assert |later + {k}| == |later| + 1;
      }
    }
  }

  /** `[x for x in xs if x]` keeps the non-empty elements in their order and
      with their repetitions: its `j`th element is the `j`th non-empty one,
      and there are as many as there are non-empty elements. */
  lemma {:induction false} NonEmptyInOrder(xs: seq<string>)
    ensures var p := Positions(xs);
      && |NonEmpty(xs)| == |p| == |set i | 0 <= i < |xs| && xs[i] != []|
      && forall j :: 0 <= j < |p| ==> NonEmpty(xs)[j] == xs[p[j]]
  {
    NonEmptyFrom(xs, 0);
    assert xs[0..] == xs;
    PositionsCount(xs, 0);
    assert NonEmptyAt(xs, 0) == set i | 0 <= i < |xs| && xs[i] != [];
  }

  /** `p` lists, in increasing order and once each, exactly the positions of
      the pieces that are not blank. */
  predicate NonBlankPositions(t: CharTables, pieces: seq<string>, p: seq<nat>) {
    && (forall j, l :: 0 <= j < l < |p| ==> p[j] < p[l])
    && (forall j :: 0 <= j < |p| ==> p[j] < |pieces| && !AllSpace(t, pieces[p[j]]))
    && (forall i :: 0 <= i < |pieces| && !AllSpace(t, pieces[i]) ==> i in p)
  }

  /** `split_emails`: with the separator present, the non-blank stripped
      pieces between its occurrences; without it, the stripped input as the
      only element (which is `""` for a blank input). */
  function SplitEmails(svc: NlpService, text: string): seq<string> {
    if Contains(text, EmailSeparator) then NonEmpty(StripAll(svc.tables, SplitOn(text, EmailSeparator)))
    else [Strip(svc.tables, text)]
  }

  /** Without the separator the input is one e-mail, stripped; a blank input
      gives the single empty e-mail, not an empty list. */
  lemma {:induction false} SplitWithoutSeparator(svc: NlpService, text: string)
    requires !Contains(text, EmailSeparator)
    ensures SplitEmails(svc, text) == [Strip(svc.tables, text)]
    ensures SplitEmails(svc, text) == [""] <==> AllSpace(svc.tables, text)
  {
    StripBlank(svc.tables, text);
  }

  /** The stripped non-blank pieces of a split are exactly the strips of the
      pieces that are not blank. */
  lemma {:induction false} NonBlankPieces(t: CharTables, pieces: seq<string>)
    ensures forall e :: e in NonEmpty(StripAll(t, pieces)) <==>
      exists k :: 0 <= k < |pieces| && !AllSpace(t, pieces[k]) && e == Strip(t, pieces[k])
  {
    var stripped := StripAll(t, pieces);
    forall k | 0 <= k < |pieces| ensures stripped[k] == [] <==> AllSpace(t, pieces[k]) {
      StripBlank(t, pieces[k]);
    }
  }

  /** The comprehension keeps the strips of the non-blank pieces in the
      order of the pieces, one e-mail per non-blank piece. */
  lemma {:induction false} NonBlankPiecesInOrder(t: CharTables, pieces: seq<string>)
    ensures var r := NonEmpty(StripAll(t, pieces));
      var p := Positions(StripAll(t, pieces));
      && NonBlankPositions(t, pieces, p)
      && |r| == |p| == |set k | 0 <= k < |pieces| && !AllSpace(t, pieces[k])|
      && forall j :: 0 <= j < |p| ==> r[j] == Strip(t, pieces[p[j]])
  {
    var stripped := StripAll(t, pieces);
    StrippedBlank(t, pieces, stripped);
    NonEmptyInOrder(stripped);
    SameNonBlank(t, pieces, stripped);
  }

  lemma {:induction false} StrippedBlank(t: CharTables, pieces: seq<string>, stripped: seq<string>)
    requires stripped == StripAll(t, pieces)
    ensures |stripped| == |pieces|
    ensures forall k :: 0 <= k < |pieces| ==> (stripped[k] == [] <==> AllSpace(t, pieces[k]))
  {
    forall k | 0 <= k < |pieces| ensures stripped[k] == [] <==> AllSpace(t, pieces[k]) {
      StripBlank(t, pieces[k]);
    }
  }

  lemma {:induction false} SameNonBlank(t: CharTables, pieces: seq<string>, stripped: seq<string>)
    requires |stripped| == |pieces|
    requires forall k :: 0 <= k < |pieces| ==> (stripped[k] == [] <==> AllSpace(t, pieces[k]))
    ensures (set k | 0 <= k < |pieces| && !AllSpace(t, pieces[k]))
         == (set i | 0 <= i < |stripped| && stripped[i] != [])
  {
  }

  /** Stripping a string that does not contain `sep` gives one that does
      not contain it either. */
  lemma {:induction false} StripNotContains(t: CharTables, p: string, sep: string)
    requires !Contains(p, sep)
    ensures !Contains(Strip(t, p), sep)
  {
    var n := LeadingSpaces(t, p);
    var r := Strip(t, p);
    NotContainsPiece(p, sep, n, n + |r|, r);
  }

  lemma {:induction false} NotContainsPiece(s: string, sep: string, a: nat, b: nat, r: string)
    requires a <= b <= |s| && r == s[a..b]
    requires !Contains(s, sep)
    ensures !Contains(r, sep)
  {
    NotContainsSlice(s, sep, a, b);
  }

  /** Every stripped non-blank piece of pieces free of `sep` is non-empty,
      has no whitespace at either end and contains no `sep`. */
  lemma {:induction false} NonBlankShape(t: CharTables, pieces: seq<string>, sep: string)
    requires forall i :: 0 <= i < |pieces| ==> !Contains(pieces[i], sep)
    ensures forall e :: e in NonEmpty(StripAll(t, pieces)) ==>
      && e != []
      && !t.isSpace(e[0]) && !t.isSpace(e[|e| - 1])
      && !Contains(e, sep)
  {
    var stripped := StripAll(t, pieces);
    forall e | e in NonEmpty(stripped)
      ensures e != [] && !t.isSpace(e[0]) && !t.isSpace(e[|e| - 1]) && !Contains(e, sep)
    {
      var k :| 0 <= k < |stripped| && stripped[k] == e;
      StripNotContains(t, pieces[k], sep);
      assert e != [];
      assert !t.isSpace(e[0]) && !t.isSpace(e[|e| - 1]);
      assert !Contains(e, sep);
    }
  }

  /** Every stripped non-blank piece of a split on `sep` is non-empty, has no
      whitespace at either end and contains no `sep`. */
  lemma {:induction false} NonBlankPiecesShape(t: CharTables, s: string, sep: string)
    requires sep != []
    ensures forall e :: e in NonEmpty(StripAll(t, SplitOn(s, sep))) ==>
      && e != []
      && !t.isSpace(e[0]) && !t.isSpace(e[|e| - 1])
      && !Contains(e, sep)
  {
    NonBlankShape(t, SplitOn(s, sep), sep);
  }

  /** With the separator present, the input splits into at least two pieces
      that join back to it, and the e-mails are the strips of the pieces
      that are not blank, in the order of the pieces and one per piece. */
  lemma {:induction false} SplitWithSeparator(svc: NlpService, text: string)
    requires Contains(text, EmailSeparator)
    ensures var pieces := SplitOn(text, EmailSeparator);
      && |pieces| >= 2
      && Join(pieces, EmailSeparator) == text
      && (forall e :: e in SplitEmails(svc, text) <==>
           exists k :: 0 <= k < |pieces| && !AllSpace(svc.tables, pieces[k]) && e == Strip(svc.tables, pieces[k]))
      && var p := Positions(StripAll(svc.tables, pieces));
      && NonBlankPositions(svc.tables, pieces, p)
      && |SplitEmails(svc, text)| == |p| == |set k | 0 <= k < |pieces| && !AllSpace(svc.tables, pieces[k])|
      && forall j :: 0 <= j < |p| ==> SplitEmails(svc, text)[j] == Strip(svc.tables, pieces[p[j]])
  {
    JoinSplitOn(text, EmailSeparator);
    NonBlankPieces(svc.tables, SplitOn(text, EmailSeparator));
    NonBlankPiecesInOrder(svc.tables, SplitOn(text, EmailSeparator));
  }

  /** Every e-mail found between separators is non-empty, has no whitespace
      at either end and contains no separator. */
  lemma {:induction false} SplitWithSeparatorShape(svc: NlpService, text: string)
    requires Contains(text, EmailSeparator)
    ensures forall e :: e in SplitEmails(svc, text) ==>
      && e != []
      && !svc.tables.isSpace(e[0]) && !svc.tables.isSpace(e[|e| - 1])
      && !Contains(e, EmailSeparator)
  {
    NonBlankPiecesShape(svc.tables, text, EmailSeparator);
  }

  // ---------------------------------------------------------------------
  // clean_text

  predicate Kept(t: CharTables, c: char) {
    t.isWord(c) || t.isSpace(c) || c in Punctuation
  }

  /** `re.sub(r'[^\w\s\.\,\!\?\-\:\;\(\)]', ' ', s)`. */
  function ReplaceNoise(t: CharTables, s: string): (r: string)
    ensures |r| == |s|
    ensures forall i :: 0 <= i < |s| ==> r[i] == if Kept(t, s[i]) then s[i] else ' '
  {
    seq(|s|, i requires 0 <= i < |s| => if Kept(t, s[i]) then s[i] else ' ')
  }

  predicate AllKept(t: CharTables, s: string) {
    forall i :: 0 <= i < |s| ==> Kept(t, s[i])
  }

  /** The only whitespace character in `s` is the plain space. */
  predicate SpacesArePlain(t: CharTables, s: string) {
    forall i :: 0 <= i < |s| && t.isSpace(s[i]) ==> s[i] == ' '
  }

  /** No two whitespace characters of `s` are adjacent. */
  predicate NoDoubleSpace(t: CharTables, s: string) {
    forall i :: 0 <= i < |s| - 1 ==> !(t.isSpace(s[i]) && t.isSpace(s[i + 1]))
  }

  lemma {:induction false} ConsCollapsed(t: CharTables, x: char, c: string)
    requires SpacesArePlain(t, c) && NoDoubleSpace(t, c)
    requires t.isSpace(x) ==> x == ' ' && (c == [] || !t.isSpace(c[0]))
    ensures SpacesArePlain(t, [x] + c) && NoDoubleSpace(t, [x] + c)
  {
    var r := [x] + c;
    forall i | 1 <= i < |r| ensures r[i] == c[i - 1] { }
  }

  /** `re.sub(r'\s+', ' ', s)`: every maximal whitespace run becomes one
      plain space; the result has no whitespace but plain spaces, never two
      in a row, and starts like `s` when `s` starts with a non-space. */
  function CollapseSpaces(t: CharTables, s: string): (r: string)
    ensures |r| <= |s|
    ensures SpacesArePlain(t, r) && NoDoubleSpace(t, r)
    ensures r == [] <==> s == []
    ensures s != [] && !t.isSpace(s[0]) ==> r[0] == s[0]
    ensures s != [] && t.isSpace(s[0]) ==> r[0] == ' '
    decreases |s|
  {
    if s == [] then []
    else if t.isSpace(s[0]) then
      var c := CollapseSpaces(t, TrimLeft(t, s[1..]));
      ConsCollapsed(t, ' ', c);
      [' '] + c
    else
      var c := CollapseSpaces(t, s[1..]);
      ConsCollapsed(t, s[0], c);
      [s[0]] + c
  }

  /** Collapsing keeps the tokens: `re.sub(r'\s+', ' ', s).split() ==
      s.split()`, provided the plain space counts as whitespace. */
  lemma {:induction false} CollapseKeepsWords(t: CharTables, s: string)
    requires t.isSpace(' ')
    ensures Words(t, CollapseSpaces(t, s)) == Words(t, s)
    decreases |s|
  {
    if s != [] {
      var tail := s[1..];
      HeadTail(s);
      if t.isSpace(s[0]) {
        var u := TrimLeft(t, tail);
        var c := CollapseSpaces(t, u);
        CollapseKeepsWords(t, u);
        WordsAfterSpace(t, ' ', c);
        WordsTrimLeft(t, tail);
        WordsAfterSpace(t, s[0], tail);
      } else {
        var c := CollapseSpaces(t, tail);
        CollapseKeepsWords(t, tail);
        WordsCons(t, s[0], c, tail);
      }
    }
  }

  /** Collapsing keeps only characters that were kept, provided the plain
      space is one of them. */
  lemma {:induction false} CollapseKept(t: CharTables, s: string)
    requires AllKept(t, s) && Kept(t, ' ')
    ensures AllKept(t, CollapseSpaces(t, s))
    decreases |s|
  {
    if s != [] {
      var tail := s[1..];
      assert AllKept(t, tail) by {
        forall i | 0 <= i < |tail| ensures Kept(t, tail[i]) { assert tail[i] == s[i + 1]; }
      }
      if t.isSpace(s[0]) {
        var u := TrimLeft(t, tail);
        assert AllKept(t, u) by {
          forall i | 0 <= i < |u| ensures Kept(t, u[i]) { assert u[i] == tail[|tail| - |u| + i]; }
        }
        CollapseKept(t, u);
      } else {
        CollapseKept(t, tail);
      }
    }
  }

  /** Every slice of a collapsed string is collapsed. */
  lemma {:induction false} SliceCollapsed(t: CharTables, s: string, a: nat, b: nat)
    requires a <= b <= |s|
    requires SpacesArePlain(t, s) && NoDoubleSpace(t, s)
    ensures SpacesArePlain(t, s[a..b]) && NoDoubleSpace(t, s[a..b])
  {
    var x := s[a..b];
    forall i | 0 <= i < |x| ensures x[i] == s[a + i] { }
    forall i | 0 <= i < |x| - 1 ensures !(t.isSpace(x[i]) && t.isSpace(x[i + 1])) {
      assert x[i] == s[a + i] && x[i + 1] == s[a + i + 1];
    }
  }

  /** Every slice keeps the three character-level properties of a clean text. */
  lemma {:induction false} SliceClean(t: CharTables, s: string, a: nat, b: nat)
    requires a <= b <= |s|
    requires AllKept(t, s) && SpacesArePlain(t, s) && NoDoubleSpace(t, s)
    ensures var x := s[a..b]; AllKept(t, x) && SpacesArePlain(t, x) && NoDoubleSpace(t, x)
  {
    var x := s[a..b];
    forall i | 0 <= i < |x| ensures x[i] == s[a + i] { }
    SliceCollapsed(t, s, a, b);
  }

  /** `clean_text`. */
  function CleanText(t: CharTables, s: string): string {
    Strip(t, CollapseSpaces(t, ReplaceNoise(t, s)))
  }

  /** The shape of a cleaned text: only kept characters, no whitespace but
      the plain space, no two whitespace characters in a row, and none at
      either end. */
  predicate IsClean(t: CharTables, s: string) {
    && AllKept(t, s) && SpacesArePlain(t, s) && NoDoubleSpace(t, s)
    && (s == [] || (!t.isSpace(s[0]) && !t.isSpace(s[|s| - 1])))
  }

  /** A slice of a collapsed string of kept characters that neither starts
      nor ends with whitespace is clean. */
  lemma {:induction false} CleanSlice(t: CharTables, b: string, n: nat, r: string)
    requires n + |r| <= |b| && r == b[n..n + |r|]
    requires AllKept(t, b) && SpacesArePlain(t, b) && NoDoubleSpace(t, b)
    requires r == [] || (!t.isSpace(r[0]) && !t.isSpace(r[|r| - 1]))
    ensures IsClean(t, r)
  {
    SliceClean(t, b, n, n + |r|);
  }

  /** Stripping a collapsed string of kept characters gives a clean text. */
  lemma {:induction false} StripClean(t: CharTables, b: string)
    requires AllKept(t, b) && SpacesArePlain(t, b) && NoDoubleSpace(t, b)
    ensures IsClean(t, Strip(t, b)) && |Strip(t, b)| <= |b|
  {
    CleanSlice(t, b, LeadingSpaces(t, b), Strip(t, b));
  }

  /** `clean_text` keeps every token left by the noise replacement, in
      order: only whitespace is collapsed or stripped. */
  lemma {:induction false} CleanTextKeepsWords(t: CharTables, s: string)
    requires t.isSpace(' ')
    ensures Words(t, CleanText(t, s)) == Words(t, ReplaceNoise(t, s))
  {
    var a := ReplaceNoise(t, s);
    CollapseKeepsWords(t, a);
    WordsOfStrip(t, CollapseSpaces(t, a));
  }

  /** Every output of `clean_text` has the clean shape and is no longer than
      its input (provided the plain space counts as whitespace, as it does
      in Python). */
  lemma {:induction false} CleanTextIsClean(t: CharTables, s: string)
    requires t.isSpace(' ')
    ensures IsClean(t, CleanText(t, s))
    ensures |CleanText(t, s)| <= |s|
  {
    var a := ReplaceNoise(t, s);
    assert Kept(t, ' ');
    CollapseKept(t, a);
    StripClean(t, CollapseSpaces(t, a));
  }

  /** A collapsed string is its own collapse. */
  lemma {:induction false} CollapseOfCollapsed(t: CharTables, s: string)
    requires SpacesArePlain(t, s) && NoDoubleSpace(t, s)
    ensures CollapseSpaces(t, s) == s
    decreases |s|
  {
    if s != [] {
      var tail := s[1..];
      SliceCollapsed(t, s, 1, |s|);
      CollapseOfCollapsed(t, tail);
      if t.isSpace(s[0]) {
        CollapsedSpaceHead(t, s);
      }
      HeadTail(s);
    }
  }

  /** In a collapsed text a leading whitespace character is the plain space,
      and no whitespace follows it. */
  lemma {:induction false} CollapsedSpaceHead(t: CharTables, s: string)
    requires SpacesArePlain(t, s) && NoDoubleSpace(t, s)
    requires s != [] && t.isSpace(s[0])
    ensures s[0] == ' ' && TrimLeft(t, s[1..]) == s[1..]
  {
    var tail := s[1..];
    if tail != [] {
      assert !t.isSpace(tail[0]) by { assert tail[0] == s[1]; }
    }
  }

  /** A text of the clean shape is left unchanged by `clean_text`. */
  lemma {:induction false} CleanTextFixedPoint(t: CharTables, s: string)
    requires IsClean(t, s)
    ensures CleanText(t, s) == s
  {
    assert ReplaceNoise(t, s) == s;
    CollapseOfCollapsed(t, s);
    StripOfClean(t, s);
  }

  /** Cleaning is idempotent. */
  lemma {:induction false} CleanTextIdempotent(t: CharTables, s: string)
    requires t.isSpace(' ')
    ensures CleanText(t, CleanText(t, s)) == CleanText(t, s)
  {
    CleanTextIsClean(t, s);
    CleanTextFixedPoint(t, CleanText(t, s));
  }

  // ---------------------------------------------------------------------
  // remove_stopwords and apply_stemming

  /** `[word for word in ws if word not in stopwords]`. */
  function WithoutStopwords(stopwords: set<string>, ws: seq<string>): (r: seq<string>)
    ensures forall w :: w in r <==> w in ws && w !in stopwords
    ensures |r| <= |ws|
  {
    if ws == [] then []
    else
      assert ws == [ws[0]] + ws[1..];
      (if ws[0] in stopwords then [] else [ws[0]]) + WithoutStopwords(stopwords, ws[1..])
  }

  /** `remove_stopwords`. */
  function RemoveStopwords(svc: NlpService, text: string): string {
    var t := svc.tables;
    Join(WithoutStopwords(svc.stopwords, Words(t, Lower(t, text))), " ")
  }

  /** The tokens of the output of `remove_stopwords` are, in order, the
      tokens of the lowercased input that are not stopwords; hence no output
      token is a stopword, and a token of the lowercased input appears in the
      output exactly when it is not a stopword. */
  lemma {:induction false} RemoveStopwordsTokens(svc: NlpService, text: string)
    requires svc.tables.isSpace(' ')
    ensures var tokens := Words(svc.tables, Lower(svc.tables, text));
      && Words(svc.tables, RemoveStopwords(svc, text)) == WithoutStopwords(svc.stopwords, tokens)
      && forall w :: w in Words(svc.tables, RemoveStopwords(svc, text)) <==>
           w in tokens && w !in svc.stopwords
  {
    var t := svc.tables;
    var tokens := Words(t, Lower(t, text));
    var kept := WithoutStopwords(svc.stopwords, tokens);
    forall i | 0 <= i < |kept| ensures IsToken(t, kept[i]) {
      assert kept[i] in tokens;
    }
    WordsOfJoin(t, kept);
  }

  /** `[stem(word) for word in ws]`. */
  function Stems(stem: string -> string, ws: seq<string>): (r: seq<string>)
    ensures |r| == |ws| && forall i :: 0 <= i < |ws| ==> r[i] == stem(ws[i])
  {
    seq(|ws|, i requires 0 <= i < |ws| => stem(ws[i]))
  }

  /** `apply_stemming`. */
  function ApplyStemming(svc: NlpService, text: string): string {
    var t := svc.tables;
    Join(Stems(svc.stem, Words(t, Lower(t, text))), " ")
  }

  /** When the stemmer maps tokens to tokens, the tokens of the output of
      `apply_stemming` are the stems of the lowercased input tokens, one per
      token and in the same order. */
  lemma {:induction false} ApplyStemmingTokens(svc: NlpService, text: string)
    requires svc.tables.isSpace(' ')
    requires forall w :: IsToken(svc.tables, w) ==> IsToken(svc.tables, svc.stem(w))
    ensures Words(svc.tables, ApplyStemming(svc, text)) ==
      Stems(svc.stem, Words(svc.tables, Lower(svc.tables, text)))
  {
    var t := svc.tables;
    var tokens := Words(t, Lower(t, text));
    WordsOfJoin(t, Stems(svc.stem, tokens));
  }

  // ---------------------------------------------------------------------
  // preprocess_for_analysis

  /** The dictionary returned by `preprocess_for_analysis`. */
  datatype Preprocessed = Preprocessed(
    original: string,
    cleaned: string,
    withoutStopwords: string,
    stemmed: string)

  /** `preprocess_for_analysis`. */
  function PreprocessForAnalysis(svc: NlpService, text: string): Preprocessed {
    var cleaned := CleanText(svc.tables, text);
    Preprocessed(text, cleaned, RemoveStopwords(svc, cleaned), ApplyStemming(svc, cleaned))
  }

  /** The record keeps the original text and its cleaned form; the
      stopword-free and the stemmed variant are both derived from the cleaned
      form, so the stemmed variant still holds the stems of the stopwords. */
  lemma {:induction false} PreprocessForAnalysisSpec(svc: NlpService, text: string)
    requires svc.tables.isSpace(' ')
    requires forall w :: IsToken(svc.tables, w) ==> IsToken(svc.tables, svc.stem(w))
    ensures var r := PreprocessForAnalysis(svc, text);
      var tokens := Words(svc.tables, Lower(svc.tables, r.cleaned));
      && r.original == text
      && IsClean(svc.tables, r.cleaned) && |r.cleaned| <= |text|
      && Words(svc.tables, r.withoutStopwords) == WithoutStopwords(svc.stopwords, tokens)
      && Words(svc.tables, r.stemmed) == Stems(svc.stem, tokens)
  {
    var r := PreprocessForAnalysis(svc, text);
    assert r.cleaned == CleanText(svc.tables, text);
    CleanTextIsClean(svc.tables, text);
    RemoveStopwordsTokens(svc, r.cleaned);
    ApplyStemmingTokens(svc, r.cleaned);
  }

  // ---------------------------------------------------------------------
  // extract_keywords

  /** The words `extract_keywords` counts: the tokens of
      `apply_stemming(remove_stopwords(text))`. */
  function KeywordCandidates(svc: NlpService, text: string): seq<string> {
    Words(svc.tables, ApplyStemming(svc, RemoveStopwords(svc, text)))
  }

  /** `extract_keywords(text, top_n)`. */
  function ExtractKeywords(svc: NlpService, text: string, topN: int): seq<string> {
    Frequency.MostCommon(KeywordCandidates(svc, text), topN)
  }

  /** The keywords are at most `top_n` distinct candidate tokens (exactly
      `top_n`, or all distinct candidates when there are fewer); their counts
      never increase, equal counts keep first-occurrence order, and the
      last keyword precedes every candidate left out, so a tie at the
      cut-off goes to the candidate that occurs first. */
  lemma {:induction false} ExtractKeywordsSpec(svc: NlpService, text: string, topN: int)
    ensures Frequency.MostCommonOf(KeywordCandidates(svc, text), topN, ExtractKeywords(svc, text, topN))
  {
    Frequency.MostCommonSpec(KeywordCandidates(svc, text), topN);
  }

  /** Every character of `s` is its own lowercase. */
  predicate Lowered(t: CharTables, s: string) {
    forall i :: 0 <= i < |s| ==> t.lower(s[i]) == s[i]
  }

  lemma {:induction false} LoweredParts(t: CharTables, s: string, k: nat)
    requires k <= |s| && Lowered(t, s)
    ensures Lowered(t, s[..k]) && Lowered(t, s[k..])
  {
    forall i | 0 <= i < k ensures s[..k][i] == s[i] { }
    forall i | 0 <= i < |s| - k ensures s[k..][i] == s[k + i] { }
  }

  /** The tokens of a lowercased string are lowercased. */
  lemma {:induction false} WordsLowered(t: CharTables, s: string)
    requires Lowered(t, s)
    ensures forall i :: 0 <= i < |Words(t, s)| ==> Lowered(t, Words(t, s)[i])
    decreases |s|
  {
    var u := TrimLeft(t, s);
    LoweredParts(t, s, |s| - |u|);
    if u != [] {
      var n := TokenLength(t, u);
      LoweredParts(t, u, n);
      WordsLowered(t, u[n..]);
      var ws := Words(t, s);
      var rest := Words(t, u[n..]);
      assert ws == [u[..n]] + rest;
      forall i | 0 <= i < |ws| ensures Lowered(t, ws[i]) {
        if i > 0 {
          assert ws[i] == rest[i - 1];
        }
      }
    }
  }

  /** A single-space join of lowercased strings is lowercased, when the
      plain space is its own lowercase. */
  lemma {:induction false} JoinLowered(t: CharTables, ws: seq<string>)
    requires t.lower(' ') == ' '
    requires forall i :: 0 <= i < |ws| ==> Lowered(t, ws[i])
    ensures Lowered(t, Join(ws, " "))
  {
    if |ws| > 1 {
      var tail := ws[1..];
      assert forall i :: 0 <= i < |tail| ==> tail[i] == ws[i + 1];
      JoinLowered(t, tail);
      var x, sp, y := ws[0], " ", Join(tail, " ");
      assert Join(ws, " ") == x + sp + y;
      forall i | 0 <= i < |x + sp + y| ensures t.lower((x + sp + y)[i]) == (x + sp + y)[i] {
        if i < |x| {
          assert (x + sp + y)[i] == x[i];
        } else if i == |x| {
          assert (x + sp + y)[i] == ' ';
        } else {
          assert (x + sp + y)[i] == y[i - |x| - 1];
        }
      }
    }
  }

  /** The tokens of the lowercased text that are not stopwords are
      lowercased tokens, when lowercasing is idempotent. */
  lemma {:induction false} ContentWordsLowered(svc: NlpService, text: string, content: seq<string>)
    requires forall c :: svc.tables.lower(svc.tables.lower(c)) == svc.tables.lower(c)
    requires content == WithoutStopwords(svc.stopwords, Words(svc.tables, Lower(svc.tables, text)))
    ensures forall i :: 0 <= i < |content| ==> IsToken(svc.tables, content[i]) && Lowered(svc.tables, content[i])
  {
    var t := svc.tables;
    var tokens := Words(t, Lower(t, text));
    WordsLowered(t, Lower(t, text));
    forall i | 0 <= i < |content| ensures IsToken(t, content[i]) && Lowered(t, content[i]) {
      assert content[i] in tokens;
      var k :| 0 <= k < |tokens| && tokens[k] == content[i];
    }
  }

  /** A lowercased string is its own lowercase. */
  lemma {:induction false} LowerOfLowered(t: CharTables, s: string)
    requires Lowered(t, s)
    ensures Lower(t, s) == s
  {
  }

  /** The words `extract_keywords` counts are the stems of the lowercased
      tokens that are not stopwords, in order, provided lowercasing is
      idempotent and keeps the plain space, and the stemmer maps tokens to
      tokens. */
  lemma {:induction false} KeywordCandidatesAreStems(svc: NlpService, text: string)
    requires svc.tables.isSpace(' ') && svc.tables.lower(' ') == ' '
    requires forall c :: svc.tables.lower(svc.tables.lower(c)) == svc.tables.lower(c)
    requires forall w :: IsToken(svc.tables, w) ==> IsToken(svc.tables, svc.stem(w))
    ensures KeywordCandidates(svc, text) ==
      Stems(svc.stem, WithoutStopwords(svc.stopwords, Words(svc.tables, Lower(svc.tables, text))))
  {
    var t := svc.tables;
    var content := WithoutStopwords(svc.stopwords, Words(t, Lower(t, text)));
    ContentWordsLowered(svc, text, content);
    JoinLowered(t, content);
    LowerOfLowered(t, Join(content, " "));
    WordsOfJoin(t, content);
    WordsOfJoin(t, Stems(svc.stem, content));
  }

  /** Every keyword is the stem of a token of the lowercased text that is
      not a stopword (under the same conditions). */
  lemma {:induction false} KeywordsAreStemsOfContentWords(svc: NlpService, text: string, topN: int)
    requires svc.tables.isSpace(' ') && svc.tables.lower(' ') == ' '
    requires forall c :: svc.tables.lower(svc.tables.lower(c)) == svc.tables.lower(c)
    requires forall w :: IsToken(svc.tables, w) ==> IsToken(svc.tables, svc.stem(w))
    ensures forall k :: k in ExtractKeywords(svc, text, topN) ==>
      exists w :: w in Words(svc.tables, Lower(svc.tables, text)) && w !in svc.stopwords && k == svc.stem(w)
  {
    var tokens := Words(svc.tables, Lower(svc.tables, text));
    var content := WithoutStopwords(svc.stopwords, tokens);
    var ws := KeywordCandidates(svc, text);
    KeywordCandidatesAreStems(svc, text);
    Frequency.MostCommonSize(ws, topN);
    forall k | k in ExtractKeywords(svc, text, topN)
      ensures exists w :: w in tokens && w !in svc.stopwords && k == svc.stem(w)
    {
      var j :| 0 <= j < |ws| && ws[j] == k;
      assert content[j] in content;
    }
  }
}
