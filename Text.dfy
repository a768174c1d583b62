/** The string primitives of Python that the pipeline is built from:
    `str.strip`, `str.split()` (on whitespace), `str.split(sep)`, `sep.join`,
    `str.lower` and the substring test `a in b`.

    Python's Unicode character tables are not reproduced: the regular
    expression class `\w`, the whitespace predicate shared by `\s`,
    `str.isspace`, `str.split()` and `str.strip()`, and the per-character
    lowercase mapping are the fields of a `CharTables` value, and each proof
    states the few facts about them that it relies on. */
module Text {
  import opened Wrappers

  datatype CharTables = CharTables(
    isWord: char -> bool,   // `\w`
    isSpace: char -> bool,  // `\s`, str.isspace
    lower: char -> char)    // str.lower, one character at a time

  /** What every proof about concrete text may assume of Python's tables:
      they agree with ASCII on the printable characters and the usual
      whitespace characters. */
  predicate AsciiConforming(t: CharTables) {
    && t.isSpace(' ') && t.isSpace('\t') && t.isSpace('\n') && t.isSpace('\r')
    && (forall c :: '!' <= c <= '~' ==> !t.isSpace(c))
    && (forall c :: 'A' <= c <= 'Z' ==> t.lower(c) == (c as int + 32) as char)
    && (forall c :: ' ' <= c <= '~' && !('A' <= c <= 'Z') ==> t.lower(c) == c)
  }

  predicate AllSpace(t: CharTables, s: string) {
    forall i :: 0 <= i < |s| ==> t.isSpace(s[i])
  }

  predicate NoSpace(t: CharTables, s: string) {
    forall i :: 0 <= i < |s| ==> !t.isSpace(s[i])
  }

  /** A token of `str.split()`: non-empty and free of whitespace. */
  predicate IsToken(t: CharTables, w: string) {
    w != [] && NoSpace(t, w)
  }

  /** `s.lower()`. */
  function Lower(t: CharTables, s: string): (r: string)
    ensures |r| == |s|
    ensures forall i :: 0 <= i < |s| ==> r[i] == t.lower(s[i])
  {
    seq(|s|, i requires 0 <= i < |s| => t.lower(s[i]))
  }

  /** Slicing a suffix is slicing the original further along. */
  lemma {:induction false} SliceOfSlice(s: string, a: nat, c: nat)
    requires a + c <= |s|
    ensures s[a..][..c] == s[a..a + c]
    ensures s[a..][c..] == s[a + c..]
  {
  }

  /** `s.lstrip()`: the suffix of `s` left after its leading whitespace. */
  function TrimLeft(t: CharTables, s: string): (r: string)
    ensures |r| <= |s| && r == s[|s| - |r|..]
    ensures AllSpace(t, s[..|s| - |r|])
    ensures r == [] || !t.isSpace(r[0])
  {
    if s == [] || !t.isSpace(s[0]) then s
    else
      var r := TrimLeft(t, s[1..]);
      TrimLeftStep(t, s, r);
      r
  }

  /** A leading whitespace character joins the run `lstrip` removes. */
  lemma {:induction false} TrimLeftStep(t: CharTables, s: string, r: string)
    requires s != [] && t.isSpace(s[0])
    requires |r| <= |s| - 1 && r == s[1..][|s| - 1 - |r|..]
    requires AllSpace(t, s[1..][..|s| - 1 - |r|])
    ensures r == s[|s| - |r|..]
    ensures AllSpace(t, s[..|s| - |r|])
  {
    var m := |s| - 1 - |r|;
    SliceOfSlice(s, 1, m);
    var w := s[..m + 1];
    forall i | 0 <= i < |w| ensures t.isSpace(w[i]) {
      if i > 0 {
        assert w[i] == s[1..1 + m][i - 1];
      }
    }
  }

  /** `s.rstrip()`: the prefix of `s` left before its trailing whitespace. */
  function TrimRight(t: CharTables, s: string): (r: string)
    ensures |r| <= |s| && r == s[..|r|]
    ensures AllSpace(t, s[|r|..])
    ensures r == [] || !t.isSpace(r[|r| - 1])
  {
    if s == [] || !t.isSpace(s[|s| - 1]) then s
    else
      var r := TrimRight(t, s[..|s| - 1]);
      TrimRightStep(t, s, r);
      r
  }

  /** One step of `TrimRight`: dropping a trailing whitespace character and
      trimming the rest trims `s`. */
  lemma {:induction false} TrimRightStep(t: CharTables, s: string, r: string)
    requires s != [] && t.isSpace(s[|s| - 1])
    requires |r| <= |s| - 1 && r == s[..|s| - 1][..|r|]
    requires AllSpace(t, s[..|s| - 1][|r|..])
    ensures r == s[..|r|] && AllSpace(t, s[|r|..])
  {
    var m := |s| - 1;
    assert s[..m][..|r|] == s[..|r|];
    var w := s[|r|..];
    forall i | 0 <= i < |w| ensures t.isSpace(w[i]) {
      if i < |w| - 1 { assert w[i] == s[..m][|r|..][i]; }
    }
  }

  /** Number of leading whitespace characters of `s`. */
  function LeadingSpaces(t: CharTables, s: string): (n: nat)
    ensures n <= |s| && AllSpace(t, s[..n])
    ensures forall i :: 0 <= i < n ==> t.isSpace(s[i])
    ensures n == |s| || !t.isSpace(s[n])
  {
    var n := |s| - |TrimLeft(t, s)|;
    assert forall i :: 0 <= i < n ==> s[..n][i] == s[i];
    n
  }

  /** `s.strip()`: the slice of `s` between its leading and its trailing
      whitespace. */
  function Strip(t: CharTables, s: string): (r: string)
    ensures LeadingSpaces(t, s) + |r| <= |s|
    ensures r == s[LeadingSpaces(t, s)..LeadingSpaces(t, s) + |r|]
    ensures AllSpace(t, s[LeadingSpaces(t, s) + |r|..])
    ensures r == [] || (!t.isSpace(r[0]) && !t.isSpace(r[|r| - 1]))
  {
    var u := TrimLeft(t, s);
    var r := TrimRight(t, u);
    var n := LeadingSpaces(t, s);
    assert n == |s| - |u| && u == s[n..];
    SliceOfSlice(s, n, |r|);
    r
  }

  /** A string strips to nothing exactly when it is all whitespace. */
  lemma {:induction false} StripBlank(t: CharTables, s: string)
    ensures Strip(t, s) == [] <==> AllSpace(t, s)
  {
    var n := LeadingSpaces(t, s);
    if Strip(t, s) == [] {
      assert s[..n] == s;
    } else {
      var r := Strip(t, s);
      assert s[n] == r[0];
    }
  }

  lemma {:induction false} StripOfClean(t: CharTables, s: string)
    requires s == [] || (!t.isSpace(s[0]) && !t.isSpace(s[|s| - 1]))
    ensures Strip(t, s) == s
  {
  }

  /** Length of the leading run of non-whitespace characters of `s`. */
  function TokenLength(t: CharTables, s: string): (n: nat)
    ensures n <= |s| && NoSpace(t, s[..n])
    ensures n == |s| || t.isSpace(s[n])
  {
    if s == [] || t.isSpace(s[0]) then 0
    else
      var m := TokenLength(t, s[1..]);
      assert s[..m + 1] == [s[0]] + s[1..][..m];
      m + 1
  }

  /** `s.split()`: the maximal runs of non-whitespace characters, in order. */
  function Words(t: CharTables, s: string): (ws: seq<string>)
    ensures forall i :: 0 <= i < |ws| ==> IsToken(t, ws[i])
    decreases |s|
  {
    var u := TrimLeft(t, s);
    if u == [] then []
    else
      var n := TokenLength(t, u);
      [u[..n]] + Words(t, u[n..])
  }

  /** The two halves of a concatenation. */
  lemma {:induction false} ConcatSlices(a: string, b: string)
    ensures (a + b)[..|a|] == a && (a + b)[|a|..] == b
  {
  }

  /** A non-empty sequence is its head followed by its tail. */
  lemma {:induction false} HeadTail(s: string)
    requires s != []
    ensures s == [s[0]] + s[1..]
  {
  }

  lemma {:induction false} TailOfConcat(b: string, rest: string)
    requires b != []
    ensures (b + rest)[1..] == b[1..] + rest
    ensures b + rest == [b[0]] + (b[1..] + rest)
  {
    assert b == [b[0]] + b[1..];
  }

  /** A non-space character in front of a text that starts with a token
      joins that token. */
  lemma {:induction false} WordsConsNonSpace(t: CharTables, x: char, a: string)
    requires !t.isSpace(x) && a != [] && !t.isSpace(a[0])
    ensures Words(t, a) != [] && Words(t, [x] + a) == [[x] + Words(t, a)[0]] + Words(t, a)[1..]
  {
    var m := TokenLength(t, a);
    var w, rest := a[..m], a[m..];
    TokenSplit(t, a, m);
    ConsToken(t, x, w);
    WordsOfToken(t, w, rest);
    WordsOfToken(t, [x] + w, rest);
    ConsAssoc(x, w, rest);
    var ws := Words(t, a);
    assert ws == [w] + Words(t, rest);
    assert ws[0] == w && ws[1..] == Words(t, rest);
  }

  lemma {:induction false} ConsAssoc(x: char, w: string, rest: string)
    ensures [x] + (w + rest) == ([x] + w) + rest
  {
  }

  /** A text starting with a non-space character is its first token and
      what follows it. */
  lemma {:induction false} TokenSplit(t: CharTables, a: string, m: nat)
    requires a != [] && !t.isSpace(a[0]) && m == TokenLength(t, a)
    ensures 1 <= m <= |a| && IsToken(t, a[..m]) && a == a[..m] + a[m..]
    ensures a[m..] == [] || t.isSpace(a[m..][0])
  {
    assert a[..1] == [a[0]];
  }

  /** A non-space character in front of a token makes a token. */
  lemma {:induction false} ConsToken(t: CharTables, x: char, w: string)
    requires !t.isSpace(x) && NoSpace(t, w)
    ensures IsToken(t, [x] + w)
  {
    forall i | 0 <= i < |[x] + w| ensures !t.isSpace(([x] + w)[i]) {
      if i > 0 { assert ([x] + w)[i] == w[i - 1]; }
    }
  }

  /** A non-space character in front of two texts with the same tokens and
      the same kind of first character gives the same tokens. */
  lemma {:induction false} WordsCons(t: CharTables, x: char, a: string, b: string)
    requires !t.isSpace(x) && Words(t, a) == Words(t, b)
    requires a == [] <==> b == []
    requires a != [] && b != [] ==> (t.isSpace(a[0]) <==> t.isSpace(b[0]))
    ensures Words(t, [x] + a) == Words(t, [x] + b)
  {
    assert IsToken(t, [x]);
    if a == [] || t.isSpace(a[0]) {
      WordsOfToken(t, [x], a);
      WordsOfToken(t, [x], b);
    } else {
      WordsConsNonSpace(t, x, a);
      WordsConsNonSpace(t, x, b);
    }
  }

  /** Leading whitespace does not change the tokens. */
  lemma {:induction false} WordsTrimLeft(t: CharTables, s: string)
    ensures Words(t, TrimLeft(t, s)) == Words(t, s)
  {
    var u := TrimLeft(t, s);
    assert TrimLeft(t, u) == u;
  }

  /** Trailing whitespace does not change the tokens. */
  lemma {:induction false} WordsTrailingSpace(t: CharTables, a: string, w: string)
    requires AllSpace(t, w)
    ensures Words(t, a + w) == Words(t, a)
    decreases |a|
  {
    if a == [] {
      assert a + w == w;
      assert TrimLeft(t, w) == [];
    } else if t.isSpace(a[0]) {
      TailOfConcat(a, w);
      WordsAfterSpace(t, a[0], a[1..] + w);
      HeadTail(a);
      WordsAfterSpace(t, a[0], a[1..]);
      WordsTrailingSpace(t, a[1..], w);
    } else {
      var m := TokenLength(t, a);
      assert m >= 1 by { assert a[..1] == [a[0]]; }
      var tok, rest := a[..m], a[m..];
      assert a == tok + rest;
      WordsOfToken(t, tok, rest);
      assert a + w == tok + (rest + w);
      assert rest + w == [] || t.isSpace((rest + w)[0]);
      WordsOfToken(t, tok, rest + w);
      WordsTrailingSpace(t, rest, w);
    }
  }

  /** A suffix is its first `m` characters and the rest. */
  lemma {:induction false} SuffixSplit(s: string, n: nat, m: nat)
    requires n + m <= |s|
    ensures s[n..] == s[n..n + m] + s[n + m..]
  {
  }

  /** `s.lstrip()` is `s.strip()` followed by the trailing whitespace. */
  lemma {:induction false} TrimLeftIsStripAndTail(t: CharTables, s: string, tail: string)
    requires tail == s[LeadingSpaces(t, s) + |Strip(t, s)|..]
    ensures TrimLeft(t, s) == Strip(t, s) + tail && AllSpace(t, tail)
  {
    var n := LeadingSpaces(t, s);
    var r := Strip(t, s);
    var u := TrimLeft(t, s);
    assert n == |s| - |u|;
    SuffixSplit(s, n, |r|);
  }

  /** `s.strip().split() == s.split()`. */
  lemma {:induction false} WordsOfStrip(t: CharTables, s: string)
    ensures Words(t, Strip(t, s)) == Words(t, s)
  {
    var tail := s[LeadingSpaces(t, s) + |Strip(t, s)|..];
    TrimLeftIsStripAndTail(t, s, tail);
    WordsTrailingSpace(t, Strip(t, s), tail);
    WordsTrimLeft(t, s);
  }

  /** `sep.join(ws)`. */
  function Join(ws: seq<string>, sep: string): string {
    if ws == [] then []
    else if |ws| == 1 then ws[0]
    else ws[0] + sep + Join(ws[1..], sep)
  }

  lemma {:induction false} WordsAfterSpace(t: CharTables, c: char, s: string)
    requires t.isSpace(c)
    ensures Words(t, [c] + s) == Words(t, s)
  {
    assert ([c] + s)[1..] == s;
  }

  lemma {:induction false} WordsOfToken(t: CharTables, w: string, rest: string)
    requires IsToken(t, w)
    requires rest == [] || t.isSpace(rest[0])
    ensures Words(t, w + rest) == [w] + Words(t, rest)
  {
    var s := w + rest;
    assert s[0] == w[0];
    assert TrimLeft(t, s) == s;
    TokenLengthOf(t, w, rest);
    ConcatSlices(w, rest);
  }

  lemma {:induction false} TokenLengthOf(t: CharTables, w: string, rest: string)
    requires NoSpace(t, w)
    requires rest == [] || t.isSpace(rest[0])
    ensures TokenLength(t, w + rest) == |w|
    decreases |w|
  {
    if w == [] {
      assert w + rest == rest;
    } else {
      assert (w + rest)[1..] == w[1..] + rest;
      TokenLengthOf(t, w[1..], rest);
    }
  }

  /** A join of two or more strings is the first, the separator, and the
      join of the rest. */
  lemma {:induction false} JoinUnfold(ws: seq<string>, sep: string)
    requires |ws| >= 2
    ensures ws == [ws[0]] + ws[1..]
    ensures Join(ws, sep) == ws[0] + (sep + Join(ws[1..], sep))
  {
    assert ws == [ws[0]] + ws[1..];
  }

  /** A single token splits into itself. */
  lemma {:induction false} WordsOfOneToken(t: CharTables, w: string)
    requires IsToken(t, w)
    ensures Words(t, w) == [w]
  {
    WordsOfToken(t, w, []);
    assert w + [] == w;
  }

  /** A token followed by a space splits into the token and the words after
      the space. */
  lemma {:induction false} WordsOfJoinStep(t: CharTables, w: string, rest: string)
    requires t.isSpace(' ') && IsToken(t, w)
    ensures Words(t, w + (" " + rest)) == [w] + Words(t, rest)
  {
    var sp := " " + rest;
    assert sp == [' '] + rest;
    WordsOfToken(t, w, sp);
    WordsAfterSpace(t, ' ', rest);
  }

  /** Splitting a single-space join of tokens gives the tokens back: the
      round trip between `' '.join` and `str.split()`. */
  lemma {:induction false} WordsOfJoin(t: CharTables, ws: seq<string>)
    requires t.isSpace(' ')
    requires forall i :: 0 <= i < |ws| ==> IsToken(t, ws[i])
    ensures Words(t, Join(ws, " ")) == ws
  {
    if ws == [] {
    } else if |ws| == 1 {
      WordsOfJoinSingle(t, ws);
    } else {
      WordsOfJoin(t, ws[1..]);
      WordsOfJoinCons(t, ws);
    }
  }

  lemma {:induction false} WordsOfJoinSingle(t: CharTables, ws: seq<string>)
    requires |ws| == 1 && IsToken(t, ws[0])
    ensures Words(t, Join(ws, " ")) == ws
  {
    WordsOfOneToken(t, ws[0]);
    assert ws == [ws[0]];
  }

  lemma {:induction false} WordsOfJoinCons(t: CharTables, ws: seq<string>)
    requires t.isSpace(' ') && |ws| >= 2 && IsToken(t, ws[0])
    requires Words(t, Join(ws[1..], " ")) == ws[1..]
    ensures Words(t, Join(ws, " ")) == ws
  {
    JoinUnfold(ws, " ");
    WordsOfJoinStep(t, ws[0], Join(ws[1..], " "));
  }

  // ---------------------------------------------------------------------
  // Substrings

  predicate StartsWith(s: string, p: string) {
    |p| <= |s| && s[..|p|] == p
  }

  predicate OccursAt(s: string, p: string, i: nat) {
    i + |p| <= |s| && s[i..i + |p|] == p
  }

  /** Python's `p in s` on strings. */
  predicate Contains(s: string, p: string) {
    exists i: nat | i <= |s| :: OccursAt(s, p, i)
  }

  /** The leftmost occurrence of `p` in `s` at or after `k`. */
  function FindFrom(s: string, p: string, k: nat): (r: Option<nat>)
    requires k <= |s|
    ensures r.Some? ==> k <= r.value && OccursAt(s, p, r.value)
    ensures r.Some? ==> forall j: nat :: k <= j < r.value ==> !OccursAt(s, p, j)
    ensures r.None? ==> forall j: nat :: k <= j ==> !OccursAt(s, p, j)
    decreases |s| - k
  {
    if OccursAt(s, p, k) then Some(k)
    else if k == |s| then None
    else FindFrom(s, p, k + 1)
  }

  /** `s.find(p)`, leftmost occurrence. */
  function Find(s: string, p: string): (r: Option<nat>)
    ensures r.Some? <==> Contains(s, p)
    ensures r.Some? ==> OccursAt(s, p, r.value)
    ensures r.Some? ==> forall j: nat :: j < r.value ==> !OccursAt(s, p, j)
  {
    FindFrom(s, p, 0)
  }

  /** An occurrence in a slice is an occurrence in the whole string. */
  lemma {:induction false} OccursInSlice(s: string, p: string, a: nat, b: nat, i: nat)
    requires a <= b <= |s|
    requires OccursAt(s[a..b], p, i)
    ensures OccursAt(s, p, a + i)
  {
    forall k | 0 <= k < |p| ensures s[a + i + k] == p[k] {
      assert s[a..b][i..i + |p|][k] == p[k];
    }
    assert s[a + i..a + i + |p|] == p;
  }

  /** A slice of a string that does not contain `p` does not contain it either. */
  lemma {:induction false} NotContainsSlice(s: string, p: string, a: nat, b: nat)
    requires a <= b <= |s|
    requires !Contains(s, p)
    ensures !Contains(s[a..b], p)
  {
    if Contains(s[a..b], p) {
      var i: nat :| i <= b - a && OccursAt(s[a..b], p, i);
      OccursInSlice(s, p, a, b, i);
    }
  }

  /** `s.split(sep)`: the pieces between the non-overlapping occurrences of
      `sep`, found left to right. */
  function SplitOn(s: string, sep: string): (r: seq<string>)
    requires sep != []
    ensures |r| >= 1
    ensures (|r| == 1) <==> !Contains(s, sep)
    ensures forall i :: 0 <= i < |r| ==> !Contains(r[i], sep)
    ensures |r| > 1 ==> Find(s, sep) == Some(|r[0]|) && r[0] == s[..|r[0]|]
    decreases |s|
  {
    match Find(s, sep)
    case None => [s]
    case Some(i) =>
      var piece := s[..i];
      assert !Contains(piece, sep) by {
        if Contains(piece, sep) {
          var j: nat :| j <= i && OccursAt(piece, sep, j);
          assert piece == s[0..i];
          OccursInSlice(s, sep, 0, i, j);
        }
      }
      [piece] + SplitOn(s[i + |sep|..], sep)
  }

  /** Joining the pieces of a split with the separator restores the input. */
  lemma {:induction false} JoinCons(x: string, rest: seq<string>, sep: string)
    requires rest != []
    ensures Join([x] + rest, sep) == x + sep + Join(rest, sep)
  {
    assert ([x] + rest)[1..] == rest;
  }

  lemma {:induction false} SplitOnUnfold(s: string, sep: string, i: nat)
    requires sep != [] && Find(s, sep) == Some(i)
    ensures i + |sep| <= |s| && s == s[..i] + sep + s[i + |sep|..]
    ensures SplitOn(s, sep) == [s[..i]] + SplitOn(s[i + |sep|..], sep)
  {
    ThreeParts(s, i, |sep|);
  }

  /** A string is its prefix, a middle slice and its suffix. */
  lemma {:induction false} ThreeParts(s: string, i: nat, m: nat)
    requires i + m <= |s|
    ensures s == s[..i] + s[i..i + m] + s[i + m..]
  {
    assert s[i..] == s[i..i + m] + s[i + m..];
    assert s == s[..i] + s[i..];
  }

  lemma {:induction false} JoinSplitOn(s: string, sep: string)
    requires sep != []
    ensures Join(SplitOn(s, sep), sep) == s
    decreases |s|
  {
    var f := Find(s, sep);
    if f.Some? {
      var i := f.value;
      var rest := s[i + |sep|..];
      SplitOnUnfold(s, sep, i);
      JoinCons(s[..i], SplitOn(rest, sep), sep);
      JoinSplitOn(rest, sep);
    }
  }

  /** Where the `i`th piece of a split starts in the text: after the earlier
      pieces and one separator after each. */
  function PieceStart(r: seq<string>, sep: string, i: nat): nat
    requires i <= |r|
  {
    if i == 0 then 0 else PieceStart(r, sep, i - 1) + |r[i - 1]| + |sep|
  }

  /** The leftmost occurrence at or after `d + o` is the one after `o` in the
      suffix from `d`, moved by `d`. */
  lemma {:induction false} FindFromSuffix(s: string, p: string, d: nat, o: nat)
    requires d + o <= |s|
    ensures FindFrom(s, p, d + o).None? <==> FindFrom(s[d..], p, o).None?
    ensures FindFrom(s, p, d + o).Some? ==> FindFrom(s, p, d + o).value == d + FindFrom(s[d..], p, o).value
    decreases |s| - d - o
  {
    var u := s[d..];
    assert OccursAt(s, p, d + o) <==> OccursAt(u, p, o) by {
      if d + o + |p| <= |s| {
        assert u[o..o + |p|] == s[d + o..d + o + |p|];
      }
    }
    if !OccursAt(s, p, d + o) && d + o < |s| {
      FindFromSuffix(s, p, d, o + 1);
    }
  }

  lemma {:induction false} PieceStartCons(x: string, rest: seq<string>, sep: string, i: nat)
    requires 1 <= i <= |rest| + 1
    ensures PieceStart([x] + rest, sep, i) == |x| + |sep| + PieceStart(rest, sep, i - 1)
  {
    var r := [x] + rest;
    if i > 1 {
      PieceStartCons(x, rest, sep, i - 1);
      assert r[i - 1] == rest[i - 2];
    }
  }

  /** Piece `i` of `r` is the text from its start up to the first `sep` at
      or after that start; the last piece has no `sep` after its start and
      runs to the end of the text. */
  predicate CutAt(s: string, sep: string, r: seq<string>, i: nat)
    requires i < |r|
  {
    var a := PieceStart(r, sep, i);
    && a + |r[i]| <= |s|
    && r[i] == s[a..a + |r[i]|]
    && (i < |r| - 1 ==> FindFrom(s, sep, a) == Some(a + |r[i]|))
    && (i == |r| - 1 ==> FindFrom(s, sep, a) == None && a + |r[i]| == |s|)
  }

  /** Every cut of `s.split(sep)` is the leftmost occurrence of `sep` after
      the previous cut, and the pieces cover the text. */
  lemma {:induction false} SplitOnCuts(s: string, sep: string)
    requires sep != []
    ensures var r := SplitOn(s, sep);
      forall i :: 0 <= i < |r| ==> CutAt(s, sep, r, i)
    decreases |s|
  {
    var r := SplitOn(s, sep);
    var f := Find(s, sep);
    if f.None? {
      assert r == [s];
      assert s[0..|s|] == s;
      assert CutAt(s, sep, r, 0);
    } else {
      var c := f.value;
      var d := c + |sep|;
      SplitOnUnfold(s, sep, c);
      var rest := SplitOn(s[d..], sep);
      assert r == [s[..c]] + rest;
      assert CutAt(s, sep, r, 0) by {
        assert s[0..c] == s[..c];
      }
      SplitOnCuts(s[d..], sep);
      forall i | 1 <= i < |r| ensures CutAt(s, sep, r, i) {
        PieceCut(s, sep, s[..c], r, rest, i);
      }
    }
  }

  /** One later piece of a split, moved from the suffix after the first cut. */
  lemma {:induction false} PieceCut(s: string, sep: string, x: string, r: seq<string>, rest: seq<string>, i: nat)
    requires |x| + |sep| <= |s|
    requires r == [x] + rest && 1 <= i < |r|
    requires CutAt(s[|x| + |sep|..], sep, rest, i - 1)
    ensures CutAt(s, sep, r, i)
  {
    var d := |x| + |sep|;
    PieceStartCons(x, rest, sep, i);
    assert r[i] == rest[i - 1];
    ShiftPiece(s, sep, d, PieceStart(rest, sep, i - 1), r, i);
  }

  /** A piece found in the suffix from `d` is a piece of the whole text, `d`
      further on. */
  lemma {:induction false} ShiftPiece(s: string, sep: string, d: nat, o: nat, r: seq<string>, i: nat)
    requires i < |r| && d + o == PieceStart(r, sep, i)
    requires d <= |s| && o + |r[i]| <= |s| - d
    requires r[i] == s[d..][o..o + |r[i]|]
    requires i < |r| - 1 ==> FindFrom(s[d..], sep, o) == Some(o + |r[i]|)
    requires i == |r| - 1 ==> FindFrom(s[d..], sep, o) == None && o + |r[i]| == |s| - d
    ensures CutAt(s, sep, r, i)
  {
    var a := d + o;
    var w := r[i];
    SliceOfSuffix(s, d, o, |w|);
    assert w == s[a..a + |w|];
    FindFromSuffix(s, sep, d, o);
    if i < |r| - 1 {
      assert FindFrom(s, sep, a) == Some(a + |w|);
    } else {
      assert FindFrom(s, sep, a) == None;
    }
  }

  lemma {:induction false} SliceOfSuffix(s: string, d: nat, o: nat, m: nat)
    requires d + o + m <= |s|
    ensures s[d..][o..o + m] == s[d + o..d + o + m]
  {
  }
}
