/** The frequency ranking that `extract_keywords` takes from the Python
    library: `Counter(words).most_common(n)`.

    `Counter` keeps its keys in insertion order, that is, in order of first
    occurrence; `most_common(n)` sorts the (key, count) pairs by descending
    count with a stable sort, so equal counts stay in first-occurrence order,
    and keeps the first `n` (none when `n <= 0`). */
module Frequency {

  /** The ranking only ever sees the words of a text. */
  type Word = string

  /** The value `Counter(ws)[w]`. */
  function Count(ws: seq<Word>, w: Word): nat {
    multiset(ws)[w]
  }

  /** The position of the first occurrence of `w` in `ws`. */
  function FirstIndex(ws: seq<Word>, w: Word): (k: nat)
    requires w in ws
    ensures k < |ws| && ws[k] == w
    ensures forall j :: 0 <= j < k ==> ws[j] != w
  {
    if ws[0] == w then 0 else 1 + FirstIndex(ws[1..], w)
  }

  predicate NoDuplicates(s: seq<Word>) {
    forall i, j :: 0 <= i < j < |s| ==> s[i] != s[j]
  }

  lemma {:induction false} FirstIndexSnoc(p: seq<Word>, x: Word, y: Word)
    requires y in p
    ensures FirstIndex(p + [x], y) == FirstIndex(p, y)
  {
    if p[0] != y {
      assert (p + [x])[1..] == p[1..] + [x];
      FirstIndexSnoc(p[1..], x, y);
    }
  }

  /** The keys of `Counter(ws)`, in insertion order: every element of `ws`
      once, ordered by first occurrence. */
  function Distinct(ws: seq<Word>): (d: seq<Word>)
    ensures forall x :: x in d <==> x in ws
    ensures forall i, j :: 0 <= i < j < |d| ==> FirstIndex(ws, d[i]) < FirstIndex(ws, d[j])
  {
    if ws == [] then []
    else
      var p, x := ws[..|ws| - 1], ws[|ws| - 1];
      assert ws == p + [x];
      var d := Distinct(p);
      forall y | y in p ensures FirstIndex(ws, y) == FirstIndex(p, y) {
        FirstIndexSnoc(p, x, y);
      }
      if x in d then d else d + [x]
  }

  lemma {:induction false} DistinctNoDuplicates(ws: seq<Word>)
    ensures NoDuplicates(Distinct(ws))
  {
    var d := Distinct(ws);
    forall i, j | 0 <= i < j < |d| ensures d[i] != d[j] {
      assert FirstIndex(ws, d[i]) < FirstIndex(ws, d[j]);
    }
  }

  /** `a` is listed before `b` by `most_common`: it has the higher count, or
      the same count and an earlier first occurrence. */
  predicate Precedes(ws: seq<Word>, a: Word, b: Word) {
    && a in ws && b in ws
    && (|| Count(ws, a) > Count(ws, b)
        || (Count(ws, a) == Count(ws, b) && FirstIndex(ws, a) < FirstIndex(ws, b)))
  }

  /** `s` is strictly ordered by `Precedes`. */
  predicate Ranked(ws: seq<Word>, s: seq<Word>) {
    forall i, j :: 0 <= i < j < |s| ==> Precedes(ws, s[i], s[j])
  }

  /** One step of the stable sort: `x` goes in front of the first element
      whose count does not exceed its own. */
  function Insert(ws: seq<Word>, x: Word, s: seq<Word>): (r: seq<Word>)
    ensures multiset(r) == multiset(s) + multiset{x}
  {
    if s == [] then [x]
    else if Count(ws, x) >= Count(ws, s[0]) then [x] + s
    else
      assert s == [s[0]] + s[1..];
      [s[0]] + Insert(ws, x, s[1..])
  }

  /** The stable sort by descending count. */
  function Rank(ws: seq<Word>, d: seq<Word>): (r: seq<Word>)
    ensures multiset(r) == multiset(d)
  {
    if d == [] then []
    else
      assert d == [d[0]] + d[1..];
      Insert(ws, d[0], Rank(ws, d[1..]))
  }

  /** The first `n` elements of `s`, none for `n <= 0`: the cut `heapq.nlargest(n, ...)`
      makes inside `most_common(n)` (unlike `s[:n]` for negative `n`). */
  function Take(s: seq<Word>, n: int): (r: seq<Word>)
    ensures |r| == if n <= 0 then 0 else if n < |s| then n else |s|
    ensures r == s[..|r|]
  {
    if n <= 0 then [] else if n < |s| then s[..n] else s
  }

  /** `Counter(ws).most_common(n)`, keys only. */
  function MostCommon(ws: seq<Word>, n: int): seq<Word> {
    Take(Rank(ws, Distinct(ws)), n)
  }

  /** An element placed in front of a ranked list whose head it does not
      count less than, and which it occurs before, keeps the list ranked. */
  lemma {:induction false} RankedCons(ws: seq<Word>, x: Word, s: seq<Word>)
    requires x in ws && Ranked(ws, s) && s != [] && Count(ws, x) >= Count(ws, s[0])
    requires forall y :: y in s ==> y in ws && FirstIndex(ws, x) < FirstIndex(ws, y)
    ensures Ranked(ws, [x] + s)
  {
    var r := [x] + s;
    forall i, j | 0 <= i < j < |r| ensures Precedes(ws, r[i], r[j]) {
      assert r[j] == s[j - 1];
      if i == 0 {
        assert s[j - 1] in s;
        if j > 1 { assert Precedes(ws, s[0], s[j - 1]); }
      } else {
        assert r[i] == s[i - 1];
      }
    }
  }

  /** A ranked list stays ranked under a new head that precedes every element. */
  lemma {:induction false} RankedHead(ws: seq<Word>, h: Word, t: seq<Word>)
    requires Ranked(ws, t)
    requires forall y :: y in t ==> Precedes(ws, h, y)
    ensures Ranked(ws, [h] + t)
  {
    var r := [h] + t;
    forall i, j | 0 <= i < j < |r| ensures Precedes(ws, r[i], r[j]) {
      assert r[j] == t[j - 1];
      if i == 0 {
        assert t[j - 1] in t;
      } else {
        assert r[i] == t[i - 1];
      }
    }
  }

  /** Inserting an element that occurs earlier than all of a ranked list keeps it ranked. */
  lemma {:induction false} InsertRanked(ws: seq<Word>, x: Word, s: seq<Word>)
    requires x in ws && Ranked(ws, s)
    requires forall y :: y in s ==> y in ws && FirstIndex(ws, x) < FirstIndex(ws, y)
    ensures Ranked(ws, Insert(ws, x, s))
  {
    if s == [] {
    } else if Count(ws, x) >= Count(ws, s[0]) {
      RankedCons(ws, x, s);
    } else {
      var tail := s[1..];
      assert s == [s[0]] + tail;
      forall y | y in tail ensures y in s { }
      forall i, j | 0 <= i < j < |tail| ensures Precedes(ws, tail[i], tail[j]) {
        assert tail[i] == s[i + 1] && tail[j] == s[j + 1];
      }
      InsertRanked(ws, x, tail);
      var t := Insert(ws, x, tail);
      forall y | y in t ensures Precedes(ws, s[0], y) {
        assert y in multiset(t);
        assert y == x || y in tail;
        if y != x {
          var k :| 0 <= k < |tail| && tail[k] == y;
          assert s[k + 1] == y;
        }
      }
      RankedHead(ws, s[0], t);
    }
  }

  /** Sorting a list kept in first-occurrence order gives a ranked list. */
  lemma {:induction false} RankRanked(ws: seq<Word>, d: seq<Word>)
    requires forall x :: x in d ==> x in ws
    requires forall i, j :: 0 <= i < j < |d| ==> FirstIndex(ws, d[i]) < FirstIndex(ws, d[j])
    ensures Ranked(ws, Rank(ws, d))
  {
    if d != [] {
      var tail := d[1..];
      forall x | x in tail ensures x in d { }
      forall i, j | 0 <= i < j < |tail| ensures FirstIndex(ws, tail[i]) < FirstIndex(ws, tail[j]) {
        assert tail[i] == d[i + 1] && tail[j] == d[j + 1];
      }
      RankRanked(ws, tail);
      var r := Rank(ws, tail);
      forall y | y in r ensures y in ws && FirstIndex(ws, d[0]) < FirstIndex(ws, y) {
        assert y in multiset(r);
        var k :| 0 <= k < |tail| && tail[k] == y;
        assert d[k + 1] == y;
      }
      InsertRanked(ws, d[0], r);
    }
  }

  /** The full ranking lists every distinct element exactly once, in `Precedes` order. */
  lemma {:induction false} RankDistinct(ws: seq<Word>)
    ensures var ranked := Rank(ws, Distinct(ws));
      && |ranked| == |Distinct(ws)|
      && (forall x :: x in ranked <==> x in ws)
      && Ranked(ws, ranked)
  {
    var d := Distinct(ws);
    var ranked := Rank(ws, d);
    RankRanked(ws, d);
    assert |multiset(ranked)| == |multiset(d)|;
    forall x ensures x in ranked <==> x in ws {
      assert x in ranked <==> x in multiset(ranked);
      assert x in d <==> x in multiset(d);
    }
  }

  /** The size of `most_common(n)`: `n` when there are at least `n` distinct
      elements, all of them otherwise, none for `n <= 0`. Every element is an
      element of `ws`, listed once. */
  lemma {:induction false} MostCommonSize(ws: seq<Word>, n: int)
    ensures |MostCommon(ws, n)| ==
      (if n <= 0 then 0 else if n < |Distinct(ws)| then n else |Distinct(ws)|)
    ensures NoDuplicates(MostCommon(ws, n))
    ensures forall x :: x in MostCommon(ws, n) ==> x in ws
    ensures n >= |Distinct(ws)| ==> forall w :: w in ws ==> w in MostCommon(ws, n)
  {
    var ranked := Rank(ws, Distinct(ws));
    RankDistinct(ws);
    var r := MostCommon(ws, n);
    assert r == ranked[..|r|];
    forall i, j | 0 <= i < j < |r| ensures r[i] != r[j] {
      assert Precedes(ws, ranked[i], ranked[j]);
    }
    forall x | x in r ensures x in ranked {
      var k :| 0 <= k < |r| && r[k] == x;
      assert ranked[k] == x;
    }
  }

  /** The order of `most_common(n)`: counts never increase along the result,
      equal counts keep first-occurrence order, and the last one returned
      precedes every word left out: a higher count, or the same count and an
      earlier first occurrence. */
  lemma {:induction false} MostCommonOrder(ws: seq<Word>, n: int)
    ensures var r := MostCommon(ws, n);
      && (forall i, j :: 0 <= i < j < |r| ==> Count(ws, r[i]) >= Count(ws, r[j]))
      && (forall i, j :: 0 <= i < j < |r| && Count(ws, r[i]) == Count(ws, r[j]) ==>
            r[i] in ws && r[j] in ws && FirstIndex(ws, r[i]) < FirstIndex(ws, r[j]))
      && (forall w :: w in ws && w !in r && r != [] ==> Precedes(ws, r[|r| - 1], w))
  {
    var ranked := Rank(ws, Distinct(ws));
    RankDistinct(ws);
    var r := MostCommon(ws, n);
    forall i, j | 0 <= i < j < |r| ensures Precedes(ws, r[i], r[j]) {
      assert r[i] == ranked[i] && r[j] == ranked[j];
    }
    forall w | w in ws && w !in r && r != [] ensures Precedes(ws, r[|r| - 1], w) {
      var k :| 0 <= k < |ranked| && ranked[k] == w;
      assert Precedes(ws, ranked[|r| - 1], ranked[k]);
    }
  }

  /** What `most_common(n)` promises of its answer `r` for the words `ws`:
      `min(n, number of distinct words)` entries (none for `n <= 0`), all
      distinct words of `ws`; counts never increase along `r`; equal counts
      keep first-occurrence order; the last entry precedes every word left
      out, so a tie at the cut-off goes to the word that occurs first. */
  predicate MostCommonOf(ws: seq<Word>, n: int, r: seq<Word>) {
    var d := |Distinct(ws)|;
    && |r| == (if n <= 0 then 0 else if n < d then n else d)
    && NoDuplicates(r)
    && (forall k :: k in r ==> k in ws)
    && (forall i, j :: 0 <= i < j < |r| ==> Count(ws, r[i]) >= Count(ws, r[j]))
    && (forall i, j :: 0 <= i < j < |r| && Count(ws, r[i]) == Count(ws, r[j]) ==>
          r[i] in ws && r[j] in ws && FirstIndex(ws, r[i]) < FirstIndex(ws, r[j]))
    && (forall w :: w in ws && w !in r && r != [] ==> Precedes(ws, r[|r| - 1], w))
  }

  /** `MostCommon` keeps every promise of `most_common(n)`. */
  lemma {:induction false} MostCommonSpec(ws: seq<Word>, n: int)
    ensures MostCommonOf(ws, n, MostCommon(ws, n))
  {
    MostCommonSize(ws, n);
    MostCommonOrder(ws, n);
  }
}
